/**
  Optimistic plan and commit over shared sessions: a batch is worked out on a copy and installed
  only where the session still is what it was planned on. Every operation holds the session's lock,
  so a history is a sequence of whole operations.
 */
module SessionPlans {
  import opened Common

  // ---------- one batch ----------

  /** Redacts the inputs in order, threading the session through; the first failure ends the batch. */
  function Batch<S, I, R, E>(redact: (S, I) -> Result<(S, R), E>, session: S, inputs: seq<I>): Result<(S, seq<R>), E> {
    if inputs == [] then Ok((session, []))
    else
      var before :- Batch(redact, session, inputs[..|inputs| - 1]);
      var last :- redact(before.0, inputs[|inputs| - 1]);
      Ok((last.0, before.1 + [last.1]))
  }

  lemma {:induction false} BatchOfOne<S, I, R, E>(redact: (S, I) -> Result<(S, R), E>, session: S, input: I)
    ensures redact(session, input).Err? ==> Batch(redact, session, [input]) == Err(redact(session, input).error)
    ensures redact(session, input).Ok? ==>
      Batch(redact, session, [input]) == Ok((redact(session, input).value.0, [redact(session, input).value.1]))
  {
    assert [input][..0] == [];
    if redact(session, input).Ok? {
      assert [] + [redact(session, input).value.1] == [redact(session, input).value.1];
    }
  }

  /** A batch is its first part, and then, unless that fails, the rest on the session it leaves. */
  lemma {:induction false} BatchInParts<S, I, R, E>(redact: (S, I) -> Result<(S, R), E>, session: S, a: seq<I>,
      b: seq<I>)
    ensures Batch(redact, session, a).Err? ==> Batch(redact, session, a + b) == Err(Batch(redact, session, a).error)
    ensures Batch(redact, session, a).Ok? ==>
      var (middle, first) := Batch(redact, session, a).value;
      && (Batch(redact, middle, b).Err? ==> Batch(redact, session, a + b) == Err(Batch(redact, middle, b).error))
      && (Batch(redact, middle, b).Ok? ==>
           Batch(redact, session, a + b)
           == Ok((Batch(redact, middle, b).value.0, first + Batch(redact, middle, b).value.1)))
    decreases |b|
  {
    if b == [] {
      assert a + b == a;
      if Batch(redact, session, a).Ok? {
        assert Batch(redact, session, a).value.1 + [] == Batch(redact, session, a).value.1;
      }
    } else {
      var early, last := b[..|b| - 1], b[|b| - 1];
      assert (a + b)[..|a + b| - 1] == a + early && (a + b)[|a + b| - 1] == last;
      BatchInParts(redact, session, a, early);
      if Batch(redact, session, a + early).Ok? && Batch(redact, session, a + b).Ok? {
        var first, middle := Batch(redact, session, a).value.1, Batch(redact, session, a).value.0;
        var second := Batch(redact, middle, early).value.1;
        var result := redact(Batch(redact, middle, early).value.0, last).value.1;
        assert (first + second) + [result] == first + (second + [result]);
      }
    }
  }

  lemma {:induction false} FailedPrefix<S, I, R, E>(redact: (S, I) -> Result<(S, R), E>, session: S, inputs: seq<I>,
      k: nat)
    requires k <= |inputs| && Batch(redact, session, inputs[..k]).Err?
    ensures Batch(redact, session, inputs) == Err(Batch(redact, session, inputs[..k]).error)
    decreases |inputs|
  {
    if k == |inputs| {
      assert inputs[..k] == inputs;
    } else {
      assert inputs[..|inputs| - 1][..k] == inputs[..k];
      FailedPrefix(redact, session, inputs[..|inputs| - 1], k);
    }
  }

  // ---------- the objects ----------

  datatype PlanError = SessionPlanAlreadyCommitted | SessionPlanConflict

  /** What a commit leaves: its answer, the plan's stored session, the target session. */
  function Committed<S(==)>(base: S, planned: Option<S>, target: S): (Result<(), PlanError>, Option<S>, S) {
    match planned
    case None => (Err(SessionPlanAlreadyCommitted), planned, target)
    case Some(next) =>
      if target != base then (Err(SessionPlanConflict), planned, target) else (Ok(()), None, next)
  }

  class SharedSession<S> {
    var state: S

    constructor (state: S)
      ensures this.state == state
    {
      this.state := state;
    }
  }

  class PreparedSessionPlan<S(==), R> {
    const base: S
    var planned: Option<S>
    const results: seq<R>

    constructor (base: S, planned: S, results: seq<R>)
      ensures this.base == base && this.planned == Some(planned) && this.results == results
    {
      this.base := base;
      this.planned := Some(planned);
      this.results := results;
    }

    /** Installs the plan if it is still there and the target is what it was made on. A commit that
        fails changes neither, so it may be tried again. */
    method Commit(target: SharedSession<S>) returns (r: Result<(), PlanError>)
      modifies this, target
      ensures (r, planned, target.state) == Committed(base, old(planned), old(target.state))
    {
      if planned.None? { return Err(SessionPlanAlreadyCommitted); }
      if target.state != base { return Err(SessionPlanConflict); }
      target.state := planned.value;
      planned := None;
      r := Ok(());
    }
  }

  /** Plans a batch on a copy of the session, which itself stays as it is. */
  method PlanSessionRedactions<S(==), I, R, E>(redact: (S, I) -> Result<(S, R), E>, session: SharedSession<S>,
      inputs: seq<I>)
    returns (r: Result<PreparedSessionPlan<S, R>, E>)
    ensures match Batch(redact, session.state, inputs)
            case Err(e) => r == Err(e)
            case Ok((next, results)) =>
              r.Ok? && fresh(r.value) && r.value.base == session.state && r.value.planned == Some(next)
                && r.value.results == results
  {
    var base := session.state;
    var planned := base;
    var results: seq<R> := [];
    for k := 0 to |inputs|
      invariant Batch(redact, base, inputs[..k]) == Ok((planned, results))
    {
      assert inputs[..k + 1][..k] == inputs[..k];
      var result := redact(planned, inputs[k]);
      if result.Err? {
        FailedPrefix(redact, base, inputs, k + 1);
        return Err(result.error);
      }
      planned := result.value.0;
      results := results + [result.value.1];
    }
    assert inputs[..|inputs|] == inputs;
    var plan := new PreparedSessionPlan(base, planned, results);
    r := Ok(plan);
  }

  // ---------- histories ----------

  /** A plan together with the batch it stands for. */
  datatype Plan<!S, !I, R, E> =
    Plan(base: S, planned: Option<S>, results: seq<R>, redact: (S, I) -> Result<(S, R), E>, inputs: seq<I>)

  /** `Change` is any other operation on a session: a direct redaction, a deletion, a restore. */
  datatype Step<!S, !I, R, E> =
    | MakePlan(session: nat, redact: (S, I) -> Result<(S, R), E>, inputs: seq<I>)
    | CommitPlan(plan: nat, target: nat)
    | Change(target: nat, update: S -> S)

  datatype State<!S, !I, R, E> = State(sessions: seq<S>, plans: seq<Plan<S, I, R, E>>)

  function Next<S(==), I, R, E>(state: State<S, I, R, E>, step: Step<S, I, R, E>): State<S, I, R, E> {
    match step
    case MakePlan(t, redact, inputs) =>
      if t >= |state.sessions| then state
      else
        (match Batch(redact, state.sessions[t], inputs)
         case Err(_) => state
         case Ok((next, results)) =>
           state.(plans := state.plans + [Plan(state.sessions[t], Some(next), results, redact, inputs)]))
    case CommitPlan(p, t) =>
      if p >= |state.plans| || t >= |state.sessions| then state
      else
        var plan := state.plans[p];
        var after := Committed(plan.base, plan.planned, state.sessions[t]);
        State(state.sessions[t := after.2], state.plans[p := plan.(planned := after.1)])
    case Change(t, update) =>
      if t >= |state.sessions| then state
      else state.(sessions := state.sessions[t := update(state.sessions[t])])
  }

  function Run<S(==), I, R, E>(state: State<S, I, R, E>, steps: seq<Step<S, I, R, E>>): State<S, I, R, E> {
    if steps == [] then state else Next(Run(state, steps[..|steps| - 1]), steps[|steps| - 1])
  }

  /** A commit of plan `p` that installs it. */
  predicate TakesEffect<S(==), I, R, E>(state: State<S, I, R, E>, step: Step<S, I, R, E>, p: nat) {
    && step.CommitPlan? && step.plan == p && p < |state.plans| && step.target < |state.sessions|
    && Committed(state.plans[p].base, state.plans[p].planned, state.sessions[step.target]).0.Ok?
  }

  // ---------- every plan was worked out on its base ----------

  ghost predicate PlansMade<S, I, R, E>(state: State<S, I, R, E>) {
    forall p :: 0 <= p < |state.plans| && state.plans[p].planned.Some? ==>
      var plan := state.plans[p];
      Batch(plan.redact, plan.base, plan.inputs) == Ok((plan.planned.value, plan.results))
  }

  lemma PlansStayMade<S, I, R, E>(state: State<S, I, R, E>, step: Step<S, I, R, E>)
    requires PlansMade(state)
    ensures PlansMade(Next(state, step)) && |Next(state, step).sessions| == |state.sessions|
  {
    hide Batch;
  }

  lemma {:induction false} RunKeepsPlansMade<S, I, R, E>(state: State<S, I, R, E>, steps: seq<Step<S, I, R, E>>)
    requires PlansMade(state)
    ensures PlansMade(Run(state, steps)) && |Run(state, steps).sessions| == |state.sessions|
  {
    if steps != [] {
      RunKeepsPlansMade(state, steps[..|steps| - 1]);
      PlansStayMade(Run(state, steps[..|steps| - 1]), steps[|steps| - 1]);
    }
  }

  // ---------- at most once ----------

  /** Plans are never removed, and one that was installed stays used up. */
  lemma {:induction false} UsedUpStays<S, I, R, E>(state: State<S, I, R, E>, steps: seq<Step<S, I, R, E>>, p: nat)
    requires p < |state.plans|
    ensures p < |Run(state, steps).plans|
    ensures state.plans[p].planned.None? ==> Run(state, steps).plans[p].planned.None?
  {
    if steps != [] { UsedUpStays(state, steps[..|steps| - 1], p); }
  }

  lemma {:induction false} RunInParts<S, I, R, E>(state: State<S, I, R, E>, a: seq<Step<S, I, R, E>>,
      b: seq<Step<S, I, R, E>>)
    ensures Run(state, a + b) == Run(Run(state, a), b)
    decreases |b|
  {
    if b == [] {
      assert a + b == a;
    } else {
      assert (a + b)[..|a + b| - 1] == a + b[..|b| - 1];
      RunInParts(state, a, b[..|b| - 1]);
    }
  }

  /** A plan takes effect at most once, whatever happens in between and whichever session it is
      committed to. */
  lemma EffectiveOnce<S, I, R, E>(state: State<S, I, R, E>, steps: seq<Step<S, I, R, E>>, j: nat,
      k: nat, p: nat)
    requires j < k < |steps|
    ensures !(TakesEffect(Run(state, steps[..j]), steps[j], p) && TakesEffect(Run(state, steps[..k]), steps[k], p))
  {
    if TakesEffect(Run(state, steps[..j]), steps[j], p) {
      assert steps[..j + 1][..j] == steps[..j];
      var after := Run(state, steps[..j + 1]);
      assert after.plans[p].planned.None?;
      assert steps[..k] == steps[..j + 1] + steps[j + 1..k];
      RunInParts(state, steps[..j + 1], steps[j + 1..k]);
      UsedUpStays(after, steps[j + 1..k], p);
    }
  }

  /** A plan committed at once to the session it was made on leaves there what its batch leaves; a plan
      whose batch fails is not made. */
  lemma PlanThenCommit<S, I, R, E>(state: State<S, I, R, E>, t: nat, redact: (S, I) -> Result<(S, R), E>,
      inputs: seq<I>)
    requires t < |state.sessions|
    ensures var made := Next(state, MakePlan(t, redact, inputs));
            match Batch(redact, state.sessions[t], inputs)
            case Err(_) => made == state
            case Ok((next, results)) =>
              && made.sessions == state.sessions && |made.plans| == |state.plans| + 1
              && made.plans[|state.plans|].results == results
              && Next(made, CommitPlan(|state.plans|, t)).sessions == state.sessions[t := next]
  {
    hide Batch;
  }

  // ---------- failed commits ----------

  /** A commit that takes no effect changes nothing, neither the session nor the plan. */
  lemma FailedCommitChangesNothing<S, I, R, E>(state: State<S, I, R, E>, p: nat, t: nat)
    requires !TakesEffect(state, CommitPlan(p, t), p)
    ensures Next(state, CommitPlan(p, t)) == state
  {
    if p < |state.plans| && t < |state.sessions| {
      assert state.sessions[t := state.sessions[t]] == state.sessions;
      assert state.plans[p := state.plans[p]] == state.plans;
    }
  }

  /** A plan that was not installed can still be, wherever the session is what it was made on. */
  lemma RetrySucceeds<S, I, R, E>(state: State<S, I, R, E>, p: nat, t: nat)
    requires p < |state.plans| && t < |state.sessions|
    ensures TakesEffect(state, CommitPlan(p, t), p)
       <==> state.plans[p].planned.Some? && state.sessions[t] == state.plans[p].base
  {
  }

  // ---------- serialisability ----------

  /** What changed a session: a whole batch with the results it returned, or another operation. */
  datatype Effect<!S, !I, R, E> =
    | Redacted(redact: (S, I) -> Result<(S, R), E>, inputs: seq<I>, results: seq<R>)
    | Changed(update: S -> S)

  /** The effects on session `t`, in the order in which they happened. */
  function Effects<S(==), I, R, E>(state: State<S, I, R, E>, steps: seq<Step<S, I, R, E>>,
      t: nat): seq<Effect<S, I, R, E>> {
    if steps == [] then []
    else
      var earlier := steps[..|steps| - 1];
      Effects(state, earlier, t) + EffectOf(Run(state, earlier), steps[|steps| - 1], t)
  }

  function EffectOf<S(==), I, R, E>(state: State<S, I, R, E>, step: Step<S, I, R, E>, t: nat): seq<Effect<S, I, R, E>> {
    match step
    case MakePlan(_, _, _) => []
    case CommitPlan(p, target) =>
      if target == t && TakesEffect(state, step, p)
      then [Redacted(state.plans[p].redact, state.plans[p].inputs, state.plans[p].results)] else []
    case Change(target, update) => if target == t then [Changed(update)] else []
  }

  /** Runs the effects one after another on the session itself; a batch must return its results. */
  function Replay<S, I, R(==), E>(session: S, effects: seq<Effect<S, I, R, E>>): Option<S> {
    if effects == [] then Some(session)
    else
      match Replay(session, effects[..|effects| - 1])
      case None => None
      case Some(before) =>
        match effects[|effects| - 1]
        case Changed(update) => Some(update(before))
        case Redacted(redact, inputs, results) =>
          match Batch(redact, before, inputs)
          case Err(_) => None
          case Ok((next, produced)) => if produced == results then Some(next) else None
  }

  /** A replayed batch returned exactly the results it is said to have. */
  lemma ReplayedResults<S, I, R, E>(session: S, redact: (S, I) -> Result<(S, R), E>, inputs: seq<I>, results: seq<R>)
    ensures Replay(session, [Redacted(redact, inputs, results)]).Some? <==>
      Batch(redact, session, inputs).Ok? && Batch(redact, session, inputs).value.1 == results
  {
    hide Batch;
    assert Replay<S, I, R, E>(session, []) == Some(session);
    assert [Redacted(redact, inputs, results)][..0] == [];
  }

  /** Any history leaves every session as if its effects had been run directly on it, one after
      another in the order in which they took effect, and every plan had returned the same results. */
  lemma {:induction false} Serialisable<S, I, R, E>(state: State<S, I, R, E>, steps: seq<Step<S, I, R, E>>, t: nat)
    requires PlansMade(state) && t < |state.sessions|
    ensures |Run(state, steps).sessions| == |state.sessions|
    ensures Replay(state.sessions[t], Effects(state, steps, t)) == Some(Run(state, steps).sessions[t])
  {
    if steps != [] {
      var earlier := steps[..|steps| - 1];
      Serialisable(state, earlier, t);
      RunKeepsPlansMade(state, earlier);
      StepIsItsEffect(state.sessions[t], Effects(state, earlier, t), Run(state, earlier), steps[|steps| - 1], t);
    }
  }

  lemma StepIsItsEffect<S, I, R, E>(first: S, effects: seq<Effect<S, I, R, E>>,
      state: State<S, I, R, E>, step: Step<S, I, R, E>, t: nat)
    requires PlansMade(state) && t < |state.sessions| && Replay(first, effects) == Some(state.sessions[t])
    ensures |Next(state, step).sessions| == |state.sessions|
    ensures Replay(first, effects + EffectOf(state, step, t)) == Some(Next(state, step).sessions[t])
  {
    hide Batch, Replay, EffectOf;
    var added := EffectOf(state, step, t);
    EffectExplains(state, step, t);
    if added == [] {
      assert effects + added == effects;
    } else {
      assert added == [added[0]];
      ReplayMore(first, effects, added[0]);
    }
  }

  lemma ReplayMore<S, I, R, E>(first: S, effects: seq<Effect<S, I, R, E>>,
      effect: Effect<S, I, R, E>)
    requires Replay(first, effects).Some?
    ensures Replay(first, effects + [effect]) == Replay(Replay(first, effects).value, [effect])
  {
    var all := effects + [effect];
    assert all[..|all| - 1] == effects;
    assert [effect][..0] == [];
  }

  lemma EffectExplains<S, I, R, E>(state: State<S, I, R, E>, step: Step<S, I, R, E>, t: nat)
    requires PlansMade(state) && t < |state.sessions|
    ensures |Next(state, step).sessions| == |state.sessions|
    ensures EffectOf(state, step, t) == [] ==> Next(state, step).sessions[t] == state.sessions[t]
    ensures EffectOf(state, step, t) != [] ==>
      |EffectOf(state, step, t)| == 1
        && Replay(state.sessions[t], EffectOf(state, step, t)) == Some(Next(state, step).sessions[t])
  {
    hide Batch, Replay;
    match step
    case MakePlan(_, _, _) =>
    case Change(target, update) => ReplayChange<S, I, R, E>(state.sessions[t], update);
    case CommitPlan(p, target) =>
      if target == t && TakesEffect(state, step, p) { ReplayBatch(state.sessions[t], state.plans[p]); }
  }

  lemma ReplayChange<S, I, R, E>(session: S, update: S -> S)
    ensures Replay<S, I, R, E>(session, [Changed(update)]) == Some(update(session))
  {
    assert Replay<S, I, R, E>(session, []) == Some(session);
  }

  lemma ReplayBatch<S, I, R, E>(session: S, plan: Plan<S, I, R, E>)
    requires plan.planned.Some? && Batch(plan.redact, session, plan.inputs) == Ok((plan.planned.value, plan.results))
    ensures Replay(session, [Redacted(plan.redact, plan.inputs, plan.results)]) == plan.planned
  {
    hide Batch;
    assert Replay<S, I, R, E>(session, []) == Some(session);
  }
}
