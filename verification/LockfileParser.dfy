/** The recursive-descent parser: one cursor advanced by every method. */
module LockfileParser {
  import opened Common
  import opened JsonText
  import opened LockfileSyntax
  import opened LockfileNodes

  /** Reading the elements from `first` comes down to reading those from `here`. */
  ghost predicate ElementsFrom(src: Text, first: nat, here: nat)
    requires first <= |src| && here <= |src|
  {
    match (ParseElements(src, first), ParseElements(src, here))
    case (Ok(all), Ok(rest)) => all.next == rest.next
    case (Err(f), Err(g)) => f == g
    case _ => false
  }

  /** Reading the members from `first` comes down to `sofar` and reading those from `here`. */
  ghost predicate MembersFrom(src: Text, first: nat, here: nat, sofar: map<Text, JsonNode>)
    requires first <= |src| && here <= |src|
  {
    match (ParseMembers(src, first), ParseMembers(src, here))
    case (Ok(all), Ok(rest)) => all.next == rest.next && LowerMembers(all.node) == sofar + LowerMembers(rest.node)
    case (Err(f), Err(g)) => f == g
    case _ => false
  }

  /** One more member read: the properties grow by it. */
  lemma MemberRead(src: Text, first: nat, here: nat, sofar: map<Text, JsonNode>, next: nat)
    requires first <= |src| && here <= |src| && MembersFrom(src, first, here, sofar)
    requires !At(src, here, RIGHT_BRACE) && ParseKey(src, here).Ok?
      && ParseValue(src, ParseKey(src, here).value.next).Ok?
    requires SkipTrivia(src, ParseValue(src, ParseKey(src, here).value.next).value.next).Ok?
    requires var p := SkipTrivia(src, ParseValue(src, ParseKey(src, here).value.next).value.next).value;
             if At(src, p, COMMA) then SkipTrivia(src, p + 1) == Ok(next) else At(src, p, RIGHT_BRACE) && next == p
    ensures next <= |src|
    ensures var key := ParseKey(src, here).value;
            MembersFrom(src, first, next, sofar[key.node := Lower(ParseValue(src, key.next).value.node)])
  {
    hide SkipTrivia, ParseKey, ParseValue, Lower;
  }

  class Parser {
    const source: Text
    var cursor: nat

    constructor (source: Text)
      ensures this.source == source && cursor == 0
    {
      this.source := source;
      cursor := 0;
    }

    method SkipTriviaHere() returns (failed: Option<Failure>)
      requires cursor <= |source|
      modifies this
      ensures match SkipTrivia(source, old(cursor))
              case Ok(p) => failed == None && cursor == p
              case Err(failure) => failed == Some(failure)
    {
      while cursor < |source|
        invariant cursor <= |source|
        invariant SkipTrivia(source, cursor) == SkipTrivia(source, old(cursor))
        decreases |source| - cursor
      {
        if IsSpace(source[cursor]) {
          cursor := cursor + 1;
          continue;
        }
        if source[cursor] == SLASH && At(source, cursor + 1, SLASH) {
          var newline := FindNewline(source, cursor + 2);
          cursor := if newline.None? then |source| else newline.value + 1;
          continue;
        }
        if source[cursor] == SLASH && At(source, cursor + 1, STAR) {
          var end := FindCommentEnd(source, cursor + 2);
          if end.None? {
            return Some(Failure(cursor, UnterminatedComment));
          }
          cursor := end.value + 2;
          continue;
        }
        break;
      }
      failed := None;
    }

    method ParseStringHere() returns (r: Result<Literal, Failure>)
      requires cursor <= |source|
      modifies this
      ensures match ParseString(source, old(cursor))
              case Ok(parsed) => r == Ok(parsed.node) && cursor == parsed.next
              case Err(failure) => r == Err(failure)
    {
      var failed := SkipTriviaHere();
      if failed.Some? { return Err(failed.value); }
      var start := cursor;
      if !At(source, cursor, QUOTE) { return Err(Failure(cursor, ExpectedString)); }
      cursor := cursor + 1;
      while cursor < |source|
        invariant start < cursor
        invariant ScanString(source, cursor) == ScanString(source, start + 1)
        decreases |source| - cursor
      {
        var character := source[cursor];
        if character == BACKSLASH {
          cursor := cursor + 2;
          continue;
        }
        cursor := cursor + 1;
        if character == QUOTE {
          var raw := source[start..cursor];
          var value := ParseLiteral(raw);
          if value.None? { return Err(Failure(cursor, BadLiteral)); }
          return Ok(Literal(start, cursor, value.value));
        }
      }
      return Err(Failure(cursor, UnterminatedString));
    }

    method ParseValueHere() returns (r: Result<JsonNode, Failure>)
      requires cursor <= |source|
      modifies this
      ensures match ParseValue(source, old(cursor))
              case Ok(parsed) => r == Ok(Lower(parsed.node)) && cursor == parsed.next
              case Err(failure) => r == Err(failure)
      decreases |source| - cursor, 2
    {
      hide SkipTrivia, ScanString, ParseString, ScanAtom, ParseObject, ParseElements, LowerMembers;
      var failed := SkipTriviaHere();
      if failed.Some? { return Err(failed.value); }
      if At(source, cursor, QUOTE) {
        var literal := ParseStringHere();
        if literal.Err? { return Err(literal.error); }
        return Ok(StringNode(literal.value));
      }
      if At(source, cursor, LEFT_BRACE) {
        r := ParseObjectHere();
        return;
      }
      if At(source, cursor, LEFT_BRACKET) {
        cursor := cursor + 1;
        failed := SkipTriviaHere();
        if failed.Some? { return Err(failed.value); }
        failed := ParseElementsHere();
        if failed.Some? { return Err(failed.value); }
        cursor := cursor + 1;
        return Ok(OtherNode);
      }
      var start := cursor;
      ScanAtomHere();
      if cursor == start { return Err(Failure(cursor, ExpectedValue)); }
      return Ok(OtherNode);
    }

    method ScanAtomHere()
      requires cursor <= |source|
      modifies this
      ensures cursor == ScanAtom(source, old(cursor))
    {
      while cursor < |source| && !EndsAtom(source[cursor])
        invariant cursor <= |source|
        invariant ScanAtom(source, cursor) == ScanAtom(source, old(cursor))
      {
        cursor := cursor + 1;
      }
    }

    /** The loop over the elements of an array, up to its closing bracket. */
    method ParseElementsHere() returns (failed: Option<Failure>)
      requires cursor <= |source|
      modifies this
      ensures match ParseElements(source, old(cursor))
              case Ok(parsed) => failed == None && cursor == parsed.next
              case Err(failure) => failed == Some(failure)
      decreases |source| - cursor, 3
    {
      hide SkipTrivia, ParseValue, Lower;
      while !At(source, cursor, RIGHT_BRACKET)
        invariant old(cursor) <= cursor <= |source|
        invariant ElementsFrom(source, old(cursor), cursor)
        decreases |source| - cursor
      {
        var element := ParseValueHere();
        if element.Err? { return Some(element.error); }
        failed := SkipTriviaHere();
        if failed.Some? { return; }
        if At(source, cursor, COMMA) {
          cursor := cursor + 1;
          failed := SkipTriviaHere();
          if failed.Some? { return; }
        } else if !At(source, cursor, RIGHT_BRACKET) {
          return Some(Failure(cursor, ExpectedCommaOrBracket));
        }
      }
      failed := None;
    }

    method ParseKeyHere() returns (r: Result<Text, Failure>)
      requires cursor <= |source|
      modifies this
      ensures match ParseKey(source, old(cursor))
              case Ok(parsed) => r == Ok(parsed.node) && cursor == parsed.next
              case Err(failure) => r == Err(failure)
    {
      hide SkipTrivia, ParseString;
      var key := ParseStringHere();
      if key.Err? { return Err(key.error); }
      var failed := SkipTriviaHere();
      if failed.Some? { return Err(failed.value); }
      if !At(source, cursor, COLON) { return Err(Failure(cursor, ExpectedColon)); }
      cursor := cursor + 1;
      return Ok(key.value.value);
    }

    method ParseObjectHere() returns (r: Result<JsonNode, Failure>)
      requires cursor <= |source|
      modifies this
      ensures match ParseObject(source, old(cursor))
              case Ok(parsed) => r == Ok(Lower(parsed.node)) && cursor == parsed.next
              case Err(failure) => r == Err(failure)
      decreases |source| - cursor, 1
    {
      hide SkipTrivia, ParseMembers, LowerMembers;
      var failed := SkipTriviaHere();
      if failed.Some? { return Err(failed.value); }
      if !At(source, cursor, LEFT_BRACE) { return Err(Failure(cursor, ExpectedObject)); }
      cursor := cursor + 1;
      failed := SkipTriviaHere();
      if failed.Some? { return Err(failed.value); }
      var properties := ParseMembersHere();
      if properties.Err? { return Err(properties.error); }
      cursor := cursor + 1;
      return Ok(ObjectNode(properties.value));
    }

    /** The loop over the members of an object, up to its closing brace. */
    method ParseMembersHere() returns (r: Result<map<Text, JsonNode>, Failure>)
      requires cursor <= |source|
      modifies this
      ensures match ParseMembers(source, old(cursor))
              case Ok(parsed) => r == Ok(LowerMembers(parsed.node)) && cursor == parsed.next
              case Err(failure) => r == Err(failure)
      decreases |source| - cursor, 3
    {
      hide SkipTrivia, ParseKey, ParseValue, Lower;
      var properties: map<Text, JsonNode> := map[];
      while !At(source, cursor, RIGHT_BRACE)
        invariant old(cursor) <= cursor <= |source|
        invariant MembersFrom(source, old(cursor), cursor, properties)
        decreases |source| - cursor
      {
        ghost var here, sofar := cursor, properties;
        var key := ParseKeyHere();
        if key.Err? { return Err(key.error); }
        var value := ParseValueHere();
        if value.Err? { return Err(value.error); }
        properties := properties[key.value := value.value];
        var failed := SkipTriviaHere();
        if failed.Some? { return Err(failed.value); }
        if At(source, cursor, COMMA) {
          cursor := cursor + 1;
          failed := SkipTriviaHere();
          if failed.Some? { return Err(failed.value); }
        } else if !At(source, cursor, RIGHT_BRACE) {
          return Err(Failure(cursor, ExpectedCommaOrBrace));
        }
        MemberRead(source, old(cursor), here, sofar, cursor);
      }
      assert properties + map[] == properties;
      return Ok(properties);
    }
  }
}
