/** Small datatypes and arithmetic shared by every component. */
module Common {

  datatype Option<+T> = None | Some(value: T)

  datatype Result<+T, +E> = Ok(value: T) | Err(error: E) {
    predicate IsFailure() {
      Err?
    }

    function PropagateFailure<U>(): Result<U, E>
      requires Err?
    {
      Err(error)
    }

    function Extract(): T
      requires Ok?
    {
      value
    }
  }

  function Min(a: int, b: int): int {
    if a <= b then a else b
  }

  function Max(a: int, b: int): int {
    if a >= b then a else b
  }

  function Diff(a: int, b: int): nat {
    if a <= b then b - a else a - b
  }

  const U32_MAX: nat := 0xFFFF_FFFF

  /** A 32-bit unsigned value. */
  type U32 = n: nat | n <= 0xFFFF_FFFF

  /** Saturating 32-bit arithmetic. */
  function SatAdd(a: nat, b: nat): U32 {
    Min(a + b, U32_MAX)
  }

  function SatSub(a: nat, b: nat): nat {
    Max(a - b, 0)
  }

  function SatMul(a: nat, b: nat): U32 {
    Min(a * b, U32_MAX)
  }
}
