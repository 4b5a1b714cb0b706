/** Failure-carrying results and small integer helpers shared by the other modules. */
module Common {

  datatype Option<+T> = None | Some(value: T)

  /** A computation that either produces a value or raises an error. */
  datatype Result<+R, +E> = Success(value: R) | Failure(error: E)

  function Min(a: int, b: int): int
  {
    if a <= b then a else b
  }

  function Max(a: int, b: int): int
  {
    if a >= b then a else b
  }

  /** Integer ceiling of a / b, as `math.ceil(a / b)` for non-negative a and positive b. */
  function CeilDiv(a: nat, b: nat): (q: nat)
    requires b > 0
    ensures q * b >= a
    ensures q > 0 ==> (q - 1) * b < a
  {
    var q := (a + b - 1) / b;
    var r := (a + b - 1) % b;
    assert q * b + r == a + b - 1;
    assert (q - 1) * b == q * b - b;
    q
  }

  /** Multiplying by a positive factor preserves order. */
  lemma MulMonotone(x: nat, y: nat, b: nat)
    requires x <= y
    ensures x * b <= y * b
  {
  }
}
