/** Failure-carrying results, used for the exceptions the detector can raise. */
module Wrappers {
  datatype Result<+T, +E> = Ok(value: T) | Err(error: E)
}

/** Python's built-in `min` and `max` on integers. */
module Ints {
  function Min(a: int, b: int): (m: int)
    ensures m <= a && m <= b && (m == a || m == b)
  {
    if a < b then a else b
  }

  function Max(a: int, b: int): (m: int)
    ensures a <= m && b <= m && (m == a || m == b)
  {
    if a < b then b else a
  }

  /** Multiplication by a non-negative factor is monotone. */
  lemma MulMono(a: int, b: int, c: nat)
    requires a <= b
    ensures a * c <= b * c
  {
  }
}
