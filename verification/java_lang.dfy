/** Java's integer division and remainder, and the Option/Result wrappers the
    rest of the model uses for Java's `null` and for error returns.

    Java's `/` truncates toward zero and its `%` takes the sign of the dividend,
    whereas Dafny's are Euclidean; the two agree on non-negative operands only. */
module JavaLang {

  datatype Option<+T> = None | Some(value: T)

  datatype Result<+T, +E> = Success(value: T) | Failure(error: E)

  /** Java's `a / b` for a positive divisor: the quotient rounded toward zero. */
  function JDiv(a: int, b: int): (q: int)
    requires b > 0
    ensures a >= 0 ==> q == a / b
    ensures a < 0 ==> q <= 0 && q * b >= a && (q - 1) * b < a
  {
    if a >= 0 then a / b else -((-a) / b)
  }

  /** Java's `a % b` for a positive divisor: the remainder has the sign of `a`. */
  function JRem(a: int, b: int): (r: int)
    requires b > 0
    ensures a == JDiv(a, b) * b + r
    ensures a >= 0 ==> 0 <= r < b && r == a % b
    ensures a < 0 ==> -b < r <= 0
  {
    a - JDiv(a, b) * b
  }
}
