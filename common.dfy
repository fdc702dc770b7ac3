/** Shared value types: an optional value, the Python exceptions the helpers raise,
    and a result that carries either a value or the exception that was raised. */
module Common {

  datatype Option<+T> = None | Some(value: T)

  /** The exception classes the modelled helpers can raise. */
  datatype PyError =
    | TypeError
    | ValueError
    | KeyError
    | ZeroDivisionError
    | OverflowError
    | UnboundLocalError

  datatype Result<+T> = Ok(value: T) | Err(error: PyError)

  /** Python's `//` on numbers: the quotient rounded towards minus infinity.
      Dafny's `/` is Euclidean, which agrees with it only for a positive divisor. */
  function FloorDiv(a: int, b: int): (q: int)
    requires b != 0
    ensures b > 0 ==> b * q <= a < b * q + b
    ensures b < 0 ==> b * q >= a > b * q + b
  {
    if b > 0 then a / b else (-a) / (-b)
  }

  /** Python's `%` on numbers: the remainder takes the sign of the divisor. */
  function FloorMod(a: int, b: int): (r: int)
    requires b != 0
    ensures a == b * FloorDiv(a, b) + r
    ensures b > 0 ==> 0 <= r < b
    ensures b < 0 ==> b < r <= 0
  {
    a - b * FloorDiv(a, b)
  }

  /** Quotient and remainder are determined by any decomposition with a remainder in range. */
  lemma DivModUnique(n: int, d: int, q: int, r: int)
    requires 0 < d && n == d * q + r && 0 <= r < d
    ensures n / d == q && n % d == r
  {
    var k := n / d - q;
    assert d * k == r - n % d;
    MultipleBounds(d, k);
  }

  /** A non-zero multiple of a positive `d` is at least `d` away from zero. */
  lemma MultipleBounds(d: int, k: int)
    requires d > 0
    ensures k >= 1 ==> d * k >= d
    ensures k <= -1 ==> d * k <= -d
  {
  }

  /** Python's `//` and `%` by a positive divisor are determined by the division identity. */
  lemma FloorDivUnique(a: int, b: int, q: int, r: int)
    requires b > 0 && a == b * q + r && 0 <= r < b
    ensures FloorDiv(a, b) == q && FloorMod(a, b) == r
  {
    DivModUnique(a, b, q, r);
  }
}
