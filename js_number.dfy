/**
 * JavaScript's `%` on integers: the remainder of division truncated toward
 * zero, which takes the sign of the dividend (Dafny's `%` is Euclidean).
 */
module JsNumber {

  /**
   * `a % b` for a positive divisor: `a` minus a multiple of `b`, smaller
   * than `b` in size, and never of the opposite sign to `a`.
   */
  function JsRem(a: int, b: int): (r: int)
    requires b > 0
    ensures exists q :: a - r == q * b
    ensures -b < r < b
    ensures a >= 0 ==> r >= 0
    ensures a < 0 ==> r <= 0
  {
    if a >= 0 then
      assert a - a % b == (a / b) * b;
      a % b
    else
      assert a + (-a) % b == -((-a) / b) * b;
      -((-a) % b)
  }

  /** The only multiple of `b` strictly between `-b` and `b` is 0. */
  lemma SmallMultiple(d: int, b: int)
    requires b > 0 && -b < d * b < b
    ensures d == 0
  {
  }

  /** The clauses of `JsRem` fix the remainder: any `r` meeting them is `JsRem(a, b)`. */
  lemma JsRemUnique(a: int, b: int, r: int)
    requires b > 0
    requires (exists q :: a - r == q * b) && -b < r < b && (a >= 0 ==> r >= 0) && (a < 0 ==> r <= 0)
    ensures r == JsRem(a, b)
  {
    var s := JsRem(a, b);
    var q :| a - r == q * b;
    var p :| a - s == p * b;
    assert s - r == (q - p) * b;
    SmallMultiple(q - p, b);
  }
}
