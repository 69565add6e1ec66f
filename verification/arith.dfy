/** Integer helpers of main.go: `abs`, `clampInt`, and the rounding `math.Round` performs. */
module Arith {

  /** Go's `abs` (main.go): the magnitude of `x`. */
  function Abs(x: int): (r: int)
    ensures r >= 0
    ensures r == x || r == -x
  {
    if x < 0 then -x else x
  }

  /** Go's `clampInt`: forces `x` into `[lo, hi]`; a value already inside is kept. */
  function Clamp(x: int, lo: int, hi: int): (r: int)
    ensures lo <= hi ==> lo <= r <= hi
    ensures lo <= x <= hi ==> r == x
    ensures x < lo ==> r == lo
    ensures lo <= hi && hi < x ==> r == hi
  {
    if x < lo then lo else if x > hi then hi else x
  }

  /** A percentage as the curve code uses it: inside `[0, 100]`. */
  predicate IsPercent(x: int) {
    0 <= x <= 100
  }

  /** Clamping never reverses the order of two values. */
  lemma ClampMonotone(x: int, y: int, lo: int, hi: int)
    requires lo <= hi
    requires x <= y
    ensures Clamp(x, lo, hi) <= Clamp(y, lo, hi)
  {
  }

  /**
   * The integer nearest to the rational `p / q`, halves rounded away from
   * zero (the rule of Go's `math.Round`). The result is within one half of
   * `p / q`; on an exact half it is the candidate farther from zero.
   */
  function RoundHalfAway(p: int, q: int): (r: int)
    requires q > 0
    ensures q * (2 * r - 1) <= 2 * p <= q * (2 * r + 1)
    ensures 2 * p == q * (2 * r - 1) ==> r > 0
    ensures 2 * p == q * (2 * r + 1) ==> r < 0
  {
    if p >= 0 then
      RoundUpHalf(p, q);
      (2 * p + q) / (2 * q)
    else
      RoundUpHalf(-p, q);
      -((q - 2 * p) / (2 * q))
  }

  /**
   * For `p >= 0`, `(2p + q) / 2q` is within one half of `p / q`, with the
   * exact half below it and never the one above.
   */
  lemma RoundUpHalf(p: int, q: int)
    requires p >= 0 && q > 0
    ensures var r := (2 * p + q) / (2 * q);
      && r >= 0
      && q * (2 * r - 1) <= 2 * p < q * (2 * r + 1)
      && (2 * p == q * (2 * r - 1) ==> r > 0)
  {
    var n, d := 2 * p + q, 2 * q;
    var r, m := n / d, n % d;
    DivModBounds(n, d);
    assert n == d * r + m && 0 <= m < d;
    assert 2 * p == q * (2 * r - 1) + m;
  }

  /** Euclidean division written out, for the nonlinear steps above. */
  lemma DivModBounds(n: int, d: int)
    requires d > 0
    ensures n == d * (n / d) + n % d
    ensures 0 <= n % d < d
    ensures n >= 0 ==> n / d >= 0
    ensures n > 0 && n % d == 0 ==> n / d > 0
  {
  }

  /** Rounding an exact integer `k` (written as `k * q / q`) gives `k` back. */
  lemma RoundExact(k: int, q: int)
    requires q > 0
    ensures RoundHalfAway(k * q, q) == k
  {
    var r := RoundHalfAway(k * q, q);
    assert q * (2 * r - 1) <= q * (2 * k) <= q * (2 * r + 1);
    MultiplyCancel(q, 2 * r - 1, 2 * k);
    MultiplyCancel(q, 2 * k, 2 * r + 1);
  }

  /** Dividing both sides of `q * a <= q * b` by a positive `q`. */
  lemma MultiplyCancel(q: int, a: int, b: int)
    requires q > 0
    requires q * a <= q * b
    ensures a <= b
  {
  }

  /** Rounding preserves the order of two rationals with the same denominator. */
  lemma RoundMonotone(p1: int, p2: int, q: int)
    requires q > 0
    requires p1 <= p2
    ensures RoundHalfAway(p1, q) <= RoundHalfAway(p2, q)
  {
    var r1 := RoundHalfAway(p1, q);
    var r2 := RoundHalfAway(p2, q);
    // q * (2 * r1 - 1) <= 2 * p1 <= 2 * p2 <= q * (2 * r2 + 1), so r1 <= r2 + 1,
    // and r1 == r2 + 1 would need both halves to be ties of opposite sign.
    var lo1 := q * (2 * r1 - 1);
    var hi2 := q * (2 * r2 + 1);
    assert lo1 <= 2 * p1 <= 2 * p2 <= hi2;
    MultiplyCancel(q, 2 * r1 - 1, 2 * r2 + 1);
    assert r1 == r2 + 1 ==> lo1 == hi2;
  }

  /** A rational lying between two integers rounds to a value between them. */
  lemma RoundBetween(p: int, q: int, lo: int, hi: int)
    requires q > 0
    requires lo * q <= p <= hi * q
    ensures lo <= RoundHalfAway(p, q) <= hi
  {
    RoundMonotone(lo * q, p, q);
    RoundMonotone(p, hi * q, q);
    RoundExact(lo, q);
    RoundExact(hi, q);
  }
}
