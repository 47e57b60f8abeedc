/** C++ integer division and the few facts about quotients that the clock proofs need. */
module Arith {

  /** Division as C++ does it on integers: the quotient is cut towards zero. */
  function TruncDiv(a: int, b: int): (q: int)
    requires b != 0
  {
    if a >= 0 then (if b > 0 then a / b else -(a / -b))
    else (if b > 0 then -(-a / b) else -a / -b)
  }

  function Max(a: int, b: int): (m: int) { if a < b then b else a }

  function Min(a: int, b: int): (m: int) { if a < b then a else b }

  lemma MulMonotone(x: int, y: int, b: int)
    requires b >= 0
    ensures x <= y ==> x * b <= y * b
  {
  }

  lemma MulCancel(x: int, y: int, b: int)
    requires b > 0 && x * b <= y * b
    ensures x <= y
  {
    MulMonotone(y + 1, x, b);
  }

  /** `q` is the quotient exactly when `q * b` is the last multiple of `b` not above `a`. */
  lemma QuotientIs(a: int, b: int, q: int)
    requires b > 0 && q * b <= a < q * b + b
    ensures a / b == q
  {
    var p := a / b;
    MulMonotone(p + 1, q, b);
    MulMonotone(q + 1, p, b);
  }

  /** Quotient and remainder are determined by their defining equation. */
  lemma DivModIs(a: int, b: int, q: int, r: int)
    requires b > 0 && q * b + r == a && 0 <= r < b
    ensures a / b == q && a % b == r
  {
    QuotientIs(a, b, q);
  }

  lemma QuotientShift(m: int, x: int, b: int)
    requires b > 0
    ensures (m * b + x) / b == m + x / b
  {
    var q := x / b;
    assert (m + q) * b == m * b + q * b;
    QuotientIs(m * b + x, b, m + q);
  }

  /** A proper fraction of `t` is less than `t`, unless `t` is zero. */
  lemma FractionBelow(r: nat, b: int, t: nat)
    requires r < b
    ensures 0 <= r * t / b && (if t > 0 then r * t / b < t else r * t / b == 0)
  {
    MulMonotone(0, r, t);
    QuotientAtLeast(r * t, b, 0);
    MulMonotone(r + 1, b, t);
    assert (r + 1) * t == r * t + t;
    MulMonotone(t, r * t / b, b);
  }

  lemma QuotientBounds(a: int, b: int)
    requires b > 0
    ensures (a / b) * b <= a < (a / b) * b + b
  {
  }

  lemma QuotientAtLeast(a: int, b: int, q: int)
    requires b > 0 && q * b <= a
    ensures q <= a / b
  {
    MulMonotone(a / b + 1, q, b);
  }

  lemma QuotientMonotone(a: int, c: int, b: int)
    requires b > 0 && a <= c
    ensures a / b <= c / b
  {
    QuotientAtLeast(c, b, a / b);
  }

  /** Quotients of a sum: the parts never exceed the whole. */
  lemma QuotientSum(a: int, c: int, b: int)
    requires b > 0
    ensures a / b + c / b <= (a + c) / b
  {
    QuotientAtLeast(a + c, b, a / b + c / b);
  }

  /** A common factor cancels. */
  lemma QuotientCancel(a: int, b: int, r: int)
    requires b > 0 && r > 0
    ensures r * b > 0 && (a * r) / (r * b) == a / b
  {
    var q := a / b;
    assert q * b <= a < q * b + b;
    assert (q * b) * r <= a * r < (q * b + b) * r;
    assert (q * b + b) * r == q * (r * b) + r * b;
    assert q * (r * b) == (q * b) * r;
    QuotientIs(a * r, r * b, q);
  }
}
