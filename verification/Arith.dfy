/** The few facts about products, quotients and remainders that the solver is not left to guess. */
module Arith {

  lemma MulMono(a: int, b: int, w: int)
    requires a <= b && 0 <= w
    ensures a * w <= b * w
  {
    assert b * w - a * w == (b - a) * w;
  }

  lemma MulStrict(a: nat, b: nat, x: nat, y: nat)
    requires a < x && b < y
    ensures a * b < x * y
  {
    MulMono(a, x, b);
    MulMono(b, y - 1, x);
    assert x * (y - 1) == x * y - x;
  }

  lemma CancelLt(a: int, b: int, w: int)
    requires 0 <= w && a * w < b * w
    ensures a < b
  {
    if a >= b {
      MulMono(b, a, w);
    }
  }

  lemma Plus1(a: int, w: int)
    ensures (a + 1) * w == a * w + w
  {
  }

  lemma NegMul(a: int, w: int)
    ensures (-a) * w == - (a * w)
  {
  }

  lemma Assoc(a: int, b: int, c: int)
    ensures a * (b * c) == (a * b) * c
  {
  }

  lemma Rotate(a: int, b: int, c: int)
    ensures (a * b) * c == b * (a * c)
  {
  }

  lemma Distribute(b: int, x: int, y: int)
    ensures b * (x + y) == b * x + b * y
  {
  }

  /** Quotient and remainder are determined by their defining equation. */
  lemma ModUnique(x: int, q: int, r: int, m: int)
    requires 0 <= r < m && x == m * q + r
    ensures x / m == q && x % m == r
  {
    var d := x / m - q;
    assert x == m * (x / m) + x % m;
    assert m * d == r - x % m by {
      assert m * d == m * (x / m) - m * q;
    }
    assert d >= 1 ==> m * d >= m;
    assert d <= -1 ==> m * d <= -m;
  }

  lemma DivBounds(x: int, d: int)
    requires d > 0
    ensures (x / d) * d <= x < (x / d + 1) * d
    ensures x == (x / d) * d + x % d
  {
    Plus1(x / d, d);
  }

  lemma QuotientAtLeast(t: int, d: int, x: int)
    requires d > 0 && t * d <= x
    ensures t <= x / d
  {
    DivBounds(x, d);
    CancelLt(t, x / d + 1, d);
  }

  lemma QuotientBelow(m: int, d: int, x: int)
    requires d > 0 && x < m * d
    ensures x / d < m
  {
    DivBounds(x, d);
    CancelLt(x / d, m, d);
  }

  /** A number below its place value has nothing above it. */
  lemma NoHigh(low: nat, w: nat, high: nat)
    requires low + w * high < w
    ensures high == 0 && w * high == 0
  {
    if high > 0 {
      MulMono(1, high, w);
    }
  }

  lemma DivDiv(x: nat, a: nat, b: nat)
    requires a >= 1 && b >= 1
    ensures a * b >= 1 && (x / a) / b == x / (a * b)
  {
    var q := x / a;
    DivBounds(x, a);
    DivBounds(q, b);
    var r := a * (q % b) + x % a;
    assert x == (a * b) * (q / b) + r by {
      assert a * (b * (q / b)) == (a * b) * (q / b);
      Distribute(a, b * (q / b), q % b);
    }
    MulMono(1, a, b);
    MulMono(q % b + 1, b, a);
    Plus1(q % b, a);
    ModUnique(x, q / b, r, a * b);
  }

  function Power(b: int, e: nat): (p: int)
    ensures b >= 1 ==> p >= 1
  {
    if e == 0 then 1 else b * Power(b, e - 1)
  }

  lemma PowerAdd(b: int, d: nat, e: nat)
    ensures Power(b, d + e) == Power(b, d) * Power(b, e)
  {
    if d > 0 {
      PowerAdd(b, d - 1, e);
      Assoc(b, Power(b, d - 1), Power(b, e));
    }
  }
}
