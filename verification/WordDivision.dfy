/** Two-word by one-word division (mbedtls_int_div_int), the half-word variant after Knuth. */
module WordDivision {
  import opened Arith
  import opened Limbs
  import opened Bits
  import opened MpiShift

  const HALF: nat := 0x1_0000_0000

  /** `t` is the digit floor(U / d), said without dividing. */
  ghost predicate Digit(U: nat, d: nat, t: nat) {
    t * d <= U < (t + 1) * d
  }

  lemma DigitIsQuotient(U: nat, d: nat, t: nat)
    requires d > 0
    ensures Digit(U, d, t) <==> t == U / d
  {
    DivBounds(U, d);
    if Digit(U, d, t) {
      Plus1(t, d);
      ModUnique(U, t, U - t * d, d);
    }
  }

  lemma DigitUpper(U: nat, d: nat, t: nat, q: nat)
    requires Digit(U, d, t)
    ensures q * d > U ==> t < q
    ensures q * d <= U ==> q <= t
  {
    if q * d > U {
      CancelLt(t, q, d);
    } else {
      CancelLt(q, t + 1, d);
    }
  }

  /** Estimate q of the half-word digit t, never below it, with its partial remainder. */
  ghost predicate Estimate(u: nat, next: nat, d1: nat, d0: nat, t: nat, q: int, r0: int) {
    && next < HALF && d0 < HALF && HALF <= 2 * d1 && u < d1 * HALF + d0
    && Digit(u * HALF + next, d1 * HALF + d0, t)
    && t <= q <= HALF + 1
    && r0 == u - d1 * q && r0 >= 0
  }

  lemma FirstEstimate(u: nat, next: nat, d1: nat, d0: nat, t: nat, q: nat, r0: nat)
    requires next < HALF && d0 < HALF && HALF <= 2 * d1 && u < d1 * HALF + d0
    requires Digit(u * HALF + next, d1 * HALF + d0, t)
    requires u == d1 * q + r0 && r0 < d1
    ensures Estimate(u, next, d1, d0, t, q, r0)
  {
    var d := d1 * HALF + d0;
    assert t * d == (t * d1) * HALF + t * d0;
    MulMono(0, t, d0);
    assert t * d1 <= u;
    Plus1(q, d1);
    CancelLt(t, q + 1, d1);
    CancelLt(q, HALF + 2, d1);
  }

  lemma Expand(u: nat, next: nat, d1: nat, d0: nat, q: nat)
    ensures q * (d1 * HALF + d0) == (d1 * q) * HALF + q * d0
    ensures u * HALF + next == (d1 * q) * HALF + HALF * (u - d1 * q) + next
  {
  }

  lemma Lowered(u: nat, next: nat, d1: nat, d0: nat, t: nat, q: int, r0: int)
    requires Estimate(u, next, d1, d0, t, q, r0)
    requires q >= HALF || q * d0 > HALF * r0 + next
    ensures q >= 1 && Estimate(u, next, d1, d0, t, q - 1, r0 + d1) && q - 1 <= HALF
  {
    var U, d := u * HALF + next, d1 * HALF + d0;
    Plus1(q - 1, d1);
    if q < HALF {
      Expand(u, next, d1, d0, q);
      DigitUpper(U, d, t, q);
    } else {
      DigitUpper(U, d, t, HALF);
    }
  }

  lemma Settled(u: nat, next: nat, d1: nat, d0: nat, t: nat, q: int, r0: int)
    requires Estimate(u, next, d1, d0, t, q, r0)
    requires (r0 >= HALF && q <= HALF) || q * d0 <= HALF * r0 + next
    ensures q == t && q < HALF
  {
    var U, d := u * HALF + next, d1 * HALF + d0;
    Expand(u, next, d1, d0, q);
    if q * d0 > HALF * r0 + next {
      MulMono(q, HALF, d0);
    }
    DigitUpper(U, d, t, q);
    DigitUpper(U, d, t, HALF);
  }

  /** The correction loop: lowers the estimate until it passes or the remainder leaves the half word. */
  method Correct(u: Limb, next: Limb, d1: Limb, d0: Limb, e: Limb, r: Limb, ghost t: nat) returns (q: Limb)
    requires Estimate(u, next, d1, d0, t, e, r) && r < HALF && d1 < HALF
    ensures q == t && q < HALF
  {
    var r0: Limb := r;
    q := e;
    var large := TooLarge(q, d0, r0, next);
    while large
      invariant Estimate(u, next, d1, d0, t, q, r0) && r0 < HALF
      invariant large <==> q >= HALF || q * d0 > HALF * r0 + next
      decreases q
    {
      Lowered(u, next, d1, d0, t, q, r0);
      q := q - 1;
      r0 := r0 + d1;
      if r0 >= HALF {
        Settled(u, next, d1, d0, t, q, r0);
        return;
      }
      large := TooLarge(q, d0, r0, next);
    }
    Settled(u, next, d1, d0, t, q, r0);
  }

  /** The test of the correction loop: every operand fits half a word, so neither side wraps. */
  method TooLarge(q: Limb, d0: Limb, r0: Limb, next: Limb) returns (b: bool)
    requires d0 < HALF && r0 < HALF && next < HALF
    ensures b <==> q >= HALF || q * d0 > HALF * r0 + next
  {
    if q >= HALF {
      return true;
    }
    MulMono(q, HALF - 1, d0);
    MulMono(0, q, d0);
    var left: Limb := q * d0;
    var right: Limb := HALF * r0 + next;
    b := left > right;
  }

  /** C's unsigned quotient, and the remainder obtained by multiplying back. */
  method DivWord(u: Limb, d: Limb) returns (q: Limb, r: Limb)
    requires d > 0
    ensures u == d * q + r && r < d
  {
    DivBounds(u, d);
    MulMono(1, d, u / d);
    q := u / d;
    r := u - d * q;
  }

  /** One half-word digit: floor((u * 2^32 + next) / d), by estimate and correction. */
  method HalfDigit(u: Limb, next: Limb, d: Limb, ghost t: nat) returns (q: Limb)
    requires u < d && next < HALF && BASE <= 2 * d && Digit(u * HALF + next, d, t)
    ensures q == t && q < HALF
  {
    var d1, d0 := d / HALF, d % HALF;
    assert d1 * HALF + d0 == d;
    var e, r0 := DivWord(u, d1);
    FirstEstimate(u, next, d1, d0, t, e, r0);
    q := Correct(u, next, d1, d0, e, r0, t);
  }

  /** Shifting dividend and divisor alike keeps the quotient and scales the remainder. */
  lemma Normalised(U: nat, d: nat, m: nat, q: nat, r: nat)
    requires m > 0 && U * m == (d * m) * q + r && r < d * m
    ensures d > 0 && q == U / d && r == (U % d) * m
  {
    CancelLt(0, d, m);
    Assoc(d, m, q);
    var r' := U - d * q;
    assert r' * m == U * m - (d * q) * m;
    assert (d * q) * m == (d * m) * q;
    CancelLt(r', d, m);
    CancelLt(-1, r', m);
    ModUnique(U, q, r', d);
  }

  /**
   The quotient of (u1, u0) by d, and the remainder.  When d is zero or the quotient does not fit
   one word the answer is all ones, as the source returns.
   */
  method IntDivInt(u1: Limb, u0: Limb, d: Limb) returns (q: Limb, r: Limb)
    ensures d == 0 || u1 >= d ==> q == BASE - 1 && r == BASE - 1
    ensures d != 0 && u1 < d ==> q == (u1 * BASE + u0) / d && r == (u1 * BASE + u0) % d
  {
    if d == 0 || u1 >= d {
      return BASE - 1, BASE - 1;
    }
    var s := Clz(d);
    var nd, n1, n0 := Normalise(u1, u0, d, s);
    var rem;
    q, rem := LongDivide(n1, n0, nd);
    Normalised(u1 * BASE + u0, d, Pow2(s), q, rem);
    DivExact((u1 * BASE + u0) % d, Pow2(s), rem);
    r := rem / Pow2(s);
  }

  lemma DivExact(x: nat, m: nat, y: nat)
    requires m > 0 && y == x * m
    ensures y / m == x
  {
    ModUnique(y, x, 0, m);
  }

  /** A half-word digit with its remainder, the subtraction wrapping as in the source. */
  method DigitStep(u: Limb, next: Limb, d: Limb) returns (q: Limb, r: Limb)
    requires u < d && next < HALF && BASE <= 2 * d
    ensures q < HALF && r < d && u * HALF + next == q * d + r
  {
    ghost var U := u * HALF + next;
    DigitIsQuotient(U, d, U / d);
    q := HalfDigit(u, next, d, U / d);
    Plus1(q, d);
    var t := u * HALF + next - q * d;
    assert 0 <= t < d;
    r := t % BASE;
  }

  /** Two half-word digits of a normalised division. */
  method LongDivide(n1: Limb, n0: Limb, nd: Limb) returns (q: Limb, rem: Limb)
    requires n1 < nd && BASE <= 2 * nd
    ensures n1 * BASE + n0 == nd * q + rem && rem < nd
  {
    var q1, rax := DigitStep(n1, n0 / HALF, nd);
    var q0;
    q0, rem := DigitStep(rax, n0 % HALF, nd);
    q := q1 * HALF + q0;
    Distribute(nd, q1 * HALF, q0);
    Rotate(q1, HALF, nd);
  }

  /** Moves the divisor's top bit to bit 63 and shifts the two-word dividend along. */
  method Normalise(u1: Limb, u0: Limb, d: Limb, s: nat) returns (nd: Limb, n1: Limb, n0: Limb)
    requires 0 < d && u1 < d && s <= BITS && NumBits(d) == BITS - s
    ensures nd == d * Pow2(s) && n1 < nd && BASE <= 2 * nd
    ensures n1 * BASE + n0 == (u1 * BASE + u0) * Pow2(s)
  {
    NumBitsBounds(d);
    NormalisedDivisor(d, s);
    if s == 0 {
      assert Pow2(0) == 1;
      return d, u1, u0;
    }
    var c, c1, c2;
    nd, c := ShlWord(d, 0, s);
    n0, c1 := ShlWord(u0, 0, s);
    n1, c2 := ShlWord(u1, c1, s);
    ghost var m := Pow2(s);
    assert c == 0 && nd == d * m;
    NoOverflow(u1, u0, d, m, c1, n1, c2, n0);
  }

  lemma NormalisedDivisor(d: Limb, s: nat)
    requires 0 < d && s < BITS && Pow2(BITS - s - 1) <= d < Pow2(BITS - s)
    ensures d * Pow2(s) < BASE <= 2 * (d * Pow2(s))
  {
    MulMono(Pow2(BITS - s - 1), d, Pow2(s));
    Dominated(d, Pow2(BITS - s), Pow2(s));
    HalfBase(BITS - s);
    Pow2Add(BITS - s - 1, s);
    HalfBase(1);
  }

  lemma NoOverflow(u1: nat, u0: nat, d: nat, m: nat, c1: nat, n1: nat, c2: nat, n0: nat)
    requires u1 < d && c1 < m && d * m < BASE
    requires n1 + c2 * BASE == u1 * m + c1 && n0 + c1 * BASE == u0 * m
    ensures c2 == 0 && n1 < d * m && n1 * BASE + n0 == (u1 * BASE + u0) * m
  {
    MulMono(u1 + 1, d, m);
    Plus1(u1, m);
    Distribute(m, u1 * BASE, u0);
  }
}
