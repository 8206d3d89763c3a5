/** Powers of two and the bitwise operators of C, on naturals. */
module Bits {
  import opened Arith

  function Pow2(n: nat): (r: nat)
    ensures r >= 1
  {
    if n == 0 then 1 else 2 * Pow2(n - 1)
  }

  function Bit(x: nat, j: nat): (b: nat)
    ensures b <= 1
  {
    (x / Pow2(j)) % 2
  }

  /** x >> k. */
  function Shr(x: nat, k: nat): nat {
    QuotientAtLeast(0, Pow2(k), x);
    x / Pow2(k)
  }

  function Or(a: nat, b: nat): nat
    decreases a + b
  {
    if a == 0 then b else if b == 0 then a
    else (if a % 2 == 1 || b % 2 == 1 then 1 else 0) + 2 * Or(a / 2, b / 2)
  }

  function And(a: nat, b: nat): nat
    decreases a + b
  {
    if a == 0 || b == 0 then 0
    else (if a % 2 == 1 && b % 2 == 1 then 1 else 0) + 2 * And(a / 2, b / 2)
  }

  function Xor(a: nat, b: nat): nat
    decreases a + b
  {
    if a == 0 then b else if b == 0 then a
    else (if a % 2 != b % 2 then 1 else 0) + 2 * Xor(a / 2, b / 2)
  }

  lemma Pow2Add(a: nat, b: nat)
    ensures Pow2(a + b) == Pow2(a) * Pow2(b)
  {
    if a > 0 {
      Pow2Add(a - 1, b);
      Assoc(2, Pow2(a - 1), Pow2(b));
    }
  }

  lemma Pow2Mono(a: nat, b: nat)
    requires a <= b
    ensures Pow2(a) <= Pow2(b)
    ensures a < b ==> Pow2(a) < Pow2(b)
  {
    if a < b {
      Pow2Mono(a, b - 1);
    }
  }

  /** Filling free low bits: `|` is then addition. */
  lemma {:induction false} OrIsAdd(high: nat, low: nat, k: nat, word: nat)
    requires low < Pow2(k) && word == high * Pow2(k)
    ensures Or(word, low) == word + low
    ensures Or(low, word) == word + low
  {
    if high > 0 && low > 0 {
      var q := high * Pow2(k - 1);
      assert word == 2 * q;
      OrIsAdd(high, low / 2, k - 1, q);
    }
  }

  /** Masking with `2^k - 1` is the remainder. */
  lemma {:induction false} AndMask(a: nat, k: nat)
    ensures And(a, Pow2(k) - 1) == a % Pow2(k)
  {
    if k == 0 {
      ModUnique(a, a, 0, 1);
    } else if a == 0 {
      ModUnique(0, 0, 0, Pow2(k));
    } else {
      AndMask(a / 2, k - 1);
      MaskStep(a, Pow2(k - 1), Pow2(k));
    }
  }

  lemma MaskStep(a: nat, h: nat, w: nat)
    requires h >= 1 && w == 2 * h && And(a / 2, h - 1) == (a / 2) % h
    ensures And(a, w - 1) == a % w
  {
    AndOdd(a, h);
    HalfMod(a, h);
  }

  lemma AndOdd(a: nat, h: nat)
    requires h >= 1
    ensures And(a, 2 * h - 1) == a % 2 + 2 * And(a / 2, h - 1)
  {
    assert (2 * h - 1) % 2 == 1 && (2 * h - 1) / 2 == h - 1;
  }

  lemma HalfMod(a: nat, h: nat)
    requires h >= 1
    ensures a % (2 * h) == 2 * ((a / 2) % h) + a % 2
    ensures a / (2 * h) == (a / 2) / h
  {
    var q, r := (a / 2) / h, (a / 2) % h;
    assert a / 2 == h * q + r;
    assert a == (2 * h) * q + (2 * r + a % 2) by {
      assert (2 * h) * q == 2 * (h * q);
    }
    ModUnique(a, q, 2 * r + a % 2, 2 * h);
  }

  // ----- the bitwise operators one bit at a time

  lemma AndStep(a: nat, b: nat)
    ensures And(a, b) % 2 == (if a % 2 == 1 && b % 2 == 1 then 1 else 0) && And(a, b) / 2 == And(a / 2, b / 2)
  {
    ModUnique(And(a, b), And(a / 2, b / 2), if a % 2 == 1 && b % 2 == 1 then 1 else 0, 2);
  }

  lemma XorStep(a: nat, b: nat)
    ensures Xor(a, b) % 2 == (if a % 2 != b % 2 then 1 else 0) && Xor(a, b) / 2 == Xor(a / 2, b / 2)
  {
    ModUnique(Xor(a, b), Xor(a / 2, b / 2), if a % 2 != b % 2 then 1 else 0, 2);
  }

  lemma OrStep(a: nat, b: nat)
    ensures Or(a, b) % 2 == (if a % 2 == 1 || b % 2 == 1 then 1 else 0) && Or(a, b) / 2 == Or(a / 2, b / 2)
  {
    ModUnique(Or(a, b), Or(a / 2, b / 2), if a % 2 == 1 || b % 2 == 1 then 1 else 0, 2);
  }

  lemma NextBit(x: nat, j: nat)
    requires j > 0
    ensures Bit(x, j) == Bit(x / 2, j - 1)
  {
    DivDiv(x, 2, Pow2(j - 1));
  }

  /** Bit by bit, the operators are those of the truth tables. */
  lemma {:induction false} BitwiseIs(a: nat, b: nat, j: nat)
    ensures Bit(And(a, b), j) == Bit(a, j) * Bit(b, j)
    ensures Bit(Or(a, b), j) == if Bit(a, j) + Bit(b, j) > 0 then 1 else 0
    ensures Bit(Xor(a, b), j) == if Bit(a, j) != Bit(b, j) then 1 else 0
    decreases j
  {
    AndStep(a, b);
    OrStep(a, b);
    XorStep(a, b);
    if j == 0 {
      LowestBits(a, b);
    } else {
      BitwiseIs(a / 2, b / 2, j - 1);
      NextBit(a, j);
      NextBit(b, j);
      NextBit(And(a, b), j);
      NextBit(Or(a, b), j);
      NextBit(Xor(a, b), j);
    }
  }

  lemma LowestBits(a: nat, b: nat)
    ensures Bit(a, 0) == a % 2 && Bit(b, 0) == b % 2
    ensures Bit(And(a, b), 0) == And(a, b) % 2 && Bit(Or(a, b), 0) == Or(a, b) % 2 && Bit(Xor(a, b), 0) == Xor(a, b) % 2
  {
    assert Pow2(0) == 1;
  }

  /** Disjoint numbers: `|` and `^` agree. */
  lemma {:induction false} OrIsXor(a: nat, b: nat)
    requires And(a, b) == 0
    ensures Or(a, b) == Xor(a, b)
    decreases a + b
  {
    if a > 0 && b > 0 {
      AndStep(a, b);
      OrIsXor(a / 2, b / 2);
    }
  }

  lemma {:induction false} BitsBound(a: nat, b: nat, k: nat)
    requires a < Pow2(k) && b < Pow2(k)
    ensures And(a, b) < Pow2(k) && Or(a, b) < Pow2(k) && Xor(a, b) < Pow2(k)
    decreases k
  {
    if a > 0 && b > 0 {
      BitsBound(a / 2, b / 2, k - 1);
    }
  }
}
