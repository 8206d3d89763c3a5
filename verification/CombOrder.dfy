/**
 When the comb multiplication succeeds: for every point of exact odd order N once the teeth are far enough
 apart, which they are for every curve that is shipped; and two small groups in which it does not.
 */
module CombOrder {
  import opened Arith
  import opened Limbs
  import opened Bits
  import opened Mpis
  import opened MpiShift
  import opened Divisors
  import opened ByteStrings
  import opened CombRecoding
  import opened PointGroup
  import opened CombTable
  import opened CombMul

  // ----- the slots of a wide comb lie below the order

  /** A digit of w teeth stands for less than twice the weight of its top tooth. */
  lemma {:induction false} CombBelow(x: nat, w: nat, d: nat)
    requires 1 <= w && x < Pow2(w) && d >= 1
    ensures Comb(x, d) < 2 * Pow2(d * (w - 1))
    decreases w
  {
    if w == 1 {
      OneTooth(x, d);
    } else {
      var q := Pow2(d * (w - 2));
      CombStep(x, d);
      HalfBelow(x, w);
      CombBelow(x / 2, w - 1, d);
      Pow2Step(d, w - 2);
      Pow2Mono(1, d);
      BelowTwice(Pow2(d), Comb(x / 2, d), q, x % 2);
    }
  }

  lemma OneTooth(x: nat, d: nat)
    requires x < Pow2(1)
    ensures Comb(x, d) < 2 * Pow2(d * 0)
  {
    assert Pow2(1) == 2 && Pow2(0) == 1 && d * 0 == 0;
    CombStep(x, d);
    assert Comb(0, d) == 0 && Pow2(d) * 0 == 0;
  }

  lemma HalfBelow(x: nat, w: nat)
    requires w >= 1 && x < Pow2(w)
    ensures x / 2 < Pow2(w - 1)
  {
  }

  lemma BelowTwice(p: int, c: int, q: int, b: int)
    requires p >= 2 && c < 2 * q && b <= 1
    ensures b + p * c < 2 * (p * q)
  {
    MulMono(c, 2 * q - 1, p);
    Distribute(p, 2 * q, -1);
    Rotate(2, p, q);
  }

  /** With d > w the weight of a slot stays below 2^(nbits - 1). */
  lemma SlotBelow(k: nat, nbits: nat, w: nat, d: nat)
    requires w >= 2 && d >= w + 1 && (d - 1) * w < nbits && k < Pow2(w - 1)
    ensures 0 < Slot(k, d) < Pow2(nbits - 1)
  {
    SlotPositive(k, d);
    CombBelow(2 * k + 1, w, d);
    var n := d * (w - 1);
    assert n + 1 <= nbits - 1 by {
      assert (d - 1) * w == d * w - w && n == d * w - d;
    }
    MulMono(0, d, w - 1);
    Pow2Mono(n + 1, nbits - 1);
    assert Pow2(n + 1) == 2 * Pow2(n);
  }

  lemma SlotPositive(k: nat, d: nat)
    ensures 0 < Slot(k, d)
  {
    ModUnique(2 * k + 1, k, 1, 2);
    CombStep(2 * k + 1, d);
    MulMono(0, Pow2(d), Comb(k, d));
  }

  /** No entry is neutral for a point of exact order n of nbits bits. */
  lemma CleanForExactOrder<G(!new)>(g: Group<G>, P: G, n: nat, w: nat, d: nat)
    requires w >= 2 && d >= w + 1 && (d - 1) * w < NumBits(n) && ExactOrder(g, P, n)
    ensures NoNeutral(g, P, d, Pow2(w - 1))
  {
    NumBitsBounds(n);
    forall k | 0 < k < Pow2(w - 1)
      ensures Entry(g, k, P, d) != g.zero
    {
      SlotBelow(k, NumBits(n), w, d);
    }
  }

  /** From 50 bits on every choice of teeth is far enough apart. */
  lemma WideEnough(nbits: nat, isGenerator: bool, window: nat)
    requires 2 <= window <= 7 && nbits >= 50
    ensures var w := Teeth(nbits, isGenerator, window); Spacing(nbits, w) >= w + 1
  {
    var w := Teeth(nbits, isGenerator, window);
    MulMono(w, 7, w);
    MulMono(w, 7, 7);
    CancelLt(w, Spacing(nbits, w), w);
  }

  // ----- what the multiplication returns

  /** The loop sees no more of the table than the slots its digits name. */
  lemma {:induction false} TableCut<G>(g: Group<G>, T: seq<G>, n: nat, x: seq<Byte>, i: nat)
    requires n <= |T| && i < |x| && forall k :: 0 <= k < |x| ==> InTable(x[k], n)
    ensures forall k :: 0 <= k < |x| ==> InTable(x[k], |T|)
    ensures Horner(g, T, x, i) == Horner(g, T[..n], x, i)
    decreases |x| - i
  {
    assert T[..n][Size(x[i]) / 2] == T[Size(x[i]) / 2];
    if i + 1 < |x| {
      TableCut(g, T, n, x, i + 1);
    }
  }

  /** A neutral slot next to a point of exact order n: n is at most the value of that slot. */
  lemma NeutralSlot<G>(g: Group<G>, P: G, d: nat, n: nat)
    requires ExactOrder(g, P, n) && !NoNeutral(g, P, d, 2)
    ensures n <= 1 + Pow2(d)
  {
    var k :| 0 < k < 2 && Entry(g, k, P, d) == g.zero;
    assert Slot(1, d) == 1 + Pow2(d) by {
      SlotAbove(0, 0, d);
      SlotZero(d);
      assert Pow2(0) == 1 && d * 1 == d;
    }
  }

  lemma OddBelow(M: nat, n: nat, d: nat)
    requires M % 2 == 1 && M < n <= 1 + Pow2(d) && d >= 1
    ensures M < Pow2(d)
  {
  }

  /** The digits with one tooth, which a table of two slots with a neutral one is only ever asked for. */
  lemma OneToothIsMul<G(!new)>(g: Group<G>, P: G, d: nat, x: seq<Byte>)
    requires Abelian(g) && P != g.zero && AllGood(x, 1) && |x| > 0 && !Passes(g, x, 0, P, d)
    ensures forall k :: 0 <= k < |x| ==> InTable(x[k], 2)
    ensures Horner(g, FullTable(g, 2, P, d), x, 0) == Mul(g, SignedSum(x, d), P)
  {
    DigitsInTable(x, 1);
    assert Pow2(0) == 1;
    assert FullTable(g, 2, P, d)[..1] == FullTable(g, 1, P, d);
    TableCut(g, FullTable(g, 2, P, d), 1, x, 0);
    CombCoreIsMul(g, FullTable(g, 1, P, d), x, P, d, 1);
  }

  /** The loop on any recoding of an odd M below n that the code can produce. */
  lemma LoopIsMul<G(!new)>(g: Group<G>, P: G, n: nat, w: nat, d: nat, x: seq<Byte>, M: nat)
    requires Abelian(g) && ExactOrder(g, P, n) && n % 2 == 1 && P != g.zero && 2 <= w <= 7 && d >= 1
    requires M % 2 == 1 && M < n && |x| == d + 1 && AllGood(x, w) && SignedSum(x, d) == M
    requires (M < Pow2(d) ==> AllGood(x, 1)) && forall k :: 0 <= k < |x| ==> 1 <= HighSum(x, k, d) < n
    requires w == 2 || NoNeutral(g, P, d, Pow2(w - 1))
    ensures forall k :: 0 <= k < |x| ==> InTable(x[k], Pow2(w - 1))
    ensures Horner(g, FullTable(g, Pow2(w - 1), P, d), x, 0) == Mul(g, M, P)
  {
    NeverPasses(g, x, P, d, n);
    if NoNeutral(g, P, d, Pow2(w - 1)) {
      CombCoreIsMul(g, FullTable(g, Pow2(w - 1), P, d), x, P, d, w);
    } else {
      assert Pow2(w - 1) == 2;
      NeutralSlot(g, P, d, n);
      OddBelow(M, n, d);
      OneToothIsMul(g, P, d, x);
    }
  }

  lemma AtLeastOne(n: nat, w: nat)
    requires n > 0 && w > 0
    ensures Spacing(NumBits(n), w) >= 1
  {
    if Spacing(NumBits(n), w) <= 0 {
      MulMono(Spacing(NumBits(n), w), 0, w);
    }
  }

  lemma OddOrComplement(n: int, m: int, M: int)
    requires n % 2 == 1 && 1 <= m < n && M == if m % 2 == 1 then m else n - m
    ensures M % 2 == 1 && 1 <= M < n
  {
  }

  /** For a point of exact odd order N whatever the code returns is m * P, neutral slot or not. */
  lemma ExactOrderResult<G(!new)>(grp: EcpGroup<G>, m: nat, P: G, x: seq<Byte>)
    requires grp.Valid() && Val(grp.N.p) % 2 == 1 && ExactOrder(grp.ops, P, Val(grp.N.p)) && 1 <= m < Val(grp.N.p)
    requires grp.Recodes(x, m, P) && (grp.TeethOf(P) == 2 || grp.CleanTable(P))
    ensures grp.Outcome(x, m, P) == Mul(grp.ops, m, P)
  {
    MulOne(grp.ops, P);
    AtLeastOne(Val(grp.N.p), grp.TeethOf(P));
    OddOrComplement(Val(grp.N.p), m, grp.Odd(m));
    LoopIsMul(grp.ops, P, Val(grp.N.p), grp.TeethOf(P), grp.SpacingOf(P), x, grp.Odd(m));
    FixUp(grp.ops, Val(grp.N.p), m, grp.Odd(m), m % 2 == 1, P);
  }

  /** A point of exact odd order N: success gives m * P, and wide enough teeth give success. */
  method MulExactOrder<G(==,!new)>(grp: EcpGroup<G>, m: Mpi, P: G) returns (ret: EcpStatus, R: G)
    requires grp.Valid() && Val(grp.N.p) % 2 == 1 && ExactOrder(grp.ops, P, Val(grp.N.p))
    modifies grp`T
    ensures grp.Valid()
    ensures ret == EcpOk ==> P != grp.ops.zero && 1 <= m.Value() < Val(grp.N.p) && R == Mul(grp.ops, m.Value(), P)
    ensures P != grp.ops.zero && 1 <= m.Value() < Val(grp.N.p) && grp.SpacingOf(P) >= grp.TeethOf(P) + 1 ==>
              ret == EcpOk
  {
    if grp.SpacingOf(P) >= grp.TeethOf(P) + 1 {
      CleanForExactOrder(grp.ops, P, Val(grp.N.p), grp.TeethOf(P), grp.SpacingOf(P));
    }
    ghost var x;
    ret, R, x := grp.EcpMul(m, P);
    if ret == EcpOk {
      ExactOrderResult(grp, m.Value(), P, x);
    }
  }

  /** A curve group of prime order of at least 50 bits: every point but the neutral one is multiplied. */
  method MulOnCurve<G(==,!new)>(grp: EcpGroup<G>, m: Mpi, P: G) returns (ret: EcpStatus, R: G)
    requires grp.Valid() && Prime(Val(grp.N.p)) && grp.nbits >= 50 && Mul(grp.ops, Val(grp.N.p), P) == grp.ops.zero
    modifies grp`T
    ensures grp.Valid()
    ensures ret == EcpOk <==> P != grp.ops.zero && 1 <= m.Value() < Val(grp.N.p)
    ensures ret == EcpOk ==> R == Mul(grp.ops, m.Value(), P)
  {
    PrimeIsOdd(Val(grp.N.p), grp.nbits);
    if P == grp.ops.zero {
      ghost var x;
      ret, R, x := grp.EcpMul(m, P);
      return;
    }
    PrimeOrder(grp.ops, P, Val(grp.N.p));
    WideEnough(grp.nbits, grp.fixedPoint && P == grp.base, grp.window);
    ret, R := MulExactOrder(grp, m, P);
  }

  lemma PrimeIsOdd(n: nat, nbits: nat)
    requires Prime(n) && nbits == NumBits(n) && nbits >= 50
    ensures n % 2 == 1
  {
    NumBitsBounds(n);
    Pow2Mono(2, nbits - 1);
    assert Pow2(2) == 4;
    assert n % 2 == 0 ==> Divides(2, n);
  }

  // ----- small orders

  lemma SmallCombs()
    ensures Slot(1, 2) == 5 && Slot(2, 2) == 17
  {
    assert Pow2(2) == 4;
    CombStep(1, 2);
    CombStep(3, 2);
    CombStep(2, 2);
    CombStep(5, 2);
    assert Comb(0, 2) == 0;
  }

  /** Order 17: four teeth two bits apart, and slot 2 stands for 17 * P, so the build is refused for every scalar. */
  lemma Order17Refused<G(!new)>(g: Group<G>, P: G)
    requires Abelian(g) && Mul(g, 17, P) == g.zero
    ensures NumBits(17) == 5 && Teeth(5, false, 7) == 4 && Spacing(5, 4) == 2
    ensures !NoNeutral(g, P, 2, Pow2(3)) && !Accepts(g, P, 4, 2)
  {
    SmallCombs();
    NumBitsIs(17, 5);
    assert Pow2(3) == 8 && Pow2(4) == 16 && Pow2(5) == 32;
    assert Entry(g, 2, P, 2) == g.zero;
  }

  /** Neither the misread neutral slot nor its double is a multiple of P. */
  ghost predicate Foreign<G>(g: Group<G>, P: G) {
    forall n :: Mul(g, n, P) != g.misread && Mul(g, n, P) != g.add(g.misread, g.misread)
  }

  /**
   Order 15 and a point of order 5: two teeth two bits apart, and slot 1 stands for 5 * P.  The lone-point
   normalisation accepts it, its X and Y are read as some point, and every recoding of 9 uses it: the answer
   is not 9 * P although the status says it is.
   */
  lemma Order15Wrong<G(!new)>(g: Group<G>, P: G, x: seq<Byte>)
    requires Abelian(g) && ExactOrder(g, P, 5) && Foreign(g, P)
    requires |x| == 3 && AllGood(x, 2) && SignedSum(x, 2) == 9
    ensures NumBits(15) == 4 && Teeth(4, false, 7) == 2 && Spacing(4, 2) == 2 && Mul(g, 15, P) == g.zero
    ensures Accepts(g, P, 2, 2) && IsTable(g, [P, g.zero], P, 2)
    ensures (forall k :: 0 <= k < 3 ==> InTable(x[k], 2)) && Horner(g, [P, g.zero], x, 0) != Mul(g, 9, P)
  {
    SmallCombs();
    NumBitsIs(15, 4);
    assert Pow2(3) == 8 && Pow2(4) == 16;
    MulKilled(g, 3, 5, P);
    FirstValues(g, P, 2);
    assert Entry(g, 1, P, 2) == g.zero;
    DigitsInTable(x, 2);
    assert Pow2(1) == 2;
    TwoRecodings(x);
    if x == [0x83, 3, 1] {
      FirstRecoding(g, P, x);
    } else {
      SecondRecoding(g, P, x);
    }
  }

  // A group that meets these assumptions: the multiples of (1, 1) on y^2 = x^3 + 2x + 9 over the field of 11
  // elements, counted modulo 15.

  type Residue15 = x: int | 0 <= x < 15

  function Plus15(a: Residue15, b: Residue15): Residue15 {
    if a + b < 15 then a + b else a + b - 15
  }

  function Minus15(a: Residue15): Residue15 {
    if a == 0 then 0 else 15 - a
  }

  function Cyclic15(): Group<Residue15> {
    Group(0, Plus15, Minus15, 1)
  }

  lemma Cyclic15Laws()
    ensures Abelian(Cyclic15())
  {
    forall a: Residue15, b: Residue15, c: Residue15
      ensures Law(Cyclic15(), a, b, c)
    {
      Laws15(a, b, c);
    }
  }

  lemma Laws15(a: Residue15, b: Residue15, c: Residue15)
    ensures Plus15(a, 0) == a && Plus15(a, Minus15(a)) == 0 && Plus15(a, b) == Plus15(b, a)
    ensures Plus15(Plus15(a, b), c) == Plus15(a, Plus15(b, c))
  {
  }

  /** The multiples of 3 repeat after five. */
  lemma {:induction false} Times15(n: nat)
    ensures Times(Cyclic15(), n, 3) == 3 * (n % 5)
  {
    if n > 0 {
      Times15(n - 1);
      NextOfFive(n - 1);
    }
  }

  lemma NextOfFive(n: nat)
    ensures (n + 1) % 5 == if n % 5 == 4 then 0 else n % 5 + 1
  {
    ModUnique(n + 1, n / 5 + if n % 5 == 4 then 1 else 0, if n % 5 == 4 then 0 else n % 5 + 1, 5);
  }

  lemma Mul15(n: int)
    ensures Mul(Cyclic15(), n, 3) in {0, 3, 6, 9, 12}
  {
    Times15(if n >= 0 then n else -n);
  }

  /** Three times a point of order 15: it has order 5, and neither that point nor its double is a multiple of it. */
  lemma Order15Group()
    ensures Abelian(Cyclic15()) && ExactOrder(Cyclic15(), 3, 5) && Foreign(Cyclic15(), 3)
  {
    Cyclic15Laws();
    Order5();
    forall n: int
      ensures Mul(Cyclic15(), n, 3) != 1 && Mul(Cyclic15(), n, 3) != 2
    {
      Mul15(n);
    }
    assert Plus15(1, 1) == 2;
  }

  lemma Order5()
    ensures ExactOrder(Cyclic15(), 3, 5)
  {
    Times15(5);
    forall k | 0 < k < 5
      ensures Mul(Cyclic15(), k, 3) != 0
    {
      Times15(k);
    }
  }

  lemma SmallDigit(x: Byte)
    requires GoodDigit(x, 2)
    ensures x == 1 || x == 3 || x == 0x81 || x == 0x83
    ensures DigitValue(x, 2) == if x == 1 then 1 else if x == 3 then 5 else if x == 0x81 then -1 else -5
  {
    SmallCombs();
    assert Pow2(2) == 4;
    CombStep(1, 2);
    assert Comb(0, 2) == 0;
  }

  lemma TwoRecodings(x: seq<Byte>)
    requires |x| == 3 && AllGood(x, 2) && SignedSum(x, 2) == 9
    ensures x == [0x83, 3, 1] || x == [0x81, 0x83, 3]
  {
    assert GoodDigit(x[0], 2) && GoodDigit(x[1], 2) && GoodDigit(x[2], 2);
    SmallDigit(x[0]);
    SmallDigit(x[1]);
    SmallDigit(x[2]);
    SignedSnoc(x, 0, 2);
    SignedSnoc(x, 1, 2);
    SignedSnoc(x, 2, 2);
    assert x[..0] == [] && x[..3] == x;
    assert Pow2(0) == 1 && Pow2(1) == 2 && Pow2(2) == 4;
    assert x == [x[0], x[1], x[2]];
  }

  /** 2 (2P + u) - u is not 9P. */
  lemma FirstRecoding<G(!new)>(g: Group<G>, P: G, x: seq<Byte>)
    requires Abelian(g) && ExactOrder(g, P, 5) && Foreign(g, P) && x == [0x83, 3, 1]
    ensures Horner(g, [P, g.zero], x, 0) != Mul(g, 9, P)
  {
    var T, u := [P, g.zero], g.misread;
    MulOne(g, P);
    MulDouble(g, 1, P);
    assert Mul(g, 2, P) != g.zero && P != g.zero;
    assert Horner(g, T, x, 2) == P;
    var h := g.add(Mul(g, 2, P), u);
    assert Horner(g, T, x, 1) == h;
    DoubleSum(g, Mul(g, 2, P), u);
    MulDouble(g, 2, P);
    var dd := g.add(h, h);
    assert dd == g.add(Mul(g, 4, P), g.add(u, u));
    NotMultiple(g, 4, 0, g.add(u, u), P);
    var r := g.add(dd, g.neg(u));
    assert Horner(g, T, x, 0) == r;
    assert Law(g, Mul(g, 4, P), g.add(u, u), g.neg(u)) && Law(g, u, u, g.neg(u)) && Law(g, u, g.zero, u);
    assert r == g.add(Mul(g, 4, P), u);
    NotMultiple(g, 4, 9, u, P);
  }

  /** 2 u - P is not 9P. */
  lemma SecondRecoding<G(!new)>(g: Group<G>, P: G, x: seq<Byte>)
    requires Abelian(g) && ExactOrder(g, P, 5) && Foreign(g, P) && x == [0x81, 0x83, 3]
    ensures Horner(g, [P, g.zero], x, 0) != Mul(g, 9, P)
  {
    var T, u := [P, g.zero], g.misread;
    var uu := g.add(u, u);
    assert Mul(g, 0, P) == g.zero;
    assert uu != g.zero;
    MulOne(g, P);
    assert Mul(g, 1, P) != g.zero;
    assert Horner(g, T, x, 2) == u;
    assert Law(g, u, u, g.neg(u)) && Law(g, u, g.zero, u);
    assert Horner(g, T, x, 1) == g.add(uu, g.neg(u)) == u;
    MulNeg(g, 1, P);
    assert Horner(g, T, x, 0) == g.add(uu, Mul(g, -1, P));
    assert Law(g, uu, Mul(g, -1, P), uu);
    NotMultiple(g, -1, 9, uu, P);
  }

  lemma DoubleSum<G(!new)>(g: Group<G>, a: G, b: G)
    requires Abelian(g)
    ensures g.add(g.add(a, b), g.add(a, b)) == g.add(g.add(a, a), g.add(b, b))
  {
    var s := g.add(a, b);
    assert Law(g, a, b, s) && Law(g, b, s, s) && Law(g, a, b, b) && Law(g, a, a, g.add(b, b));
    assert Law(g, a, g.add(b, b), b);
  }

  /** A point that is no multiple of P stays none when a multiple is added. */
  lemma NotMultiple<G(!new)>(g: Group<G>, a: int, b: int, t: G, P: G)
    requires Abelian(g) && Mul(g, b - a, P) != t
    ensures g.add(Mul(g, a, P), t) != Mul(g, b, P)
  {
    MulAdd(g, b - a, a, P);
    assert Law(g, Mul(g, a, P), t, t);
    if g.add(Mul(g, a, P), t) == Mul(g, b, P) {
      Cancel(g, t, Mul(g, b - a, P), Mul(g, a, P));
    }
  }
}
