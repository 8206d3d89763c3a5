/** Binary gcd (HAC 14.54) and modular inverse (HAC 14.61 / 14.64). */
module GcdInverse {
  import opened Arith
  import opened Limbs
  import opened Bits
  import opened Congruence
  import opened Divisors
  import opened Mpis
  import opened MpiShift
  import opened WordDivision
  import opened Division
  import opened Modulo
  import opened ExpMod

  /** Number of trailing zero bits (0 for zero), with the odd part they leave. */
  method Lsb(X: Mpi) returns (r: nat, ghost odd: nat)
    ensures Val(X.p) == 0 ==> r == 0 && odd == 0
    ensures Val(X.p) > 0 ==> odd % 2 == 1 && Bit(Val(X.p), r) == 1 && Val(X.p) % Pow2(r) == 0
    ensures Val(X.p) == odd * Pow2(r)
  {
    var i := 0;
    while i < |X.p|
      invariant 0 <= i <= |X.p| && forall k :: 0 <= k < i ==> X.p[k] == 0
    {
      ghost var q;
      var found, j;
      found, j, q := LimbLsb(X.p[i]);
      if found {
        odd := OddPart(X.p, i, j, q);
        r := i * BITS + j;
        LowestSetBit(Val(X.p), odd, r);
        return r, odd;
      }
      i := i + 1;
    }
    ValZeros(X.p);
    return 0, 0;
  }

  lemma LowestSetBit(v: nat, odd: nat, r: nat)
    requires v == odd * Pow2(r) && odd % 2 == 1
    ensures Bit(v, r) == 1 && v % Pow2(r) == 0
  {
    ModUnique(v, odd, 0, Pow2(r));
  }

  /** The lowest set bit of one limb. */
  method LimbLsb(x: Limb) returns (found: bool, j: nat, ghost q: nat)
    ensures found ==> j < BITS && x == q * Pow2(j) && q % 2 == 1
    ensures !found ==> x == 0
  {
    j, q := 0, x;
    while j < BITS
      invariant 0 <= j <= BITS && x == q * Pow2(j)
    {
      DivExact(q, Pow2(j), x);
      if Bit(x, j) != 0 {
        return true, j, q;
      }
      Regroup(q, j);
      q := q / 2;
      j := j + 1;
    }
    LimbIs64Bits();
    CancelLt(q, 1, BASE);
    found := false;
  }

  lemma Regroup(t: int, k: nat)
    requires t % 2 == 0
    ensures t * Pow2(k) == (t / 2) * Pow2(k + 1)
  {
    Assoc(t / 2, 2, Pow2(k));
  }

  lemma OddPart(p: seq<Limb>, i: nat, j: nat, q: nat) returns (odd: nat)
    requires i < |p| && j < BITS && p[i] == q * Pow2(j) && q % 2 == 1
    requires forall k :: 0 <= k < i ==> p[k] == 0
    ensures odd % 2 == 1 && Val(p) == odd * Pow2(i * BITS + j) && Val(p) > 0
  {
    var rest := Val(p[i..][1..]);
    var h := Pow2(BITS - 1 - j);
    odd := OddSum(q, h, rest);
    LimbsAbove(p, i);
    LimbBitWeight(i, j);
    HalfBase(j);
    OddPartArith(q, Pow2(j), h, rest, Val(p[i..]), Pow(i), odd, Val(p));
  }

  lemma OddSum(q: nat, h: nat, rest: nat) returns (odd: nat)
    requires q % 2 == 1
    ensures odd == q + 2 * (h * rest) && odd % 2 == 1
  {
    MulMono(0, h, rest);
    odd := q + 2 * (h * rest);
    ModUnique(odd, q / 2 + h * rest, 1, 2);
  }

  lemma LimbsAbove(p: seq<Limb>, i: nat)
    requires i < |p| && forall k :: 0 <= k < i ==> p[k] == 0
    ensures Val(p) == Pow(i) * Val(p[i..]) && Val(p[i..]) == p[i] + BASE * Val(p[i..][1..])
  {
    ValSplit(p, i);
    ValZeros(p[..i]);
  }

  lemma LimbBitWeight(i: nat, j: nat)
    ensures Pow2(i * BITS + j) == Pow(i) * Pow2(j)
  {
    PowIsPow2(i);
    Pow2Add(i * BITS, j);
  }

  lemma OddPartArith(q: nat, w: nat, h: nat, rest: nat, high: nat, u: nat, odd: nat, v: nat)
    requires w * (2 * h) == BASE && odd == q + 2 * (h * rest) && v == u * high && high == q * w + BASE * rest
    requires q >= 1 && w >= 1 && u >= 1
    ensures v == odd * (u * w) && v > 0
  {
    Assoc(w, 2 * h, rest);
    Assoc(2, h, rest);
    Distribute(w, q, 2 * (h * rest));
    Rotate(odd, u, w);
    Assoc(odd, u, w);
    MulMono(1, odd, w);
    MulMono(1, u, odd * w);
  }

  /** X without its trailing zero bits. */
  method StripZeros(X: Mpi) returns (ghost odd: nat, ghost r: nat)
    modifies X
    ensures Val(X.p) == odd && old(Val(X.p)) == odd * Pow2(r) && (odd == 0 || odd % 2 == 1)
    ensures X.s == old(X.s) || odd == 0
    ensures |X.p| >= old(|X.p|)
  {
    var n;
    n, odd := Lsb(X);
    DivExact(odd, Pow2(n), Val(X.p));
    ShiftR(X, n);
    r := n;
  }

  /** Every common divisor of one pair is one of the other. */
  ghost predicate SameCommon(a: int, b: int, c: int, d: int) {
    forall k :: Common(k, a, b) <==> Common(k, c, d)
  }

  /** One subtraction of the gcd loop, on odd numbers: the difference is even and is halved. */
  method SubtractHalve(X: Mpi, Y: Mpi)
    requires X != Y && Val(X.p) >= Val(Y.p) && Val(X.p) % 2 == 1
    modifies X
    ensures NonNegative(X)
    ensures Val(X.p) == (old(Val(X.p)) - Val(Y.p)) / 2 < old(Val(X.p))
    ensures |X.p| >= old(|X.p|)
  {
    var _ := X.SubAbs(X, Y);
    assert Pow2(1) == 2;
    ShiftR(X, 1);
  }

  lemma HalvedDifference(x: nat, y: nat)
    requires x >= y && x % 2 == 1 && y % 2 == 1
    ensures SameCommon((x - y) / 2, y, x, y)
  {
    var h := (x - y) / 2;
    assert h * Pow2(1) == x - y;
    forall k
      ensures Common(k, h, y) <==> Common(k, x, y)
    {
      RemoveTwos(k, h, y, 1);
      Subtraction(k, x, y);
    }
  }

  lemma StrippedPair(x: nat, y: nat, x0: nat, y0: nat, r: nat, t: nat)
    requires x0 == x * Pow2(r) && y0 == y * Pow2(t) && x % 2 == 1 && y % 2 == 1
    requires x0 % 2 == 1 || y0 % 2 == 1
    ensures SameCommon(x, y, x0, y0)
  {
    forall k
      ensures Common(k, x, y) <==> Common(k, x0, y0)
    {
      if y0 % 2 == 1 {
        OddPower(y, t, y0);
        RemoveTwos(k, x, y, r);
      } else {
        OddPower(x, r, x0);
        RemoveTwos(k, y, x, t);
      }
    }
  }

  lemma OddPower(y: nat, t: nat, y0: nat)
    requires y0 == y * Pow2(t) && y0 % 2 == 1
    ensures t == 0 && y0 == y
  {
    if t > 0 {
      ParityOfProduct(y, Pow2(t));
    } else {
      assert y * 1 == y;
    }
  }

  lemma SameTrans(a: int, b: int, c: int, d: int, e: int, f: int)
    requires SameCommon(a, b, c, d) && SameCommon(c, d, e, f)
    ensures SameCommon(a, b, e, f)
  {
  }

  /** When one number has become zero the other one divides exactly what the two started with. */
  lemma GcdReached(g: int, a: int, b: int)
    requires g > 0 && SameCommon(0, g, a, b) && b > 0
    ensures IsGcd(g, a, b)
  {
    DividesIntro(g, g, 1);
    DividesIntro(g, 0, 0);
    assert Common(g, 0, g);
    assert Common(g, a, b);
    forall d | Common(d, a, b)
      ensures Divides(d, g)
    {
      assert Common(d, 0, g);
    }
  }

  /** One turn: strip both numbers of twos, subtract the smaller from the larger, halve. */
  method GcdStep(TA: Mpi, TB: Mpi)
    requires TA != TB && TA.s == 1 && NonNegative(TB) && Val(TA.p) > 0
    requires Val(TA.p) % 2 == 1 || Val(TB.p) % 2 == 1 || Val(TB.p) == 0
    modifies TA, TB
    ensures NonNegative(TA) && NonNegative(TB)
    ensures Val(TA.p) + Val(TB.p) < old(Val(TA.p)) + old(Val(TB.p))
    ensures old(Val(TB.p)) == 0 ==> Val(TB.p) == 0
    ensures old(Val(TB.p)) > 0 ==> Val(TB.p) > 0 && (Val(TA.p) % 2 == 1 || Val(TB.p) % 2 == 1)
    ensures old(Val(TB.p)) > 0 ==> SameCommon(Val(TA.p), Val(TB.p), old(Val(TA.p)), old(Val(TB.p)))
  {
    ghost var x0, y0 := Val(TA.p), Val(TB.p);
    StripPair(TA, TB);
    ghost var x, y := Val(TA.p), Val(TB.p);
    var cmp := TA.CmpMpi(TB);
    if cmp >= 0 {
      SubtractHalve(TA, TB);
      if y > 0 {
        Halving(x, y, x0, y0);
      }
    } else {
      SubtractHalve(TB, TA);
      SameSwap(x, y, x0, y0);
      Halving(y, x, y0, x0);
      SameSwap((y - x) / 2, x, y0, x0);
    }
  }

  lemma Halving(x: nat, y: nat, x0: nat, y0: nat)
    requires x >= y && x % 2 == 1 && y % 2 == 1 && SameCommon(x, y, x0, y0)
    ensures SameCommon((x - y) / 2, y, x0, y0)
  {
    HalvedDifference(x, y);
    SameTrans((x - y) / 2, y, x, y, x0, y0);
  }

  /** Both numbers made odd (a zero second one stays zero); their common divisors stay the same. */
  method StripPair(TA: Mpi, TB: Mpi)
    requires TA != TB && TA.s == 1 && NonNegative(TB) && Val(TA.p) > 0
    requires Val(TA.p) % 2 == 1 || Val(TB.p) % 2 == 1 || Val(TB.p) == 0
    modifies TA, TB
    ensures TA.s == 1 && NonNegative(TB)
    ensures Val(TA.p) % 2 == 1 && Val(TA.p) <= old(Val(TA.p)) && Val(TB.p) <= old(Val(TB.p))
    ensures if old(Val(TB.p)) == 0 then Val(TB.p) == 0 else Val(TB.p) % 2 == 1
    ensures old(Val(TB.p)) > 0 ==> SameCommon(Val(TA.p), Val(TB.p), old(Val(TA.p)), old(Val(TB.p)))
  {
    ghost var x, r := StripZeros(TA);
    ghost var y, t := StripZeros(TB);
    CancelZero(x, Pow2(r));
    CancelZero(y, Pow2(t));
    Scale(x, Pow2(r));
    Scale(y, Pow2(t));
    if y > 0 {
      StrippedPair(x, y, x * Pow2(r), y * Pow2(t), r, t);
    }
  }

  lemma SameSwap(a: int, b: int, c: int, d: int)
    requires SameCommon(a, b, c, d)
    ensures SameCommon(b, a, d, c)
  {
    forall k
      ensures Common(k, b, a) <==> Common(k, d, c)
    {
      assert Common(k, a, b) <==> Common(k, c, d);
    }
  }

  /** The reduction loop; with TB zero it only runs TA down to zero. */
  method GcdLoop(TA: Mpi, TB: Mpi)
    requires TA != TB && TA.s == 1 && TB.s == 1
    requires Val(TA.p) % 2 == 1 || Val(TB.p) % 2 == 1 || Val(TA.p) == 0 || Val(TB.p) == 0
    modifies TA, TB
    ensures old(Val(TB.p)) == 0 ==> Val(TB.p) == 0
    ensures old(Val(TB.p)) > 0 ==> IsGcd(Val(TB.p), old(Val(TA.p)), old(Val(TB.p)))
    ensures NonNegative(TB)
  {
    ghost var a, b := Val(TA.p), Val(TB.p);
    var cmp := TA.CmpInt(0);
    while cmp != 0
      invariant NonNegative(TA)
      invariant NonNegative(TB)
      invariant cmp == Cmp(Val(TA.p), 0)
      invariant Val(TA.p) % 2 == 1 || Val(TB.p) % 2 == 1 || Val(TA.p) == 0 || b == 0
      invariant b == 0 ==> Val(TB.p) == 0
      invariant b > 0 ==> Val(TB.p) > 0 && SameCommon(Val(TA.p), Val(TB.p), a, b)
      decreases Val(TA.p) + Val(TB.p)
    {
      ghost var x, y := Val(TA.p), Val(TB.p);
      GcdStep(TA, TB);
      if b > 0 {
        SameTrans(Val(TA.p), Val(TB.p), x, y, a, b);
      }
      cmp := TA.CmpInt(0);
    }
    if b > 0 {
      GcdReached(Val(TB.p), a, b);
    }
  }

  /** Shifts out the twos the two numbers share. */
  method SharedTwos(TA: Mpi, TB: Mpi) returns (lz: nat)
    requires TA != TB
    modifies TA, TB
    ensures old(Val(TA.p)) == Val(TA.p) * Pow2(lz) && old(Val(TB.p)) == Val(TB.p) * Pow2(lz)
    ensures Val(TA.p) % 2 == 1 || Val(TB.p) % 2 == 1 || Val(TA.p) == 0 || Val(TB.p) == 0
  {
    ghost var oa, ob;
    var lzt;
    lz, oa := Lsb(TA);
    lzt, ob := Lsb(TB);
    ghost var la, lb := lz, lzt;
    if lzt < lz {
      lz := lzt;
    }
    PartialShift(Val(TA.p), oa, la, lz);
    PartialShift(Val(TB.p), ob, lb, lz);
    ShiftR(TA, lz);
    ShiftR(TB, lz);
  }

  lemma PartialShift(x: nat, odd: nat, r: nat, k: nat)
    requires x == odd * Pow2(r) && k <= r
    ensures x == (x / Pow2(k)) * Pow2(k)
    ensures k == r ==> x / Pow2(k) == odd
  {
    Pow2Add(r - k, k);
    Assoc(odd, Pow2(r - k), Pow2(k));
    DivExact(odd * Pow2(r - k), Pow2(k), x);
    assert k == r ==> odd * Pow2(r - k) == odd;
  }

  /**
   G = gcd(A, B).  The answer is the gcd exactly when B is nonzero or both are zero: for a nonzero A
   and a zero B the loop runs A down to nothing and the code answers 0.
   */
  method Gcd(G: Mpi, A: Mpi, B: Mpi)
    modifies G
    ensures IsGcd(Val(G.p), old(Val(A.p)), old(Val(B.p))) <==> old(Val(B.p)) != 0 || old(Val(A.p)) == 0
    ensures old(Val(B.p)) == 0 ==> Val(G.p) == 0
    ensures G.Value() == Val(G.p)
  {
    ghost var a, b := Val(A.p), Val(B.p);
    var TA := new Mpi();
    TA.Copy(A);
    var TB := new Mpi();
    TB.Copy(B);
    var lz := SharedTwos(TA, TB);
    ghost var x, y := Val(TA.p), Val(TB.p);
    CancelZero(y, Pow2(lz));
    TA.s := 1;
    TB.s := 1;
    GcdLoop(TA, TB);
    if b > 0 {
      GcdScale(Val(TB.p), x, y, lz);
    }
    ShiftL(TB, lz);
    G.Copy(TB);
    assert b == 0 && a > 0 ==> !IsGcd(0, a, b);
  }

  // ----- modular inverse

  ghost predicate Bezout(u1: int, u2: int, tu: int, a: int, b: int) {
    u1 * a + u2 * b == tu
  }

  /** Halving a Bezout identity: after at most one adjustment both coefficients are even. */
  lemma HalveExact(u1: int, u2: int, tu: int, a: int, b: int)
    requires Bezout(u1, u2, tu, a, b) && tu % 2 == 0 && (a % 2 == 1 || b % 2 == 1)
    ensures u1 % 2 == 1 || u2 % 2 == 1 ==> (u1 + b) % 2 == 0 && (u2 - a) % 2 == 0 && Bezout(u1 + b, u2 - a, tu, a, b)
  {
    Adjusted(u1, u2, a, b);
    if u1 % 2 == 1 || u2 % 2 == 1 {
      ParityOfProduct(u1, a);
      ParityOfProduct(u2, b);
      ParityOfSum(u1 * a, u2 * b);
      ParityOfSum((u1 % 2) * (a % 2), (u2 % 2) * (b % 2));
      EvenSum(u1 % 2, u2 % 2, a % 2, b % 2);
      ParityOfSum(u1, b);
      ParityOfSum(u2 - a, a);
    }
  }

  lemma ParityOfSum(x: int, y: int)
    ensures (x + y) % 2 == 0 <==> x % 2 == y % 2
  {
  }

  lemma Adjusted(u1: int, u2: int, a: int, b: int)
    ensures (u1 + b) * a + (u2 - a) * b == u1 * a + u2 * b
  {
  }

  lemma EvenSum(p: int, q: int, r: int, t: int)
    requires 0 <= p <= 1 && 0 <= q <= 1 && 0 <= r <= 1 && 0 <= t <= 1 && (r == 1 || t == 1)
    requires (p * r + q * t) % 2 == 0 && (p == 1 || q == 1)
    ensures p == t && q == r
  {
    if p == 0 {
      assert p * r == 0 && q * t == t;
    } else if q == 0 {
      assert p * r == r && q * t == 0;
    } else {
      assert p * r == r && q * t == t;
    }
  }

  lemma HalfBezout(u1: int, u2: int, tu: int, a: int, b: int)
    requires Bezout(u1, u2, tu, a, b) && tu % 2 == 0 && u1 % 2 == 0 && u2 % 2 == 0
    ensures Bezout(u1 / 2, u2 / 2, tu / 2, a, b)
  {
    assert (2 * (u1 / 2)) * a == 2 * ((u1 / 2) * a) && (2 * (u2 / 2)) * b == 2 * ((u2 / 2) * b);
  }

  /** Shifting an even number right by one bit halves its value, whatever its sign. */
  method Halve(X: Mpi)
    requires X.Value() % 2 == 0
    modifies X
    ensures X.Value() == old(X.Value()) / 2
    ensures |X.p| >= old(|X.p|)
  {
    assert Pow2(1) == 2;
    ShiftR(X, 1);
  }

  lemma ParityOfValue(X: Mpi)
    requires X.p != []
    ensures X.Value() % 2 == X.p[0] % 2
  {
    OddModulus(X.p);
  }

  /** One turn of the halving loop. */
  method HalveOnce(TU: Mpi, U1: Mpi, U2: Mpi, TA: Mpi, TB: Mpi)
    requires TU != U1 && TU != U2 && U1 != U2 && TA != TU && TA != U1 && TA != U2 && TB != TU && TB != U1 && TB != U2
    requires TU.p != [] && U1.p != [] && U2.p != [] && TA.p != [] && TB.p != []
    requires Bezout(U1.Value(), U2.Value(), TU.Value(), TA.Value(), TB.Value()) && TU.Value() % 2 == 0
    requires TA.Value() % 2 == 1 || TB.Value() % 2 == 1
    modifies TU, U1, U2
    ensures TU.p != [] && U1.p != [] && U2.p != []
    ensures TU.Value() == old(TU.Value()) / 2
    ensures Bezout(U1.Value(), U2.Value(), TU.Value(), TA.Value(), TB.Value())
  {
    ghost var tu, a, b := TU.Value(), TA.Value(), TB.Value();
    HalveExact(U1.Value(), U2.Value(), tu, a, b);
    Halve(TU);
    ParityOfValue(U1);
    ParityOfValue(U2);
    if U1.p[0] % 2 != 0 || U2.p[0] % 2 != 0 {
      U1.AddMpi(U1, TB);
      U2.SubMpi(U2, TA);
    }
    HalfBezout(U1.Value(), U2.Value(), tu, a, b);
    Halve(U1);
    Halve(U2);
  }

  /** Halves TU until it is odd; the identity U1 * TA + U2 * TB = TU survives. */
  method MakeOdd(TU: Mpi, U1: Mpi, U2: Mpi, TA: Mpi, TB: Mpi) returns (ghost k: nat)
    requires TU != U1 && TU != U2 && U1 != U2 && TA != TU && TA != U1 && TA != U2 && TB != TU && TB != U1 && TB != U2
    requires TU.p != [] && U1.p != [] && U2.p != [] && TA.p != [] && TB.p != []
    requires Bezout(U1.Value(), U2.Value(), TU.Value(), TA.Value(), TB.Value()) && TU.Value() > 0
    requires TA.Value() % 2 == 1 || TB.Value() % 2 == 1
    modifies TU, U1, U2
    ensures TU.p != [] && U1.p != [] && U2.p != []
    ensures TU.Value() > 0 && TU.Value() % 2 == 1 && old(TU.Value()) == TU.Value() * Pow2(k)
    ensures Bezout(U1.Value(), U2.Value(), TU.Value(), TA.Value(), TB.Value())
  {
    k := 0;
    ParityOfValue(TU);
    while TU.p[0] % 2 == 0
      invariant TU.p != [] && U1.p != [] && U2.p != []
      invariant TU.Value() > 0 && TU.Value() % 2 == TU.p[0] % 2 && old(TU.Value()) == TU.Value() * Pow2(k)
      invariant Bezout(U1.Value(), U2.Value(), TU.Value(), TA.Value(), TB.Value())
      decreases TU.Value()
    {
      ghost var t := TU.Value();
      HalveOnce(TU, U1, U2, TA, TB);
      Regroup(t, k);
      k := k + 1;
      ParityOfValue(TU);
    }
  }

  /** One of the two triples (T, C1, C2) with C1 * TA + C2 * TB = T. */
  ghost predicate Triple(T: Mpi, C1: Mpi, C2: Mpi, TA: Mpi, TB: Mpi)
    reads T, C1, C2, TA, TB
  {
    && T != C1 && T != C2 && C1 != C2 && TA != T && TA != C1 && TA != C2 && TB != T && TB != C1 && TB != C2
    && T.p != [] && C1.p != [] && C2.p != []
    && Bezout(C1.Value(), C2.Value(), T.Value(), TA.Value(), TB.Value())
  }

  ghost predicate Apart(T: Mpi, C1: Mpi, C2: Mpi, S: Mpi, D1: Mpi, D2: Mpi) {
    && T != S && T != D1 && T != D2 && C1 != S && C1 != D1 && C1 != D2 && C2 != S && C2 != D1 && C2 != D2
  }

  /** The larger triple minus the smaller one. */
  method SubtractTriple(T: Mpi, C1: Mpi, C2: Mpi, S: Mpi, D1: Mpi, D2: Mpi, TA: Mpi, TB: Mpi)
    requires Triple(T, C1, C2, TA, TB) && Triple(S, D1, D2, TA, TB) && Apart(T, C1, C2, S, D1, D2)
    modifies T, C1, C2
    ensures Triple(T, C1, C2, TA, TB) && T.Value() == old(T.Value()) - S.Value()
  {
    Difference(C1.Value(), C2.Value(), T.Value(), D1.Value(), D2.Value(), S.Value(), TA.Value(), TB.Value());
    SubtractFrom(T, S);
    SubtractFrom(C1, D1);
    SubtractFrom(C2, D2);
  }

  method SubtractFrom(X: Mpi, Y: Mpi)
    requires X != Y && X.p != [] && Y.p != []
    modifies X
    ensures X.p != [] && X.Value() == old(X.Value()) - Y.Value()
  {
    X.SubMpi(X, Y);
  }

  lemma Difference(c1: int, c2: int, t: int, d1: int, d2: int, s: int, a: int, b: int)
    requires Bezout(c1, c2, t, a, b) && Bezout(d1, d2, s, a, b)
    ensures Bezout(c1 - d1, c2 - d2, t - s, a, b)
  {
    assert (c1 - d1) * a == c1 * a - d1 * a && (c2 - d2) * b == c2 * b - d2 * b;
  }

  lemma CoprimeStrip(x: int, k: nat, y: int)
    requires Coprime(x * Pow2(k), y)
    ensures Coprime(x, y)
  {
    forall d | Common(d, x, y)
      ensures d == 1
    {
      DividesMultiple(d, x, Pow2(k));
      assert Common(d, x * Pow2(k), y);
    }
  }

  /** One turn of the inversion loop. */
  method InvStep(TU: Mpi, U1: Mpi, U2: Mpi, TV: Mpi, V1: Mpi, V2: Mpi, TA: Mpi, TB: Mpi)
    requires Triple(TU, U1, U2, TA, TB) && Triple(TV, V1, V2, TA, TB) && Apart(TU, U1, U2, TV, V1, V2)
    requires TA.p != [] && TB.p != [] && (TA.Value() % 2 == 1 || TB.Value() % 2 == 1)
    requires TU.Value() > 0 && TV.Value() > 0 && Coprime(TU.Value(), TV.Value())
    modifies TU, U1, U2, TV, V1, V2
    ensures Triple(TU, U1, U2, TA, TB) && Triple(TV, V1, V2, TA, TB)
    ensures TU.Value() >= 0 && TV.Value() > 0 && Coprime(TU.Value(), TV.Value())
    ensures TU.Value() + TV.Value() < old(TU.Value()) + old(TV.Value())
  {
    OddBoth(TU, U1, U2, TV, V1, V2, TA, TB);
    ghost var u, v := TU.Value(), TV.Value();
    var cmp := TU.CmpMpi(TV);
    if cmp >= 0 {
      CoprimeSubtract(u, v);
      SubtractTriple(TU, U1, U2, TV, V1, V2, TA, TB);
    } else {
      CoprimeSym(u, v);
      CoprimeSubtract(v, u);
      CoprimeSym(v - u, u);
      SubtractTriple(TV, V1, V2, TU, U1, U2, TA, TB);
    }
  }

  method OddBoth(TU: Mpi, U1: Mpi, U2: Mpi, TV: Mpi, V1: Mpi, V2: Mpi, TA: Mpi, TB: Mpi)
    requires Triple(TU, U1, U2, TA, TB) && Triple(TV, V1, V2, TA, TB) && Apart(TU, U1, U2, TV, V1, V2)
    requires TA.p != [] && TB.p != [] && (TA.Value() % 2 == 1 || TB.Value() % 2 == 1)
    requires TU.Value() > 0 && TV.Value() > 0 && Coprime(TU.Value(), TV.Value())
    modifies TU, U1, U2, TV, V1, V2
    ensures Triple(TU, U1, U2, TA, TB) && Triple(TV, V1, V2, TA, TB)
    ensures 0 < TU.Value() <= old(TU.Value()) && 0 < TV.Value() <= old(TV.Value())
    ensures Coprime(TU.Value(), TV.Value())
  {
    ghost var k := MakeOdd(TU, U1, U2, TA, TB);
    CoprimeStrip(TU.Value(), k, TV.Value());
    Scale(TU.Value(), Pow2(k));
    ghost var j := MakeOdd(TV, V1, V2, TA, TB);
    Scale(TV.Value(), Pow2(j));
    CoprimeSym(TU.Value(), TV.Value() * Pow2(j));
    CoprimeStrip(TV.Value(), j, TU.Value());
    CoprimeSym(TV.Value(), TU.Value());
  }

  /** Runs until TU is zero; TV is then 1 and V1 inverts TA modulo TB. */
  method InvLoop(TU: Mpi, U1: Mpi, U2: Mpi, TV: Mpi, V1: Mpi, V2: Mpi, TA: Mpi, TB: Mpi)
    requires Triple(TU, U1, U2, TA, TB) && Triple(TV, V1, V2, TA, TB) && Apart(TU, U1, U2, TV, V1, V2)
    requires TA.p != [] && TB.p != [] && (TA.Value() % 2 == 1 || TB.Value() % 2 == 1)
    requires TU.Value() > 0 && TV.Value() > 0 && Coprime(TU.Value(), TV.Value())
    modifies TU, U1, U2, TV, V1, V2
    ensures V1.p != [] && Bezout(V1.Value(), V2.Value(), 1, TA.Value(), TB.Value())
  {
    var cmp := 1;
    while cmp != 0
      invariant Triple(TU, U1, U2, TA, TB) && Triple(TV, V1, V2, TA, TB)
      invariant TU.Value() >= 0 && TV.Value() > 0 && Coprime(TU.Value(), TV.Value())
      invariant cmp == Cmp(TU.Value(), 0)
      decreases TU.Value() + TV.Value()
    {
      InvStep(TU, U1, U2, TV, V1, V2, TA, TB);
      cmp := TU.CmpInt(0);
    }
    DividesIntro(TV.Value(), 0, 0);
    DividesIntro(TV.Value(), TV.Value(), 1);
    assert Common(TV.Value(), TU.Value(), TV.Value());
  }

  lemma InverseFromBezout(v1: int, v2: int, ta: int, a: int, n: int, x: int)
    requires n > 1 && Bezout(v1, v2, 1, ta, n) && ta == a % n && x == v1 % n
    ensures Cong(a * x, 1, n) && 1 <= x < n
  {
    NegMul(v2, n);
    CongIntro(ta * v1, 1, n, -v2);
    CongMod(a, n);
    CongSym(ta, a, n);
    CongMod(v1, n);
    CongMul(a, ta, x, v1, n);
    CongTrans(a * x, ta * v1, 1, n);
    if x == 0 {
      CongResidue(a * x, 1, n);
      ModUnique(1, 0, 1, n);
      ModUnique(0, 0, 0, n);
    }
  }

  lemma OneIsOdd(a: int, b: int)
    requires Coprime(a, b)
    ensures a % 2 == 1 || b % 2 == 1
  {
    if a % 2 == 0 && b % 2 == 0 {
      assert Common(2, a, b);
    }
  }

  lemma CoprimeResidue(a: int, n: int)
    requires n > 0 && Coprime(a, n)
    ensures Coprime(a % n, n)
  {
    var q, r := a / n, a % n;
    DivBounds(a, n);
    forall d | Common(d, r, n)
      ensures d == 1
    {
      DividesLinear(d, r, n, 1, q);
      assert r * 1 + n * q == a;
      assert Common(d, a, n);
    }
  }

  lemma CoprimeAbs(a: int, n: int)
    ensures Coprime(Magnitude(a), n) <==> Coprime(a, n)
  {
    forall d
      ensures Common(d, Magnitude(a), n) <==> Common(d, a, n)
    {
      if Common(d, Magnitude(a), n) {
        DividesMultiple(d, Magnitude(a), -1);
      }
      if Common(d, a, n) {
        DividesMultiple(d, a, -1);
      }
    }
    if Coprime(a, n) {
      forall d | Common(d, Magnitude(a), n) ensures d == 1 { assert Common(d, a, n); }
    }
    if Coprime(Magnitude(a), n) {
      forall d | Common(d, a, n) ensures d == 1 { assert Common(d, Magnitude(a), n); }
    }
  }

  /** X = A^-1 mod N.  Succeeds exactly when N > 1 and A and N are coprime; X may be any operand. */
  method InvMod(X: Mpi, A: Mpi, N: Mpi) returns (st: Status)
    modifies X
    ensures st == if old(N.Value()) <= 1 then BadInputData
                  else if Coprime(old(A.Value()), old(N.Value())) then Ok else NotAcceptable
    ensures st == Ok ==> 1 <= X.Value() < old(N.Value()) && Cong(old(A.Value()) * X.Value(), 1, old(N.Value()))
    ensures st != Ok ==> X.s == old(X.s) && X.p == old(X.p)
  {
    var cmp := N.CmpInt(1);
    if cmp <= 0 {
      return BadInputData;
    }
    ghost var a, n := A.Value(), N.Value();
    var G := new Mpi();
    Gcd(G, A, N);
    CoprimeIffGcdOne(Val(G.p), Val(A.p), n);
    CoprimeAbs(a, n);
    cmp := G.CmpInt(1);
    if cmp != 0 {
      return NotAcceptable;
    }
    var V1 := Invert(A, N);
    X.Copy(V1);
    st := Ok;
  }

  method Invert(A: Mpi, N: Mpi) returns (V1: Mpi)
    requires N.Value() > 1 && Coprime(A.Value(), N.Value())
    ensures fresh(V1) && V1.p != [] && 1 <= V1.Value() < N.Value() && Cong(A.Value() * V1.Value(), 1, N.Value())
  {
    ghost var a, n := A.Value(), N.Value();
    var TA := new Mpi();
    var st := ModMpi(TA, A, N);
    CoprimeResidue(a, n);
    OneIsOdd(a % n, n);
    NonzeroResidue(a, n);
    var TU := new Mpi();
    TU.Copy(TA);
    var TB := new Mpi();
    TB.Copy(N);
    var TV := new Mpi();
    TV.Copy(N);
    V1 := InvertTriples(TA, TU, TB, TV);
    ghost var v := V1.Value();
    ghost var v2: int :| Bezout(v, v2, 1, TA.Value(), TB.Value());
    BringIntoRange(V1, N);
    InverseFromBezout(v, v2, a % n, a, n, V1.Value());
  }

  lemma NonzeroResidue(a: int, n: int)
    requires n > 1 && Coprime(a % n, n)
    ensures a % n > 0
  {
    if a % n == 0 {
      DividesIntro(n, 0, 0);
      DividesIntro(n, n, 1);
      assert Common(n, a % n, n);
    }
  }

  method InvertTriples(TA: Mpi, TU: Mpi, TB: Mpi, TV: Mpi) returns (V1: Mpi)
    requires TA != TU && TA != TV && TB != TU && TB != TV && TU != TV
    requires TA.p != [] && TU.p != [] && TB.p != [] && TV.p != []
    requires TU.Value() == TA.Value() > 0 && TV.Value() == TB.Value() > 0
    requires TA.Value() % 2 == 1 || TB.Value() % 2 == 1
    requires Coprime(TA.Value(), TB.Value())
    modifies TU, TV
    ensures fresh(V1) && V1.p != [] && exists v2: int :: Bezout(V1.Value(), v2, 1, TA.Value(), TB.Value())
  {
    var U1 := new Mpi();
    U1.Lset(1);
    var U2 := new Mpi();
    U2.Lset(0);
    V1 := new Mpi();
    V1.Lset(0);
    var V2 := new Mpi();
    V2.Lset(1);
    InvLoop(TU, U1, U2, TV, V1, V2, TA, TB);
  }
}
