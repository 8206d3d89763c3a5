/** Montgomery multiplication (HAC 14.36) and its one-word inverse by Hensel lifting. */
module Montgomery {
  import opened Arith
  import opened Limbs
  import opened Bits
  import opened Congruence
  import opened Mpis
  import opened MpiMul
  import opened MpiShift
  import opened Division

  // ----- mpi_montg_init

  function MulW(a: int, b: int): Limb {
    (a * b) % BASE
  }

  lemma And4(a: nat)
    ensures And(a, 4) == 4 * ((a / 4) % 2)
  {
    assert And(a, 4) == if a == 0 then 0 else 2 * And(a / 2, 2);
    assert And(a / 2, 2) == if a / 2 == 0 then 0 else 2 * And(a / 2 / 2, 1);
    var c := a / 2 / 2;
    assert And(c, 1) == c % 2;
  }

  /** x = m0 + ((m0 + 2) & 4) << 1 inverts the odd word m0 modulo 16. */
  lemma SeedInverts(m0: nat, x: nat)
    requires m0 % 2 == 1 && x % 16 == (m0 + 8 * (((m0 + 2) / 4) % 2)) % 16
    ensures (m0 * x - 1) % 16 == 0
  {
    var q, r := m0 / 16, m0 % 16;
    var p, t := x / 16, x % 16;
    SeedResidue(m0, x);
    SeedTable(r, t);
    Expand16(q, r, p, t, (r * t - 1) / 16);
  }

  lemma SeedResidue(m0: nat, x: nat)
    requires m0 % 2 == 1 && x % 16 == (m0 + 8 * (((m0 + 2) / 4) % 2)) % 16
    ensures (m0 % 16) % 2 == 1 && x % 16 == (m0 % 16 + 8 * (((m0 % 16 + 2) / 4) % 2)) % 16
  {
    var q, r := m0 / 16, m0 % 16;
    ModUnique(m0, 8 * q + r / 2, r % 2, 2);
    ModUnique(m0 + 2, 4 * q + (r + 2) / 4, (r + 2) % 4, 4);
    var h := (r + 2) / 4;
    ModUnique(4 * q + h, 2 * q + h / 2, h % 2, 2);
    var z := r + 8 * (h % 2);
    ModUnique(16 * q + z, q + z / 16, z % 16, 16);
  }

  lemma Expand16(q: int, r: int, p: int, t: int, k: int)
    requires r * t - 1 == 16 * k
    ensures ((16 * q + r) * (16 * p + t) - 1) % 16 == 0
  {
    var z := 16 * (q * p) + q * t + p * r + k;
    assert (16 * q + r) * (16 * p + t) - 1 == 16 * z;
    ModUnique((16 * q + r) * (16 * p + t) - 1, z, 0, 16);
  }

  lemma SeedTable(r: nat, t: nat)
    requires r < 16 && r % 2 == 1 && t == (r + 8 * (((r + 2) / 4) % 2)) % 16
    ensures (r * t - 1) % 16 == 0
  {
    if r == 1 { assert t == 1; }
    else if r == 3 { assert t == 11; }
    else if r == 5 { assert t == 13; }
    else if r == 7 { assert t == 7; }
    else if r == 9 { assert t == 9; }
    else if r == 11 { assert t == 3; }
    else if r == 13 { assert t == 5; }
    else { assert r == 15 && t == 15; }
  }

  /** Newton's step x (2 - m0 x) doubles the number of correct bits. */
  lemma HenselStep(m0: nat, x: nat, x': nat, w: nat, c: int, j: int)
    requires m0 * x - 1 == c * w && x' == x * (2 - m0 * x) + j * BASE
    ensures m0 * x' - 1 == (- (c * c)) * (w * w) + (m0 * j) * BASE
  {
    var e := m0 * x - 1;
    assert m0 * (x * (2 - m0 * x)) - 1 == - (e * e);
    assert (c * w) * (c * w) == (c * c) * (w * w);
    assert m0 * (j * BASE) == (m0 * j) * BASE;
    NegMul(c * c, w * w);
  }

  /** mm with N[0] * mm = -1 modulo the limb base. */
  method MontgInit(N: Mpi) returns (mm: Limb)
    requires N.p != [] && N.p[0] % 2 == 1
    ensures (N.p[0] * mm + 1) % BASE == 0
  {
    var m0 := N.p[0];
    And4(AddW(m0, 2));
    var x: Limb := AddW(m0, And(AddW(m0, 2), 4) * 2);
    SeedInverts(m0, x);
    var i := BITS;
    ghost var k := 4;
    assert Pow2(4) == 16;
    while i >= 8
      invariant (i == 64 && k == 4) || (i == 32 && k == 8) || (i == 16 && k == 16) || (i == 8 && k == 32)
                || (i == 4 && k == 64)
      invariant (m0 * x - 1) % Pow2(k) == 0
    {
      var y := NewtonStep(m0, x, k);
      x, i, k := y, i / 2, 2 * k;
    }
    LimbIs64Bits();
    NegatedInverse(m0, x);
    mm := AddW(BASE - 1 - x, 1);
  }

  lemma NegatedInverse(m0: nat, x: Limb)
    requires (m0 * x - 1) % BASE == 0
    ensures (m0 * AddW(BASE - 1 - x, 1) + 1) % BASE == 0
  {
    var mm := AddW(BASE - 1 - x, 1);
    var c := (m0 * x - 1) / BASE;
    assert m0 * x - 1 == BASE * c;
    if x == 0 {
      ModUnique(-1, -1, BASE - 1, BASE);
    } else {
      assert mm == BASE - x;
      assert m0 * mm == BASE * m0 - m0 * x;
      ModUnique(m0 * mm + 1, m0 - c, 0, BASE);
    }
  }

  method NewtonStep(m0: Limb, x: Limb, ghost k: nat) returns (y: Limb)
    requires 2 * k <= BITS && (m0 * x - 1) % Pow2(k) == 0
    ensures (m0 * y - 1) % Pow2(2 * k) == 0
  {
    y := MulW(x, (2 - MulW(m0, x)) % BASE);
    NewtonLifts(m0, x, y, k);
  }

  lemma NewtonLifts(m0: Limb, x: Limb, y: Limb, k: nat)
    requires 2 * k <= BITS && (m0 * x - 1) % Pow2(k) == 0
    requires y == MulW(x, (2 - MulW(m0, x)) % BASE)
    ensures (m0 * y - 1) % Pow2(2 * k) == 0
  {
    var w := Pow2(k);
    var c := (m0 * x - 1) / w;
    DivBounds(m0 * x - 1, w);
    var j := WrappedNewton(m0, x);
    HenselStep(m0, x, y, w, c, j);
    Pow2Add(k, k);
    HalfBase(2 * k);
    BothMultiples(m0 * y - 1, c * c, m0 * j, w * w, Pow2(BITS - 2 * k));
  }

  lemma BothMultiples(v: int, s: int, t: int, m: int, h: int)
    requires m > 0 && m * h == BASE && v == - s * m + t * BASE
    ensures v % m == 0
  {
    Assoc(t, h, m);
    NegMul(s, m);
    Distribute(m, t * h, -s);
    ModUnique(v, t * h - s, 0, m);
  }

  lemma WrappedNewton(m0: Limb, x: Limb) returns (j: int)
    ensures MulW(x, (2 - MulW(m0, x)) % BASE) == x * (2 - m0 * x) + j * BASE
  {
    var p := m0 * x;
    var a := p / BASE;
    assert MulW(m0, x) == p - a * BASE;
    var s := 2 - MulW(m0, x);
    var b := s / BASE;
    var u := s % BASE;
    assert u == 2 - p + (a - b) * BASE;
    var d := (x * u) / BASE;
    assert x * u == x * (2 - p) + (x * (a - b)) * BASE by {
      Distribute(x, 2 - p, (a - b) * BASE);
      Assoc(x, a - b, BASE);
    }
    j := x * (a - b) - d;
  }

  // ----- mpi_montmul

  /** The value of a vector is its lowest limb plus a multiple of the base. */
  lemma LowLimb(s: seq<Limb>)
    requires s != []
    ensures Val(s) == s[0] + BASE * Val(s[1..])
  {
  }

  /** The word u1 is chosen so that the lowest limb of the sum vanishes. */
  lemma LowLimbVanishes(v: nat, d0: Limb, dh: nat, u0: Limb, bv: nat, b0: Limb, bh: nat, nv: nat, n0: Limb, nh: nat,
                        mm: Limb, u1: Limb)
    requires v == d0 + BASE * dh && bv == b0 + BASE * bh && nv == n0 + BASE * nh
    requires (n0 * mm + 1) % BASE == 0 && u1 == MulW((d0 + MulW(u0, b0)) % BASE, mm)
    ensures (v + u0 * bv + u1 * nv) % BASE == 0
  {
    var s := d0 + u0 * b0;
    var g := ReducedFactor(d0, u0, b0, mm, u1);
    var c := (n0 * mm + 1) / BASE;
    assert n0 * mm + 1 == BASE * c;
    Vanish(s, u1, mm, n0, c, g);
    Collect(d0, dh, u0, b0, bh, u1, n0, nh, s * c - g * n0);
  }

  lemma Collect(d0: int, dh: int, u0: int, b0: int, bh: int, u1: int, n0: int, nh: int, k: int)
    requires d0 + u0 * b0 + u1 * n0 == BASE * k
    ensures ((d0 + BASE * dh) + u0 * (b0 + BASE * bh) + u1 * (n0 + BASE * nh)) % BASE == 0
  {
    Distribute(u0, b0, BASE * bh);
    Distribute(u1, n0, BASE * nh);
    Rotate(u0, BASE, bh);
    Rotate(u1, BASE, nh);
    var z := dh + u0 * bh + u1 * nh + k;
    ModUnique((d0 + BASE * dh) + u0 * (b0 + BASE * bh) + u1 * (n0 + BASE * nh), z, 0, BASE);
  }

  lemma ReducedFactor(d0: Limb, u0: Limb, b0: Limb, mm: Limb, u1: Limb) returns (g: int)
    requires u1 == MulW((d0 + MulW(u0, b0)) % BASE, mm)
    ensures u1 == (d0 + u0 * b0) * mm - g * BASE
  {
    var p := u0 * b0;
    var a := p / BASE;
    var t := d0 + MulW(u0, b0);
    var e := t / BASE;
    assert t % BASE == d0 + p - (a + e) * BASE;
    var r := t % BASE;
    var f := (r * mm) / BASE;
    assert r * mm == (d0 + p) * mm - ((a + e) * mm) * BASE by {
      Distribute(mm, d0 + p, - ((a + e) * BASE));
      Rotate(a + e, BASE, mm);
    }
    g := (a + e) * mm + f;
  }

  lemma Vanish(s: int, u1: int, mm: int, n0: int, c: int, g: int)
    requires n0 * mm + 1 == BASE * c && u1 == s * mm - g * BASE
    ensures s + u1 * n0 == BASE * (s * c - g * n0)
  {
    assert (s * mm) * n0 == s * (n0 * mm);
    assert s * (n0 * mm + 1) == s * (n0 * mm) + s;
    assert s * (BASE * c) == BASE * (s * c);
    Distribute(n0, s * mm, - (g * BASE));
    assert (g * BASE) * n0 == BASE * (g * n0);
  }

  /** Bounds of one round: the sums fit the n + 2 limb window and the quotient stays below B + N. */
  lemma RoundFits(w: nat, u0: Limb, b: nat, u1: Limb, nv: nat, n: nat)
    requires w < b + nv && b <= nv < Pow(n)
    ensures w + u0 * b < Pow(n + 2) && w + u0 * b + u1 * nv < Pow(n + 2)
    ensures w + u0 * b + u1 * nv < BASE * (b + nv)
  {
    MulMono(u0, BASE - 1, b);
    MulMono(u1, BASE - 1, nv);
    MulMono(0, u1, nv);
  }

  /** The running sum as a multiple: one more limb of A is accounted for. */
  lemma RoundSum(w: nat, w': nat, av: nat, a: nat, b: nat, u1: nat, nv: nat, k: nat, p: nat)
    requires w * p == av * b + k * nv
    requires BASE * w' == w + a * b + u1 * nv
    ensures w' * (BASE * p) == (av + a * p) * b + (k + u1 * p) * nv
  {
    assert w' * (BASE * p) == (BASE * w') * p;
    assert (w + a * b + u1 * nv) * p == w * p + (a * b) * p + (u1 * nv) * p;
    assert (a * b) * p == (a * p) * b && (u1 * nv) * p == (u1 * p) * nv;
    Distribute(b, av, a * p);
    Distribute(nv, k, u1 * p);
  }

  /** T += u0 * B + u1 * N on the window that starts at limb i; its lowest limb becomes zero. */
  method MontAdd(B: Mpi, N: Mpi, mm: Limb, T: Mpi, i: nat, m: nat, u0: Limb) returns (u1: Limb)
    requires T != B && T != N
    requires |N.p| >= 1 && i + |N.p| + 2 <= |T.p| && 1 <= m <= |N.p| && m <= |B.p|
    requires Val(B.p) == Val(B.p[..m]) && Val(B.p) <= Val(N.p)
    requires (N.p[0] * mm + 1) % BASE == 0
    requires Val(T.p[i..i + |N.p| + 2]) < Val(B.p) + Val(N.p)
    modifies T`p
    ensures |T.p| == old(|T.p|) && T.p[..i] == old(T.p[..i]) && T.p[i + |N.p| + 2..] == old(T.p[i + |N.p| + 2..])
    ensures Val(T.p[i..i + |N.p| + 2]) == old(Val(T.p[i..i + |N.p| + 2])) + u0 * Val(B.p) + u1 * Val(N.p)
    ensures Val(T.p[i..i + |N.p| + 2]) % BASE == 0
    ensures Val(T.p[i..i + |N.p| + 2]) < BASE * (Val(B.p) + Val(N.p))
  {
    var n := |N.p|;
    ghost var hi := i + n + 2;
    ghost var w := T.p[i..hi];
    u1 := MulW((T.p[i] + MulW(u0, B.p[0])) % BASE, mm);
    ValBound(N.p);
    RoundFits(Val(w), u0, Val(B.p), u1, Val(N.p), n);
    ghost var v, b, c := Val(w), Val(B.p), Val(N.p);
    LowLimbVanishes(v, w[0], Val(w[1..]), u0, b, B.p[0], Val(B.p[1..]), c, N.p[0], Val(N.p[1..]), mm, u1);
    MulHlp(m, B, T, i, u0, hi);
    assert Val(T.p[i..hi]) == v + u0 * b;
    assert N.p[..n] == N.p;
    MulHlp(n, N, T, i, u1, hi);
    assert Val(T.p[i..hi]) == v + u0 * b + u1 * c;
  }

  /** One round: T = (T + u0 * B + u1 * N) / BASE, the window moving up one limb. */
  method MontRound(A: Mpi, B: Mpi, N: Mpi, mm: Limb, T: Mpi, i: nat, m: nat) returns (ghost u1: Limb)
    requires T != A && T != B && T != N
    requires i < |N.p| <= |A.p| && |T.p| >= 2 * |N.p| + 2 && 1 <= m <= |N.p| && m <= |B.p|
    requires Val(B.p) == Val(B.p[..m]) && Val(B.p) <= Val(N.p)
    requires (N.p[0] * mm + 1) % BASE == 0
    requires Val(T.p[i..i + |N.p| + 2]) < Val(B.p) + Val(N.p)
    modifies T`p
    ensures Round(old(T.p), T.p, A.p, Val(B.p), Val(N.p), |N.p|, i, u1)
  {
    var n := |N.p|;
    ghost var t0 := T.p;
    u1 := MontAdd(B, N, mm, T, i, m, A.p[i]);
    ghost var t := T.p;
    T.p := T.p[i := A.p[i]][i + n + 2 := 0];
    RoundStored(t0, t, T.p, A.p, Val(B.p), Val(N.p), n, i, u1);
  }

  lemma RoundStored(t0: seq<Limb>, t: seq<Limb>, t': seq<Limb>, a: seq<Limb>, bv: nat, nv: nat, n: nat, i: nat,
                    u1: Limb)
    requires i < n <= |a| && |t| == |t0| >= 2 * n + 2 && t[..i] == t0[..i] && t' == t[i := a[i]][i + n + 2 := 0]
    requires Val(t[i..i + n + 2]) == Val(t0[i..i + n + 2]) + a[i] * bv + u1 * nv
    requires Val(t[i..i + n + 2]) % BASE == 0 && Val(t[i..i + n + 2]) < BASE * (bv + nv)
    ensures Round(t0, t', a, bv, nv, n, i, u1)
  {
    WindowUp(t, t', i, i + n + 2);
    assert t'[..i + 1] == t[..i] + [a[i]];
  }

  ghost predicate Round(t: seq<Limb>, t': seq<Limb>, a: seq<Limb>, bv: nat, nv: nat, n: nat, i: nat, u1: Limb) {
    && i < n <= |a| && |t'| == |t| && |t| >= 2 * n + 2
    && t'[..i + 1] == t[..i] + [a[i]] && t'[i + n + 2] == 0
    && BASE * Val(t'[i + 1..i + n + 3]) == Val(t[i..i + n + 2]) + a[i] * bv + u1 * nv
    && Val(t'[i + 1..i + n + 3]) < bv + nv
  }

  lemma WindowUp(t: seq<Limb>, t': seq<Limb>, i: nat, hi: nat)
    requires i < hi < |t| == |t'| && t' == t[i := t'[i]][hi := 0]
    requires Val(t[i..hi]) % BASE == 0
    ensures BASE * Val(t'[i + 1..hi + 1]) == Val(t[i..hi])
  {
    LowLimb(t[i..hi]);
    assert t[i..hi][1..] == t[i + 1..hi];
    assert t'[i + 1..hi + 1] == t[i + 1..hi] + [0];
    ValConcat(t[i + 1..hi], [0]);
    ValZeros([0]);
  }

  /** All rounds: afterwards the window holds (A * B + k * N) / Pow(n), below B + N. */
  method MontRounds(A: Mpi, B: Mpi, N: Mpi, mm: Limb, T: Mpi) returns (ghost k: nat)
    requires T != A && T != B && T != N
    requires 1 <= |N.p| <= |A.p| && |T.p| >= 2 * |N.p| + 2 && B.p != []
    requires Val(B.p) <= Val(N.p) && Val(N.p) > 0
    requires (N.p[0] * mm + 1) % BASE == 0
    modifies T`p
    ensures |T.p| == old(|T.p|) && Partial(T.p, A.p, Val(B.p), Val(N.p), |N.p|, |N.p|, k)
  {
    var n := |N.p|;
    T.p := Zeros(|T.p|);
    var m := if |B.p| < n then |B.p| else n;
    ValBound(N.p);
    FewLimbs(B.p, n, m);
    k := 0;
    var i := 0;
    ghost var ap, bv, nv := A.p, Val(B.p), Val(N.p);
    PartialStart(T.p, ap, bv, nv, n);
    while i < n
      invariant 0 <= i <= n && |T.p| == old(|T.p|)
      invariant Partial(T.p, ap, bv, nv, n, i, k)
    {
      ghost var t := T.p;
      ghost var u1 := MontRound(A, B, N, mm, T, i, m);
      k := PartialStep(t, T.p, ap, bv, nv, n, i, k, u1);
      i := i + 1;
    }
  }

  lemma PartialDone(t: seq<Limb>, a: seq<Limb>, bv: nat, nv: nat, n: nat, k: nat)
    requires Partial(t, a, bv, nv, n, n, k)
    ensures t[..n] == a[..n] && Val(t[n..2 * n + 1]) < bv + nv
    ensures Val(t[n..2 * n + 1]) * Pow(n) == Val(a[..n]) * bv + k * nv
  {
    TopLimbIsZero(t, n);
  }

  lemma PartialStart(t: seq<Limb>, a: seq<Limb>, bv: nat, nv: nat, n: nat)
    requires n <= |a| && |t| >= 2 * n + 2 && nv > 0 && forall i :: 0 <= i < |t| ==> t[i] == 0
    ensures Partial(t, a, bv, nv, n, 0, 0)
  {
    ValZeros(t[0..n + 2]);
    assert Val(a[..0]) * bv == 0 * bv;
  }

  /** After i rounds the window holds (A[..i] * B + k * N) / Pow(i), and the limbs below hold A's. */
  ghost predicate Partial(t: seq<Limb>, a: seq<Limb>, bv: nat, nv: nat, n: nat, i: nat, k: nat) {
    && i <= n <= |a| && |t| >= 2 * n + 2
    && t[..i] == a[..i] && t[i + n + 1] == 0
    && Val(t[i..i + n + 2]) < bv + nv
    && Val(t[i..i + n + 2]) * Pow(i) == Val(a[..i]) * bv + k * nv
  }

  lemma PartialStep(t: seq<Limb>, t': seq<Limb>, a: seq<Limb>, bv: nat, nv: nat, n: nat, i: nat, k: nat, u1: Limb)
    returns (k': nat)
    requires Partial(t, a, bv, nv, n, i, k) && Round(t, t', a, bv, nv, n, i, u1)
    ensures Partial(t', a, bv, nv, n, i + 1, k')
  {
    RoundSum(Val(t[i..i + n + 2]), Val(t'[i + 1..i + n + 3]), Val(a[..i]), a[i], bv, u1, nv, k, Pow(i));
    ValPrefix(a, i);
    MulMono(0, u1, Pow(i));
    k' := k + u1 * Pow(i);
    assert a[..i + 1] == a[..i] + [a[i]];
  }

  lemma TopLimbIsZero(t: seq<Limb>, n: nat)
    requires |t| >= 2 * n + 2 && t[2 * n + 1] == 0
    ensures Val(t[n..2 * n + 2]) == Val(t[n..2 * n + 1])
  {
    assert t[n..2 * n + 2] == t[n..2 * n + 1] + [0];
    ValConcat(t[n..2 * n + 1], [0]);
    ValZeros([0]);
  }

  lemma FewLimbs(b: seq<Limb>, n: nat, m: nat)
    requires Val(b) < Pow(n) && m == if |b| < n then |b| else n
    ensures Val(b) == Val(b[..m])
  {
    if |b| <= n {
      assert b[..m] == b;
    } else {
      ValSplit(b, n);
      CancelTail(Val(b), Val(b[..n]), Val(b[n..]), Pow(n));
    }
  }

  /**
   A = A * B / R mod N with R = Pow(n), B allowed to be A.  T is scratch of at least 2n + 2 limbs.
   */
  method MontMul(A: Mpi, B: Mpi, N: Mpi, mm: Limb, T: Mpi)
    requires A != N && T != A && T != B && T != N
    requires 1 <= |N.p| < |A.p| && |T.p| >= 2 * |N.p| + 2 && B.p != []
    requires Val(A.p) < Pow(|N.p|) && Val(B.p) <= Val(N.p) && Val(N.p) > 0
    requires (N.p[0] * mm + 1) % BASE == 0
    modifies A`p, T`p
    ensures |A.p| == old(|A.p|) && |T.p| == old(|T.p|)
    ensures Val(A.p) < Val(N.p)
    ensures Cong(Val(A.p) * Pow(|N.p|), old(Val(A.p)) * old(Val(B.p)), Val(N.p))
  {
    var n := |N.p|;
    ghost var a0: int, b0: int := Val(A.p), Val(B.p);
    FewLimbs(A.p, n, n);
    ghost var k := MontRounds(A, B, N, mm, T);
    PartialDone(T.p, A.p, b0, Val(N.p), n, k);
    ghost var x := Val(T.p[n..2 * n + 1]);
    LoadResult(A, T, n);
    assert x < 2 * Val(N.p);
    ReducedOnce(x, Val(N.p), Pow(n), a0 * b0, k);
    FinalSubtraction(A, N, T, n);
  }

  lemma ReducedOnce(x: int, nv: int, p: int, ab: int, k: int)
    requires nv > 0 && x * p == ab + k * nv
    ensures Cong(x * p, ab, nv) && Cong((x - nv) * p, ab, nv)
  {
    CongIntro(x * p, ab, nv, k);
    Distribute(p, x, -nv);
    NegMul(nv, p);
    Distribute(nv, k, -p);
    CongIntro((x - nv) * p, ab, nv, k - p);
  }

  /** Copies the n + 1 result limbs into A, whose higher limbs are zero. */
  method LoadResult(A: Mpi, T: Mpi, n: nat)
    requires A != T && n < |A.p| && Val(A.p) < Pow(n) && |T.p| >= 2 * n + 1
    modifies A`p
    ensures |A.p| == old(|A.p|) && Val(A.p) == Val(T.p[n..2 * n + 1])
    ensures A.p[..n + 1] == T.p[n..2 * n + 1]
  {
    ValSplit(A.p, n + 1);
    PowMono(n, n + 1);
    CancelTail(Val(A.p), Val(A.p[..n + 1]), Val(A.p[n + 1..]), Pow(n + 1));
    ValConcat(T.p[n..2 * n + 1], A.p[n + 1..]);
    A.p := T.p[n..2 * n + 1] + A.p[n + 1..];
  }

  /** The conditional subtraction; the other branch subtracts into the scratch only. */
  method FinalSubtraction(A: Mpi, N: Mpi, T: Mpi, n: nat)
    requires A != N && T != A && T != N && n == |N.p| < |A.p| && |T.p| >= 2 * n + 1
    requires Val(A.p) < 2 * Val(N.p) && A.p[..n + 1] == T.p[n..2 * n + 1]
    modifies A`p, T`p
    ensures |A.p| == old(|A.p|) && |T.p| == old(|T.p|)
    ensures Val(A.p) == if old(Val(A.p)) >= Val(N.p) then old(Val(A.p)) - Val(N.p) else old(Val(A.p))
  {
    var cmp := A.CmpAbs(N);
    assert N.p[..n] == N.p;
    if cmp >= 0 {
      A.SubHlp(n, N);
    } else {
      assert A.p[..n] == A.p[..n + 1][..n] && T.p[n..2 * n] == T.p[n..2 * n + 1][..n];
      ScratchLarge(T.p, A.p[..n], n);
      T.SubHlp(n, A);
    }
  }

  lemma ScratchLarge(t: seq<Limb>, a: seq<Limb>, n: nat)
    requires |t| >= 2 * n && a == t[n..2 * n]
    ensures Val(a) <= Val(t)
  {
    ValSplit(t, n);
    ValSplit(t[n..], n);
    assert t[n..][..n] == a;
    MulMono(0, Pow(n), Val(t[n..][n..]));
    MulMono(1, Pow(n), Val(t[n..]));
  }

  /** A = A / R mod N. */
  method MontRed(A: Mpi, N: Mpi, mm: Limb, T: Mpi)
    requires A != N && T != A && T != N
    requires 1 <= |N.p| < |A.p| && |T.p| >= 2 * |N.p| + 2
    requires Val(A.p) < Pow(|N.p|) && Val(N.p) > 0
    requires (N.p[0] * mm + 1) % BASE == 0
    modifies A`p, T`p
    ensures |A.p| == old(|A.p|) && |T.p| == old(|T.p|)
    ensures Val(A.p) < Val(N.p)
    ensures Cong(Val(A.p) * Pow(|N.p|), old(Val(A.p)), Val(N.p))
  {
    var U := new Mpi.OfInt(1);
    ghost var a: int := Val(A.p);
    assert a * Val(U.p) == a;
    MontMul(A, U, N, mm, T);
  }
}
