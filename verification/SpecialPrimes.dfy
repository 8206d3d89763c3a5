/** Quasi-reductions on whole limbs: p192, p521, p255, p448 and the Koblitz primes 2^e - R. */
module SpecialPrimes {
  import opened Arith
  import opened Limbs
  import opened Bits
  import opened Mpis
  import opened MpiShift
  import opened MpiMul
  import opened Division
  import opened Congruence

  // ----- cutting a number at bit 64 * from + shift

  /** 2^(64 from + shift). */
  function Cut(from: nat, shift: nat): (w: nat)
    ensures w > 0
  {
    MulMono(1, Pow(from), Pow2(shift));
    Pow(from) * Pow2(shift)
  }

  lemma CutWeight(from: nat, shift: nat)
    ensures Pow2(BITS * from + shift) == Cut(from, shift)
  {
    PowIsPow2(from);
    Pow2Add(BITS * from, shift);
  }

  /** Below bit `shift` only the lowest limb counts. */
  lemma LowOfHigh(x: Limb, rest: nat, shift: nat)
    requires shift <= BITS
    ensures (x + BASE * rest) % Pow2(shift) == x % Pow2(shift)
  {
    var m, k := Pow2(shift), Pow2(BITS - shift);
    HalfBase(shift);
    Assoc(m, k, rest);
    MultipleAdded(x, k * rest, m);
  }

  lemma MultipleAdded(x: nat, j: int, m: nat)
    requires m > 0
    ensures (x + m * j) % m == x % m
  {
    DivBounds(x, m);
    Distribute(m, x / m, j);
    ModUnique(x + m * j, x / m + j, x % m, m);
  }

  /** low + Pow(from) * r is what is left of p below the cut. */
  lemma CutValue(p: seq<Limb>, from: nat, shift: nat)
    requires from < |p| && shift < BITS
    ensures Val(p) % Cut(from, shift) == Val(p[..from]) + Pow(from) * (p[from] % Pow2(shift))
    ensures Val(p) / Cut(from, shift) == Val(p[from..]) / Pow2(shift)
  {
    ValSplit(p, from);
    ValBound(p[..from]);
    CutHigh(p, from, shift);
    CutArith(Val(p), Val(p[..from]), Pow(from), Val(p[from..]), Pow2(shift), Cut(from, shift));
  }

  lemma CutHigh(p: seq<Limb>, from: nat, shift: nat)
    requires from < |p| && shift < BITS
    ensures Val(p[from..]) % Pow2(shift) == p[from] % Pow2(shift)
  {
    assert p[from..][1..] == p[from + 1..];
    assert Val(p[from..]) == p[from] + BASE * Val(p[from + 1..]);
    LowOfHigh(p[from], Val(p[from + 1..]), shift);
  }

  lemma CutArith(v: nat, low: nat, w: nat, h: nat, m: nat, cut: nat)
    requires v == low + w * h && low < w && m > 0 && cut > 0 && cut == w * m
    ensures v % cut == low + w * (h % m) && v / cut == h / m
  {
    DivBounds(h, m);
    MulMono(1, m, w);
    MulMono(h % m + 1, m, w);
    Plus1(h % m, w);
    Distribute(w, m * (h / m), h % m);
    Assoc(w, m, h / m);
    MulMono(0, h % m, w);
    ModUnique(v, h / m, low + w * (h % m), cut);
  }

  method ClearLimbs(N: Mpi, from: nat)
    requires from <= |N.p|
    modifies N`p
    ensures |N.p| == old(|N.p|) && N.p[..from] == old(N.p[..from]) && Val(N.p) == Val(N.p[..from])
  {
    var i := from;
    while i < |N.p|
      invariant from <= i <= |N.p| == old(|N.p|)
      invariant N.p[..from] == old(N.p[..from])
      invariant forall k :: from <= k < i ==> N.p[k] == 0
    {
      N.p := N.p[i := 0];
      i := i + 1;
    }
    ValTrim(N.p, from);
  }

  /** Masks the limb that holds the cut and clears the limbs above it. */
  method KeepLow(N: Mpi, from: nat, shift: nat)
    requires shift < BITS
    modifies N`p
    ensures |N.p| == old(|N.p|) && Val(N.p) == old(Val(N.p)) % Cut(from, shift)
  {
    ghost var q := N.p;
    if from < |N.p| {
      CutValue(q, from, shift);
      var x: Limb := N.p[from];
      ModSmaller(x, Pow2(shift));
      N.p := N.p[from := x % Pow2(shift)];
      ClearLimbs(N, from + 1);
      MaskedPrefix(N.p, q, from, x % Pow2(shift));
    } else {
      BelowCut(q, from, shift);
    }
  }

  lemma MaskedPrefix(p: seq<Limb>, q: seq<Limb>, from: nat, r: Limb)
    requires from < |p| == |q| && p[..from + 1] == q[from := r][..from + 1]
    ensures Val(p[..from + 1]) == Val(q[..from]) + Pow(from) * r
  {
    assert p[from] == p[..from + 1][from];
    assert p[..from] == p[..from + 1][..from] && q[..from] == q[from := r][..from + 1][..from];
    ValPrefix(p, from);
  }

  lemma ModSmaller(x: nat, m: nat)
    requires m > 0
    ensures 0 <= x % m <= x
  {
    DivBounds(x, m);
    QuotientAtLeast(0, m, x);
    MulMono(0, x / m, m);
  }

  lemma BelowCut(p: seq<Limb>, from: nat, shift: nat)
    requires |p| <= from
    ensures Val(p) % Cut(from, shift) == Val(p) && Val(p) / Cut(from, shift) == 0
  {
    ValBound(p);
    PowMono(|p|, from);
    CutWeight(from, shift);
    BelowProduct(Val(p), Pow(from), Pow2(shift));
  }

  lemma BelowProduct(v: nat, w: nat, m: nat)
    requires v < w && m > 0
    ensures w * m > 0 && v % (w * m) == v && v / (w * m) == 0
  {
    MulMono(1, m, w);
    ModUnique(v, 0, v, w * m);
  }

  /** M = the number above the cut, from at most `cap` limbs. */
  method HighPart(N: Mpi, from: nat, shift: nat, cap: nat) returns (M: Mpi)
    requires shift < BITS && from <= |N.p| && Val(N.p) < Pow(from + cap)
    ensures fresh(M) && M.s == 1 && Val(M.p) == Val(N.p) / Cut(from, shift)
    ensures |N.p| - from <= cap ==> |M.p| >= |N.p| - from
  {
    var n := |N.p| - from;
    if n > cap {
      n := cap;
    }
    M := new Mpi();
    M.p := N.p[from..from + n];
    HighLimbs(N.p, from, n);
    HighValue(N.p, from, shift);
    if shift != 0 {
      CutWeight(0, shift);
      ShiftR(M, shift);
      M.s := 1;
    }
  }

  lemma HighValue(p: seq<Limb>, from: nat, shift: nat)
    requires shift < BITS && from <= |p|
    ensures Val(p[from..]) / Pow2(shift) == Val(p) / Cut(from, shift)
    ensures shift == 0 ==> Val(p[from..]) / Pow2(shift) == Val(p[from..])
  {
    assert Pow2(0) == 1;
    if from < |p| {
      CutValue(p, from, shift);
    } else {
      assert p[from..] == [];
      BelowCut(p, from, shift);
      ModUnique(0, 0, 0, Pow2(shift));
    }
  }

  /** Limbs beyond the buffer are zero. */
  lemma HighLimbs(p: seq<Limb>, from: nat, n: nat)
    requires from + n <= |p| && (from + n == |p| || Val(p) < Pow(from + n))
    ensures Val(p[from..from + n]) == Val(p[from..])
  {
    if from + n == |p| {
      assert p[from..from + n] == p[from..];
    } else {
      ValSplit(p, from + n);
      NoHigh(Val(p[..from + n]), Pow(from + n), Val(p[from + n..]));
      ValSplit(p[from..], n);
      assert p[from..][..n] == p[from..from + n] && p[from..][n..] == p[from + n..];
    }
  }

  method ShiftRight(X: Mpi, from: nat, shift: nat)
    modifies X
    ensures Val(X.p) == old(Val(X.p)) / Cut(from, shift) && |X.p| >= old(|X.p|)
  {
    CutWeight(from, shift);
    ShiftR(X, BITS * from + shift);
  }

  method ShiftLeft(X: Mpi, from: nat, shift: nat)
    modifies X`p
    ensures Val(X.p) == old(Val(X.p)) * Cut(from, shift)
  {
    CutWeight(from, shift);
    ShiftL(X, BITS * from + shift);
  }

  // ----- primes 2^e - c: one folding pass replaces 2^e by c

  /** The residue is kept and the number does not grow. */
  lemma FoldPass(n: nat, cut: nat, c: nat, p: nat, low: int, high: int)
    requires p > 0 && p == cut - c && low == n % cut && high == n / cut
    ensures Cong(low + high * c, n, p) && low + high * c <= n
  {
    DivBounds(n, cut);
    Distribute(high, p, c);
    CongIntro(low + high * c, n, p, -high);
    MulMono(c, cut, high);
  }

  /** One pass of ecp_mod_koblitz; also ecp_mod_p521 (R = 1) and ecp_mod_p255 (R = 19). */
  method FoldOnce(N: Mpi, R: Limb, from: nat, shift: nat, cap: nat, ghost p: nat)
    requires shift < BITS && from <= |N.p| && Val(N.p) < Pow(from + cap)
    requires p > 0 && p == Cut(from, shift) - R
    modifies N
    ensures N.s == 1 && Cong(Val(N.p), old(Val(N.p)), p) && Val(N.p) <= old(Val(N.p)) && |N.p| >= old(|N.p|)
  {
    ghost var n, cut := Val(N.p), Cut(from, shift);
    var M := HighPart(N, from, shift, cap);
    FoldPass(n, cut, R, p, n % cut, n / cut);
    KeepLow(N, from, shift);
    if R != 1 {
      MulInt(M, M, R);
    }
    N.AddAbs(N, M);
  }

  const R192: Limb := 0x1_0000_11C9
  const R224: Limb := 0x1_0000_1A93
  const R256: Limb := 0x1_0000_03D1

  /** ecp_mod_koblitz: two passes, for P = 2^(64 (limbs - adjust) + shift) - R. */
  method ModKoblitz(N: Mpi, R: Limb, limbs: nat, adjust: nat, shift: nat, ghost p: nat)
    requires NonNegative(N) && shift < BITS && adjust <= limbs && (adjust == 1 <==> shift > 0) && adjust <= 1 && R > 1
    requires Val(N.p) < Pow(2 * limbs) && p > 0 && p == Cut(limbs - adjust, shift) - R
    modifies N
    ensures NonNegative(N) && Cong(N.Value(), old(N.Value()), p) && Val(N.p) <= old(Val(N.p))
  {
    ghost var v0 := Val(N.p);
    CongRefl(v0, p);
    if |N.p| < limbs {
      return;
    }
    FoldOnce(N, R, limbs - adjust, shift, limbs + adjust, p);
    ghost var v1 := Val(N.p);
    FoldOnce(N, R, limbs - adjust, shift, limbs + adjust, p);
    CongTrans(Val(N.p), v1, v0, p);
  }

  /** ecp_mod_p521 (width 9, shift 9, at most 10 limbs above): 2^521 counts as 1. */
  method ModMersenne(N: Mpi, width: nat, shift: nat, cap: nat, ghost p: nat)
    requires NonNegative(N) && 0 < width && shift < BITS && Val(N.p) < Pow(width - 1 + cap)
    requires p == Cut(width - 1, shift) - 1 && p > 0
    modifies N
    ensures NonNegative(N) && Cong(N.Value(), old(N.Value()), p)
  {
    CongRefl(Val(N.p), p);
    if |N.p| < width {
      return;
    }
    FoldOnce(N, 1, width - 1, shift, cap, p);
  }

  lemma FitsLimbs(p: seq<Limb>, n: nat)
    requires |p| <= n
    ensures Val(p) < Pow(n)
  {
    ValBound(p);
    PowMono(|p|, n);
  }

  /** ecp_mod_p255 (width 4, shift 63, R = 19): 2^255 counts as 19; too many limbs are refused, whatever they hold. */
  method ModFold(N: Mpi, R: Limb, width: nat, shift: nat, ghost p: nat) returns (st: Status)
    requires NonNegative(N) && 0 < width && shift < BITS && p == Cut(width - 1, shift) - R && p > 0
    modifies N
    ensures st == (if old(|N.p|) > 2 * width then BadInputData else Ok)
    ensures NonNegative(N) && Cong(N.Value(), old(N.Value()), p)
    ensures st != Ok ==> N.p == old(N.p) && N.s == old(N.s)
  {
    CongRefl(Val(N.p), p);
    if |N.p| < width {
      return Ok;
    }
    if |N.p| - (width - 1) > width + 1 {
      return BadInputData;
    }
    FitsLimbs(N.p, width - 1 + (width + 1));
    FoldOnce(N, R, width - 1, shift, width + 1, p);
    st := Ok;
  }

  // ----- p448 = 2^448 - 2^224 - 1

  lemma Fold448(n: nat, a0: nat, a1: nat, b0: nat, b1: nat, h: nat, p: nat, r: int)
    requires p > 0 && p == h * h - h - 1 && n == a0 + (h * h) * a1 && a1 == b0 + h * b1
    requires r == a0 + a1 + b1 + (b0 + b1) * h
    ensures r >= 0 && Cong(r, n, p)
  {
    MulMono(0, b0 + b1, h);
    SquareTimes(h, p, a1);
    SquareTimes(h, p, b1);
    Distribute(h, b0, h * b1);
    Assoc(h, h, b1);
    Distribute(h, b0, b1);
    Distribute(p, a1, b1);
    assert n - r == (a1 + b1) * p;
    CongIntro(n, r, p, a1 + b1);
    CongSym(n, r, p);
  }

  lemma SquareTimes(h: int, p: int, x: int)
    requires p == h * h - h - 1
    ensures (h * h) * x == p * x + h * x + x
  {
    Distribute(x, p, h + 1);
    Distribute(x, h, 1);
  }

  lemma Parts(x: int, d: int, q: int, r: int)
    requires d > 0 && q == x / d && r == x % d
    ensures x == r + d * q
  {
  }

  /** N = A0 and the returned M = A1. */
  method SplitLimbs(N: Mpi, w: nat) returns (M: Mpi)
    requires w <= |N.p| <= 2 * w
    modifies N`p
    ensures fresh(M) && M.s == 1 && old(Val(N.p)) == Val(N.p) + Cut(w, 0) * Val(M.p)
  {
    FitsLimbs(N.p, w + w);
    M := HighPart(N, w, 0, w);
    ghost var n := Val(N.p);
    KeepLow(N, w, 0);
    Parts(n, Cut(w, 0), Val(M.p), Val(N.p));
  }

  /** M = B0 and the returned Q = B1. */
  method SplitBits(M: Mpi, u: nat, t: nat) returns (Q: Mpi)
    requires t < BITS
    modifies M`p
    ensures fresh(Q) && Q.s == 1 && old(Val(M.p)) == Val(M.p) + Cut(u, t) * Val(Q.p)
  {
    Q := new Mpi();
    Q.p := M.p;
    ShiftRight(Q, u, t);
    Q.s := 1;
    ghost var m := Val(M.p);
    KeepLow(M, u, t);
    Parts(m, Cut(u, t), Val(Q.p), Val(M.p));
  }

  /** M = (B0 + B1) h. */
  method ShiftedSum(M: Mpi, Q: Mpi, w: nat, u: nat, t: nat)
    requires M != Q && M.s == 1 && Q.s == 1
    modifies M
    ensures M.Value() == (old(Val(M.p)) + Val(Q.p)) * Cut(u, t)
  {
    M.AddMpi(M, Q);
    M.Grow(w + 1);
    ShiftLeft(M, u, t);
  }

  /** N += A1 + B1 + (B0 + B1) h. */
  method AddHalves(N: Mpi, M: Mpi, w: nat, u: nat, t: nat) returns (ghost b0: nat, ghost b1: nat)
    requires N != M && M.s == 1 && t < BITS
    modifies N, M
    ensures old(Val(M.p)) == b0 + Cut(u, t) * b1
    ensures N.Value() == old(N.Value()) + old(Val(M.p)) + b1 + (b0 + b1) * Cut(u, t)
  {
    N.AddMpi(N, M);
    var Q := SplitBits(M, u, t);
    b0, b1 := Val(M.p), Val(Q.p);
    N.AddMpi(N, Q);
    ShiftedSum(M, Q, w, u, t);
    N.AddMpi(N, M);
  }

  method FoldHalves(N: Mpi, w: nat, u: nat, t: nat) returns (ghost a0: nat, ghost a1: nat, ghost b0: nat, ghost b1: nat)
    requires NonNegative(N) && t < BITS && w <= |N.p| <= 2 * w
    modifies N
    ensures old(Val(N.p)) == a0 + Cut(w, 0) * a1 && a1 == b0 + Cut(u, t) * b1
    ensures N.Value() == a0 + a1 + b1 + (b0 + b1) * Cut(u, t)
  {
    ghost var cut := Cut(w, 0);
    var M := SplitLimbs(N, w);
    a0, a1 := Val(N.p), Val(M.p);
    LowIsNonNegative(old(Val(N.p)), a0, cut, a1);
    b0, b1 := AddHalves(N, M, w, u, t);
  }

  lemma LowIsNonNegative(n: nat, low: nat, w: nat, high: nat)
    requires n == low + w * high
    ensures low <= n
  {
    MulMono(0, high, w);
  }

  /** ecp_mod_p448 (w = 7, u = 3, t = 32): A0 + A1 + B1 + (B0 + B1) 2^224; too many limbs are refused. */
  method ModGolden(N: Mpi, w: nat, u: nat, t: nat, ghost p: nat) returns (st: Status)
    requires NonNegative(N) && t < BITS
    requires Cut(w, 0) == Cut(u, t) * Cut(u, t) && p > 0 && p == Cut(w, 0) - Cut(u, t) - 1
    modifies N
    ensures st == (if old(|N.p|) > 2 * w then BadInputData else Ok)
    ensures st == Ok ==> N.Value() >= 0 && Cong(N.Value(), old(N.Value()), p)
    ensures st != Ok ==> N.p == old(N.p) && N.s == old(N.s)
  {
    ghost var n := Val(N.p);
    CongRefl(n, p);
    if |N.p| <= w {
      return Ok;
    }
    if |N.p| - w > w {
      return BadInputData;
    }
    ghost var a0, a1, b0, b1 := FoldHalves(N, w, u, t);
    Fold448(n, a0, a1, b0, b1, Cut(u, t), p, N.Value());
    st := Ok;
  }

  lemma CutTwice()
    ensures Cut(7, 0) == Cut(3, 32) * Cut(3, 32)
  {
    HalfBase(32);
    PowAdd(3, 4);
    PowAdd(3, 1);
    assert Pow(1) == BASE && Pow2(0) == 1;
    SquareOf(Pow(3), Pow2(32), BASE);
  }

  lemma SquareOf(a: nat, b: nat, c: nat)
    requires b * b == c
    ensures (a * b) * (a * b) == a * (a * c)
  {
    Assoc(a, b, a * b);
    Rotate(a, b, b);
    Assoc(a, a, c);
    assert b * (a * b) == a * (b * b);
  }
}
