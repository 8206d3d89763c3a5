/** Schoolbook multiplication on limb vectors (HAC 14.12). */
module MpiMul {
  import opened Arith
  import opened Limbs
  import opened Mpis

  lemma MulBound(a: Limb, b: Limb)
    ensures 0 <= a * b <= (BASE - 1) * (BASE - 1)
  {
    MulMono(0, a, b);
    MulMono(a, BASE - 1, b);
    MulMono(b, BASE - 1, BASE - 1);
  }

  /** The MULADDC step: a*b + d + c split into low limb and carry. */
  method MulAddC(a: Limb, b: Limb, d: Limb, c: Limb) returns (lo: Limb, hi: Limb)
    ensures lo + hi * BASE == d + a * b + c
  {
    MulBound(a, b);
    var t := a * b + d + c;
    lo, hi := t % BASE, t / BASE;
  }

  /** Writing limb `off + i` of a vector is writing limb `i` of its window. */
  lemma Window(s: seq<Limb>, off: nat, hi: nat, i: nat, v: Limb)
    requires off + i < hi <= |s|
    ensures s[off + i := v][off..hi] == s[off..hi][i := v]
    ensures s[off + i := v][..off] == s[..off] && s[off + i := v][hi..] == s[hi..]
  {
  }

  /** Adds a carry into limb `off + i` and ripples it; it cannot leave the window when the sum fits. */
  method RippleCarry(D: Mpi, off: nat, ghost hi: nat, start: nat, carry: Limb)
    requires off + start < hi <= |D.p|
    requires Val(D.p[off..hi]) + carry * Pow(start) < Pow(hi - off)
    modifies D`p
    ensures |D.p| == old(|D.p|) && D.p[..off] == old(D.p[..off]) && D.p[hi..] == old(D.p[hi..])
    ensures Val(D.p[off..hi]) == old(Val(D.p[off..hi])) + carry * Pow(start)
  {
    ghost var p0, w0 := D.p, Val(D.p[off..hi]);
    var c: Limb, i := carry, start;
    while true
      invariant start <= i && off + i < hi <= |D.p|
      invariant |D.p| == |p0| && D.p[..off] == p0[..off] && D.p[hi..] == p0[hi..]
      invariant Val(D.p[off..hi]) + c * Pow(i) == w0 + carry * Pow(start)
      decreases hi - off - i
    {
      var v := AddW(D.p[off + i], c);
      var c1 := if v < c then 1 else 0;
      RippleStep(D.p, off, hi, i, v, c, c1);
      D.p := D.p[off + i := v];
      c, i := c1, i + 1;
      if c == 0 {
        break;
      }
      ValBound(D.p[off..hi]);
    }
  }

  lemma RippleStep(d: seq<Limb>, off: nat, hi: nat, i: nat, v: Limb, c: Limb, c1: Limb)
    requires off + i < hi <= |d| && v + c1 * BASE == d[off + i] + c
    ensures Val(d[off + i := v][off..hi]) + c1 * Pow(i + 1) == Val(d[off..hi]) + c * Pow(i)
    ensures d[off + i := v][..off] == d[..off] && d[off + i := v][hi..] == d[hi..]
  {
    CarryStep(d[off..hi], i, v, 0, c, c1);
    Window(d, off, hi, i, v);
  }

  /** d[off..] += b * s[..n] (mpi_mul_hlp).  `hi` bounds the window the product fits in. */
  method MulHlp(n: nat, S: Mpi, D: Mpi, off: nat, b: Limb, ghost hi: nat)
    requires S != D && n <= |S.p| && off + n < hi <= |D.p|
    requires Val(D.p[off..hi]) + b * Val(S.p[..n]) < Pow(hi - off)
    modifies D`p
    ensures |D.p| == old(|D.p|) && D.p[..off] == old(D.p[..off]) && D.p[hi..] == old(D.p[hi..])
    ensures Val(D.p[off..hi]) == old(Val(D.p[off..hi])) + b * Val(S.p[..n])
  {
    ghost var p0, w0 := D.p, Val(D.p[off..hi]);
    var c: Limb, i := 0, 0;
    while i < n
      invariant 0 <= i <= n
      invariant |D.p| == |p0| && D.p[..off] == p0[..off] && D.p[hi..] == p0[hi..]
      invariant Val(D.p[off..hi]) + c * Pow(i) == w0 + b * Val(S.p[..i])
    {
      var lo, c1 := MulAddC(S.p[i], b, D.p[off + i], c);
      MulHlpStep(D.p[off..hi], S.p, i, lo, b, c, c1);
      Window(D.p, off, hi, i, lo);
      D.p := D.p[off + i := lo];
      c, i := c1, i + 1;
    }
    RippleCarry(D, off, hi, i, c);
  }

  lemma MulHlpStep(w: seq<Limb>, s: seq<Limb>, i: nat, lo: Limb, b: Limb, c: Limb, c1: Limb)
    requires i < |w| && i < |s| && lo + c1 * BASE == w[i] + s[i] * b + c
    ensures Val(w[i := lo]) + c1 * Pow(i + 1) - b * Val(s[..i + 1]) == Val(w) + c * Pow(i) - b * Val(s[..i])
  {
    CarryStep(w, i, lo, s[i] * b, c, c1);
    ValPrefix(s, i);
    Distribute(b, Val(s[..i]), s[i] * Pow(i));
    Rotate(s[i], b, Pow(i));
  }

  lemma RowFits(a: seq<Limb>, b: seq<Limb>, top: nat)
    requires |a| + |b| <= top
    ensures Val(a) * Val(b) < Pow(top)
  {
    ValBound(a);
    ValBound(b);
    MulStrict(Val(a), Val(b), Pow(|a|), Pow(|b|));
    PowAdd(|a|, |b|);
    PowMono(|a| + |b|, top);
  }

  /** Adding row k turns VA * (high part) * BASE into VA * (high part with limb k). */
  lemma RowStep(va: nat, b: seq<Limb>, k: nat)
    requires k < |b|
    ensures BASE * (va * Val(b[k + 1..])) + b[k] * va == va * Val(b[k..])
  {
    var h := Val(b[k + 1..]);
    assert b[k..][1..] == b[k + 1..];
    assert va * (b[k] + BASE * h) == va * b[k] + BASE * (va * h);
  }

  /** The row loop: from the top limb of B down, each row added at its offset. */
  method MulRows(X: Mpi, A: Mpi, B: Mpi, i: nat, j: nat)
    requires X != A && X != B && i <= |A.p| && j <= |B.p| && i + j <= |X.p|
    requires forall k :: 0 <= k < |X.p| ==> X.p[k] == 0
    modifies X`p
    ensures |X.p| == old(|X.p|)
    ensures Val(X.p) == Val(A.p[..i]) * Val(B.p[..j])
  {
    ghost var va, b := Val(A.p[..i]), B.p[..j];
    var k := j;
    ValZeros(X.p[k..]);
    while k > 0
      invariant 0 <= k <= j && |X.p| == old(|X.p|)
      invariant forall m :: 0 <= m < k ==> X.p[m] == 0
      invariant Val(X.p[k..]) == va * Val(b[k..])
    {
      k := k - 1;
      ghost var x, top := X.p, |X.p|;
      assert x[k..top] == x[k..] && x[k..][1..] == x[k + 1..];
      RowStep(va, b, k);
      RowFits(A.p[..i], b[k..], top - k);
      MulHlp(i, A, X, k, B.p[k], top);
      ghost var y := X.p;
      assert y[k..top] == y[k..];
      assert forall m :: 0 <= m < k ==> y[m] == y[..k][m] == x[..k][m];
    }
    assert X.p[0..] == X.p && b[0..] == b;
  }

  /** The operand itself, or a copy of it when it is about to be overwritten. */
  method Unaliased(X: Mpi, A: Mpi) returns (C: Mpi)
    ensures C != X && (C == A || fresh(C))
    ensures Val(C.p) == Val(A.p) && C.Value() == A.Value() && (A.p != [] ==> C.s == A.s)
  {
    C := A;
    if X == A {
      C := new Mpi();
      C.Copy(A);
    }
  }

  /** X = A * B.  X may be A, B or both. */
  method MulMpi(X: Mpi, A0: Mpi, B0: Mpi)
    modifies X
    ensures Val(X.p) == old(Val(A0.p)) * old(Val(B0.p))
    ensures X.Value() == old(A0.Value()) * old(B0.Value())
    ensures old(A0.p) != [] && old(B0.p) != [] ==> X.s == if old(A0.s) == old(B0.s) then 1 else -1
    ensures |X.p| >= old(|X.p|) && |X.p| >= 1
  {
    ghost var a, b := A0.Value(), B0.Value();
    var A := Unaliased(X, A0);
    var B := Unaliased(X, B0);
    SignedProduct(A.s, Val(A.p), B.s, Val(B.p));
    MulAbs(X, A, B);
    X.s := if A.s == B.s then 1 else -1;
  }

  /** The magnitude of the product. */
  method MulAbs(X: Mpi, A: Mpi, B: Mpi)
    requires X != A && X != B
    modifies X
    ensures Val(X.p) == Val(A.p) * Val(B.p)
    ensures |X.p| >= old(|X.p|) && |X.p| >= 1
  {
    var i := A.SigLimbs();
    var j := B.SigLimbs();
    X.Grow(i + j);
    X.Lset(0);
    MulRows(X, A, B, i, j);
  }

  lemma SignedProduct(s: Sign, a: int, t: Sign, b: int)
    ensures (if s == 1 then a else -a) * (if t == 1 then b else -b) == if s == t then a * b else -(a * b)
  {
    NegMul(a, b);
    NegMul(b, a);
    NegMul(b, -a);
  }

  method MulInt(X: Mpi, A: Mpi, b: Limb)
    modifies X
    ensures Val(X.p) == old(Val(A.p)) * b
    ensures X.Value() == old(A.Value()) * b
    ensures old(A.p) != [] ==> X.s == old(A.s)
    ensures |X.p| >= old(|X.p|) && |X.p| >= 1
  {
    var B := new Mpi.OfInt(b);
    MulMpi(X, A, B);
  }
}
