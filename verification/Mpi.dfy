/**
 The multi-precision integer object of bignum.c: a sign and a growable limb vector that the methods
 change in place.  Every operation may be called with the destination aliasing an operand wherever
 the C code allows it; the contracts speak of the operands' old values.
 */
module Mpis {
  import opened Arith
  import opened Limbs

  type Sign = x: int | x == 1 || x == -1 witness 1

  function Cmp(a: int, b: int): int {
    if a > b then 1 else if a < b then -1 else 0
  }

  function Magnitude(z: int): nat {
    if z < 0 then -z else z
  }

  function SignOf(z: int): Sign {
    if z < 0 then -1 else 1
  }

  // One column of an addition, scaled by the column's weight.
  lemma Column(d: int, d': int, a: int, c: int, c': int, w: int)
    requires d' + c' * BASE == d + a + c
    ensures (d' - d) * w + c' * (BASE * w) == a * w + c * w
  {
    assert (d' - d) * w + (c' * BASE) * w == (d' - d + c' * BASE) * w;
    assert (c' * BASE) * w == c' * (BASE * w);
    assert (a + c) * w == a * w + c * w;
  }

  // Writing the sum digit of column i and keeping the carry for column i + 1.
  lemma CarryStep(x: seq<Limb>, i: nat, v: Limb, a: int, c: int, c': int)
    requires i < |x| && v + c' * BASE == x[i] + a + c
    ensures Val(x[i := v]) + c' * Pow(i + 1) == Val(x) + a * Pow(i) + c * Pow(i)
  {
    ValUpdate(x, i, v);
    Column(x[i], v, a, c, c', Pow(i));
  }

  lemma BorrowStep(x: seq<Limb>, i: nat, v: Limb, a: int, c: int, c': int)
    requires i < |x| && v - c' * BASE == x[i] - a - c
    ensures Val(x[i := v]) - c' * Pow(i + 1) == Val(x) - a * Pow(i) - c * Pow(i)
  {
    CarryStep(x, i, v, -a, -c, -c');
    NegMul(a, Pow(i));
    NegMul(c, Pow(i));
    NegMul(c', Pow(i + 1));
  }

  // A vector whose top limb is nonzero is at least that limb's weight.
  lemma TopLimbWeight(s: seq<Limb>, n: nat)
    requires 0 < n <= |s| && s[n - 1] != 0
    ensures Pow(n - 1) <= Val(s[..n]) <= Val(s)
  {
    ValTop(s[..n]);
    ValSplit(s, n);
    MulMono(1, s[n - 1], Pow(n - 1));
    MulMono(0, Pow(n), Val(s[n..]));
  }

  /** The larger number has room for the significant limbs of the smaller one. */
  lemma EnoughLimbs(p: seq<Limb>, b: seq<Limb>, n: nat)
    requires n <= |b| && Val(b) == Val(b[..n]) && (n > 0 ==> b[n - 1] != 0) && Val(b) <= Val(p)
    ensures n <= |p|
  {
    if n > 0 {
      TopLimbWeight(b, n);
      ValBound(p);
      if |p| < n {
        PowMono(|p|, n - 1);
      }
    }
  }

  class Mpi {
    var s: Sign
    var p: seq<Limb>

    constructor ()
      ensures s == 1 && p == []
    {
      s, p := 1, [];
    }

    /** The one-limb number that the `_int` entry points build on the stack. */
    constructor OfInt(z: int)
      requires Magnitude(z) < BASE
      ensures s == SignOf(z) && p == [Magnitude(z)] && Val(p) == Magnitude(z)
    {
      s, p := SignOf(z), [Magnitude(z)];
      assert Val([Magnitude(z)]) == Magnitude(z) + BASE * Val([]);
    }

    ghost function Value(): int
      reads this
    {
      var v: int := Val(p);
      if s == 1 then v else -v
    }

    method Grow(n: nat)
      modifies this`p
      ensures Val(p) == old(Val(p))
      ensures |p| == if old(|p|) < n then n else old(|p|)
      ensures p[..old(|p|)] == old(p) && (n <= old(|p|) ==> p == old(p))
      ensures forall k :: old(|p|) <= k < |p| ==> p[k] == 0
    {
      if |p| < n {
        var z := Zeros(n - |p|);
        ValConcat(p, z);
        ValZeros(z);
        p := p + z;
      }
    }

    /** Number of limbs up to the highest nonzero one. */
    method SigLimbs() returns (n: nat)
      ensures n <= |p| && Val(p) == Val(p[..n])
      ensures n > 0 ==> p[n - 1] != 0
      ensures forall k :: n <= k < |p| ==> p[k] == 0
    {
      n := |p|;
      while n > 0 && p[n - 1] == 0
        invariant n <= |p|
        invariant forall k :: n <= k < |p| ==> p[k] == 0
      {
        n := n - 1;
      }
      ValTrim(p, n);
    }

    method Copy(Y: Mpi)
      modifies this
      ensures Val(p) == old(Val(Y.p))
      ensures s == if old(Y.p) == [] && Y != this then 1 else old(Y.s)
      ensures Y.p != [] && Y != this ==> |p| >= old(|p|) && |p| >= 1
      ensures Y == this ==> p == old(p)
      ensures Y.p == [] && Y != this ==> p == []
      ensures old(p) == [] && Y != this && Y.p != [] ==> |p| <= |Y.p| && (|p| > 1 ==> p[|p| - 1] != 0)
    {
      if this == Y {
        return;
      }
      if Y.p == [] {
        s, p := 1, [];
        return;
      }
      var i := |Y.p| - 1;
      while i > 0 && Y.p[i] == 0
        invariant 0 <= i < |Y.p|
        invariant forall k :: i < k < |Y.p| ==> Y.p[k] == 0
      {
        i := i - 1;
      }
      i := i + 1;
      s := Y.s;
      var top: seq<Limb> := Zeros(if |p| < i then 0 else |p| - i);
      ValConcat(Y.p[..i], top);
      ValZeros(top);
      ValTrim(Y.p, i);
      p := Y.p[..i] + top;
    }

    method Lset(z: int)
      requires Magnitude(z) < BASE
      modifies this
      ensures s == SignOf(z) && Val(p) == Magnitude(z) && Value() == z
      ensures |p| == (if old(|p|) < 1 then 1 else old(|p|))
      ensures p[0] == Magnitude(z) && forall k :: 1 <= k < |p| ==> p[k] == 0
    {
      Grow(1);
      p := Zeros(|p|);
      p := p[0 := Magnitude(z)];
      s := SignOf(z);
      ValTrim(p, 1);
      assert Val(p[..1]) == p[0] + BASE * Val(p[..1][1..]);
    }

    /** Limb-by-limb comparison from the top, on equal numbers of significant limbs. */
    method CmpLimbs(Y: Mpi, n: nat) returns (r: int)
      requires n <= |p| && n <= |Y.p|
      requires Val(p) == Val(p[..n]) && Val(Y.p) == Val(Y.p[..n])
      ensures r == Cmp(Val(p), Val(Y.p))
    {
      var i: nat := n;
      while i > 0
        invariant i <= n
        invariant Val(p) - Val(p[..i]) == Val(Y.p) - Val(Y.p[..i])
      {
        LimbDecides(p, Y.p, i - 1);
        LimbDecides(Y.p, p, i - 1);
        if p[i - 1] > Y.p[i - 1] {
          return 1;
        }
        if p[i - 1] < Y.p[i - 1] {
          return -1;
        }
        i := i - 1;
      }
      r := 0;
    }

    static lemma LimbDecides(x: seq<Limb>, y: seq<Limb>, i: nat)
      requires i < |x| && i < |y|
      ensures x[i] > y[i] ==> Val(x[..i + 1]) > Val(y[..i + 1])
      ensures x[i] == y[i] ==> Val(x[..i + 1]) - Val(x[..i]) == Val(y[..i + 1]) - Val(y[..i])
    {
      ValPrefix(x, i);
      ValPrefix(y, i);
      if x[i] > y[i] {
        ValBound(y[..i]);
        MulMono(y[i] + 1, x[i], Pow(i));
        Plus1(y[i], Pow(i));
      }
    }

    method CmpAbs(Y: Mpi) returns (r: int)
      ensures r == Cmp(Val(p), Val(Y.p))
    {
      var i := SigLimbs();
      var j := Y.SigLimbs();
      if i == 0 && j == 0 {
        return 0;
      }
      if i > j {
        MoreLimbs(p, i, Y.p, j);
        return 1;
      }
      if j > i {
        MoreLimbs(Y.p, j, p, i);
        return -1;
      }
      r := CmpLimbs(Y, i);
    }

    static lemma MoreLimbs(x: seq<Limb>, i: nat, y: seq<Limb>, j: nat)
      requires j < i <= |x| && j <= |y| && x[i - 1] != 0
      requires Val(y) == Val(y[..j])
      ensures Val(x) > Val(y)
    {
      TopLimbWeight(x, i);
      ValBound(y[..j]);
      PowMono(j, i - 1);
    }

    method CmpMpi(Y: Mpi) returns (r: int)
      ensures r == Cmp(Value(), Y.Value())
    {
      var i := SigLimbs();
      var j := Y.SigLimbs();
      if i == 0 && j == 0 {
        return 0;
      }
      if i > j {
        MoreLimbs(p, i, Y.p, j);
        return s;
      }
      if j > i {
        MoreLimbs(Y.p, j, p, i);
        var ys: int := Y.s;
        return -ys;
      }
      TopLimbWeight(p, i);
      TopLimbWeight(Y.p, i);
      if s > 0 && Y.s < 0 {
        return 1;
      }
      if Y.s > 0 && s < 0 {
        return -1;
      }
      r := CmpLimbs(Y, i);
      r := s * r;
    }

    method CmpInt(z: int) returns (r: int)
      requires Magnitude(z) < BASE
      ensures r == Cmp(Value(), z)
    {
      var Y := new Mpi.OfInt(z);
      r := CmpMpi(Y);
    }

    /** X = |A| + |B|, any of the three allowed to be the same object. */
    method AddAbs(A0: Mpi, B0: Mpi)
      modifies this
      ensures s == 1 && Val(p) == old(Val(A0.p)) + old(Val(B0.p))
      ensures old(A0.p) != [] || A0 == this || B0 == this ==> |p| >= old(|p|)
    {
      var A, B := A0, B0;
      if this == B {
        A, B := this, A;
      }
      if this != A {
        Copy(A);
      }
      s := 1;
      var j := B.SigLimbs();
      Grow(j);
      AddLimbs(B, j);
    }

    /** Column loop of the addition; B may be this very object. */
    method AddLimbs(B: Mpi, j: nat)
      requires j <= |B.p| && j <= |p| && Val(B.p) == Val(B.p[..j])
      modifies this`p
      ensures Val(p) == old(Val(p)) + old(Val(B.p))
      ensures |p| >= old(|p|)
    {
      ghost var x0, b0 := p, B.p;
      var c: Limb, i := 0, 0;
      while i < j
        invariant 0 <= i <= j && 0 <= c <= 1 && |p| == |x0| && |B.p| == |b0|
        invariant forall k :: i <= k < |b0| ==> B.p[k] == b0[k]
        invariant Val(p) + c * Pow(i) == Val(x0) + Val(b0[..i])
      {
        var tmp := B.p[i];
        var v, c1 := AddColumn(p[i], tmp, c);
        CarryStep(p, i, v, tmp, c, c1);
        ValPrefix(b0, i);
        p, c, i := p[i := v], c1, i + 1;
      }
      CarryOut(i, c);
    }

    /** One column: the carry added first, each overflow seen by comparing. */
    static method AddColumn(x: Limb, tmp: Limb, c: Limb) returns (v: Limb, c1: Limb)
      requires c <= 1
      ensures v + c1 * BASE == x + tmp + c && c1 <= 1
    {
      v := AddW(x, c);
      c1 := if v < c then 1 else 0;
      v := AddW(v, tmp);
      c1 := c1 + if v < tmp then 1 else 0;
    }

    /** Ripples a carry upwards from limb i, growing the vector when it leaves the top. */
    method CarryOut(start: nat, carry: Limb)
      requires carry <= 1 && start <= |p|
      modifies this`p
      ensures Val(p) == old(Val(p)) + carry * Pow(start)
      ensures |p| >= old(|p|)
    {
      ghost var v0 := Val(p);
      var c, i := carry, start;
      while c != 0
        invariant 0 <= c <= 1 && 0 <= i <= |p| && |p| >= old(|p|)
        invariant Val(p) + c * Pow(i) == v0 + carry * Pow(start)
        decreases c, |p| - i
      {
        if i >= |p| {
          Grow(i + 1);
        }
        var v := AddW(p[i], c);
        var c1 := if v < c then 1 else 0;
        CarryStep(p, i, v, 0, c, c1);
        p, c, i := p[i := v], c1, i + 1;
      }
    }

    /** d -= s over n limbs with the borrow rippling upwards (mpi_sub_hlp). */
    method SubHlp(n: nat, S: Mpi)
      requires S != this && n <= |S.p| && n <= |p|
      requires Val(S.p[..n]) <= Val(p)
      modifies this`p
      ensures Val(p) == old(Val(p)) - Val(S.p[..n])
      ensures |p| == old(|p|)
    {
      ghost var d0 := p;
      var c: Limb, i := 0, 0;
      while i < n
        invariant 0 <= i <= n && 0 <= c <= 1 && |p| == |d0|
        invariant Val(p) - c * Pow(i) == Val(d0) - Val(S.p[..i])
      {
        var z := if p[i] < c then 1 else 0;
        var v := SubW(p[i], c);
        var c1 := (if v < S.p[i] then 1 else 0) + z;
        v := SubW(v, S.p[i]);
        BorrowStep(p, i, v, S.p[i], c, c1);
        ValPrefix(S.p, i);
        p, c, i := p[i := v], c1, i + 1;
      }
      Borrow(i, c);
    }

    /** Takes a borrow out of limb i and, while it is still owed, out of the limbs above. */
    method Borrow(start: nat, owed: Limb)
      requires owed <= 1 && start <= |p|
      requires owed * Pow(start) <= Val(p)
      modifies this`p
      ensures Val(p) == old(Val(p)) - owed * Pow(start)
      ensures |p| == old(|p|)
    {
      ghost var v0 := Val(p);
      var c, i := owed, start;
      while c != 0
        invariant 0 <= c <= 1 && 0 <= i <= |p| && |p| == old(|p|)
        invariant Val(p) - c * Pow(i) == v0 - owed * Pow(start)
        decreases |p| - i
      {
        assert i < |p| by { ValBound(p); }
        var z := if p[i] < c then 1 else 0;
        var v := SubW(p[i], c);
        BorrowStep(p, i, v, 0, c, z);
        p, c, i := p[i := v], z, i + 1;
      }
    }

    /** X = |A| - |B|; refuses, leaving X alone, exactly when |A| < |B|. */
    method SubAbs(A: Mpi, B0: Mpi) returns (ok: bool)
      modifies this
      ensures ok <==> old(Val(A.p)) >= old(Val(B0.p))
      ensures ok ==> s == 1 && Val(p) == old(Val(A.p)) - old(Val(B0.p))
      ensures ok && (old(A.p) != [] || A == this) ==> |p| >= old(|p|)
      ensures !ok ==> s == old(s) && p == old(p)
    {
      var B := B0;
      var cmp := A.CmpAbs(B);
      if cmp < 0 {
        return false;
      }
      if this == B {
        B := new Mpi();
        B.Copy(B0);
      }
      if this != A {
        Copy(A);
      }
      s := 1;
      var n := B.SigLimbs();
      EnoughLimbs(p, B.p, n);
      SubHlp(n, B);
      ok := true;
    }

    method AddMpi(A: Mpi, B: Mpi)
      modifies this
      ensures Value() == old(A.Value()) + old(B.Value())
      ensures old(A.s) == old(B.s) ==> s == old(A.s)
      ensures old(A.p) != [] && old(B.p) != [] ==> |p| >= old(|p|)
    {
      var sgn: int := A.s;
      if A.s * B.s < 0 {
        var cmp := A.CmpAbs(B);
        if cmp >= 0 {
          var _ := SubAbs(A, B);
          s := sgn;
        } else {
          var _ := SubAbs(B, A);
          s := -sgn;
        }
      } else {
        AddAbs(A, B);
        s := sgn;
      }
    }

    method SubMpi(A: Mpi, B: Mpi)
      modifies this
      ensures Value() == old(A.Value()) - old(B.Value())
      ensures old(A.s) != old(B.s) ==> s == old(A.s)
      ensures old(A.p) != [] && old(B.p) != [] ==> |p| >= old(|p|)
    {
      var sgn: int := A.s;
      if A.s * B.s > 0 {
        var cmp := A.CmpAbs(B);
        if cmp >= 0 {
          var _ := SubAbs(A, B);
          s := sgn;
        } else {
          var _ := SubAbs(B, A);
          s := -sgn;
        }
      } else {
        AddAbs(A, B);
        s := sgn;
      }
    }

    method AddInt(A: Mpi, z: int)
      requires Magnitude(z) < BASE
      modifies this
      ensures Value() == old(A.Value()) + z
      ensures old(A.s) == SignOf(z) ==> s == old(A.s)
      ensures old(A.p) != [] ==> |p| >= old(|p|)
    {
      var B := new Mpi.OfInt(z);
      AddMpi(A, B);
    }

    method SubInt(A: Mpi, z: int)
      requires Magnitude(z) < BASE
      modifies this
      ensures Value() == old(A.Value()) - z
      ensures old(A.s) != SignOf(z) ==> s == old(A.s)
      ensures old(A.p) != [] ==> |p| >= old(|p|)
    {
      var B := new Mpi.OfInt(z);
      SubMpi(A, B);
    }
  }

  /** Not negative; the sign field of a zero may still be -1. */
  ghost predicate NonNegative(X: Mpi)
    reads X
  {
    X.s == 1 || Val(X.p) == 0
  }
}
