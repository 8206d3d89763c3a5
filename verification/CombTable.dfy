/**
 The table of the comb multiplication (ecp_precompute_comb): built in place, normalised twice.

 Points are group elements, but two things about their coordinates show through.  Normalising two or
 more points at once fails on the neutral point.  And ecp_add_mixed answers a neutral first operand with
 a copy of the second, whose Z is unset in a table and reads as zero from then on.
 */
module CombTable {
  import opened Arith
  import opened Bits
  import opened MpiShift
  import opened CombRecoding
  import opened PointGroup
  import opened Divisors

  /** What table slot k stands for: the comb value of the odd digit 2k + 1. */
  function Slot(k: nat, d: nat): nat {
    Comb(2 * k + 1, d)
  }

  /** T is the finished table of odd comb multiples of P. */
  ghost predicate IsTable<G>(g: Group<G>, T: seq<G>, P: G, d: nat) {
    forall k :: 0 <= k < |T| ==> T[k] == Entry(g, k, P, d)
  }

  lemma SlotZero(d: nat)
    ensures Slot(0, d) == 1
  {
    CombStep(1, d);
    assert Pow2(d) * 0 == 0;
  }

  /** Slot 2^l + j is slot j with tooth l + 1 added. */
  lemma SlotAbove(l: nat, j: nat, d: nat)
    requires j < Pow2(l)
    ensures Slot(Pow2(l) + j, d) == Slot(j, d) + Pow2(d * (l + 1))
  {
    TopTooth(2 * j + 1, l + 1, d);
    assert Pow2(l + 1) == 2 * Pow2(l);
    assert 2 * (Pow2(l) + j) + 1 == 2 * j + 1 + Pow2(l + 1);
  }

  lemma TopTooth(low: nat, n: nat, d: nat)
    requires low < Pow2(n)
    ensures Comb(low + Pow2(n), d) == Comb(low, d) + Pow2(d * n)
  {
    OrIsAdd(1, low, n, Pow2(n));
    AndDisjoint(low, 1, n, Pow2(n));
    CombOr(low, Pow2(n), d);
    CombMask(n, d);
  }

  /** ecp_add_mixed with a table point b whose Z is unset: a neutral a gives a copy of b that reads as neutral. */
  function AddMixed<G(==)>(g: Group<G>, a: G, b: G): G {
    if a == g.zero then g.zero else g.add(a, b)
  }

  /** d doublings. */
  function DoubleN<G>(g: Group<G>, d: nat, x: G): G {
    if d == 0 then x else var y := DoubleN(g, d - 1, x); g.add(y, y)
  }

  lemma {:induction false} DoubleNIsMul<G(!new)>(g: Group<G>, d: nat, n: nat, P: G)
    requires Abelian(g)
    ensures DoubleN(g, d, Mul(g, n, P)) == Mul(g, n * Pow2(d), P)
  {
    if d > 0 {
      DoubleNIsMul(g, d - 1, n, P);
      MulDouble(g, n * Pow2(d - 1), P);
      Rotate(2, n, Pow2(d - 1));
      Assoc(2, n, Pow2(d - 1));
    }
  }

  method Doublings<G>(g: Group<G>, start: G, d: nat) returns (cur: G)
    ensures cur == DoubleN(g, d, start)
  {
    cur := start;
    var j := 0;
    while j < d
      invariant 0 <= j <= d && cur == DoubleN(g, j, start)
    {
      cur := g.add(cur, cur);
      j := j + 1;
    }
  }

  /** Slots 2^l, ..., 2^(h-1) still hold the plain values v[l+1], ..., v[h] of the first loop. */
  ghost predicate Spine<G>(T: seq<G>, v: seq<G>, l: nat, h: nat)
    requires h < |v|
  {
    forall k :: l <= k < h ==> Pow2(k) < |T| && T[Pow2(k)] == v[k + 1]
  }

  /** First loop: T[0] = P and T[2^(l-1)] = v[l], each d doublings after the one before. */
  method FillSpine<G>(g: Group<G>, T: array<G>, P: G, w: nat, d: nat, ghost v: seq<G>) returns (TT: seq<G>)
    requires 2 <= w == |v| && T.Length == Pow2(w - 1) && v[0] == P
    requires forall k :: 0 <= k < w - 1 ==> v[k + 1] == DoubleN(g, d, v[k])
    modifies T
    ensures T[0] == P && Spine(T[..], v, 0, w - 1) && TT == v[1..]
  {
    T[0] := P;
    TT := [];
    var i: nat := 1;
    ghost var l := 0;
    while i < Pow2(w - 1)
      invariant i == Pow2(l) && l <= w - 1 && TT == v[1..l + 1]
      invariant T[0] == P && Spine(T[..], v, 0, l)
      decreases w - 1 - l
    {
      SpineBelow(l, w - 1);
      ghost var t := T[..];
      SpineLast(t, v, l);
      T[i] := Doublings(g, T[i / 2], d);
      TT := TT + [T[i]];
      SpineSet(t, T[..], v, l);
      i := 2 * i;
      l := l + 1;
    }
    SpineTop(l, w - 1);
  }

  lemma SpineLast<G>(t: seq<G>, v: seq<G>, l: nat)
    requires l < |v| && |t| > 0 && t[0] == v[0] && Spine(t, v, 0, l)
    ensures Pow2(l) / 2 < |t| && t[Pow2(l) / 2] == v[l]
  {
    if l > 0 {
      assert t[Pow2(l - 1)] == v[l - 1 + 1];
    }
  }

  lemma SpineSet<G>(t: seq<G>, t': seq<G>, v: seq<G>, l: nat)
    requires l + 1 < |v| && Spine(t, v, 0, l) && Pow2(l) < |t| && t' == t[Pow2(l) := v[l + 1]]
    ensures Spine(t', v, 0, l + 1)
  {
    ApartFrom(l);
  }

  lemma ApartFrom(l: nat)
    ensures forall k :: 0 <= k < l ==> Pow2(k) < Pow2(l)
  {
    forall k | 0 <= k < l
      ensures Pow2(k) < Pow2(l)
    {
      Pow2Mono(k, l);
    }
  }

  lemma SpineBelow(l: nat, h: nat)
    requires Pow2(l) < Pow2(h)
    ensures l < h
  {
    if l >= h {
      Pow2Mono(h, l);
    }
  }

  lemma SpineTop(l: nat, h: nat)
    requires l <= h && Pow2(l) >= Pow2(h)
    ensures l == h
  {
    Pow2Mono(l, h);
  }

  /** Round l of the second loop: entries 2^l + j are entry j plus the plain value v[l+1]. */
  ghost predicate Joins<G>(g: Group<G>, e: seq<G>, v: seq<G>, l: nat)
    requires l + 1 < |v|
  {
    2 * Pow2(l) <= |e| && forall j :: 0 <= j < Pow2(l) ==> AddMixed(g, e[j], v[l + 1]) == e[Pow2(l) + j]
  }

  /**
   One round: T[i + j] = T[j] + T[i] for j from i - 1 down to 0, so that T[i] is read for
   the last time when it is overwritten.
   */
  method DoubleTable<G(==)>(g: Group<G>, T: array<G>, i: nat, ghost e: seq<G>)
    requires 0 < i && 2 * i <= T.Length && 2 * i <= |e| && T[..i] == e[..i]
    requires forall j :: 0 <= j < i ==> AddMixed(g, e[j], T[i]) == e[i + j]
    modifies T
    ensures T[..2 * i] == e[..2 * i] && T[2 * i..] == old(T[2 * i..])
  {
    ghost var top := T[i];
    var j := i;
    while j > 0
      invariant 0 <= j <= i
      invariant T[..i] == e[..i] && T[i + j..2 * i] == e[i + j..2 * i] && T[2 * i..] == old(T[2 * i..])
      invariant j > 0 ==> T[i] == top
    {
      j := j - 1;
      assert T[j] == T[..i][j] == e[..i][j];
      ghost var t := T[i + j + 1..2 * i];
      T[i + j] := AddMixed(g, T[j], T[i]);
      assert T[i + j..2 * i] == [e[i + j]] + t && e[i + j..2 * i] == [e[i + j]] + e[i + j + 1..2 * i];
    }
    assert T[..2 * i] == T[..i] + T[i..2 * i];
    assert e[..2 * i] == e[..i] + e[i..2 * i];
  }

  lemma SameSuffix<G>(t: seq<G>, t': seq<G>, n: nat, k: nat)
    requires |t| == |t'| && n <= |t| && t[n..] == t'[n..] && n <= k < |t|
    ensures t[k] == t'[k]
  {
    assert t[k] == t[n..][k - n] && t'[k] == t'[n..][k - n];
  }

  lemma SpineKept<G>(t: seq<G>, t': seq<G>, v: seq<G>, l: nat, h: nat)
    requires h < |v| && Spine(t, v, l, h) && |t| == |t'| && 2 * Pow2(l) <= |t| && t[2 * Pow2(l)..] == t'[2 * Pow2(l)..]
    ensures Spine(t', v, l + 1, h)
  {
    forall k | l + 1 <= k < h
      ensures Pow2(k) < |t'| && t'[Pow2(k)] == v[k + 1]
    {
      Pow2Mono(l + 1, k);
      SameSuffix(t, t', 2 * Pow2(l), Pow2(k));
    }
  }

  /** Second loop: all entries, although T[2^l] is overwritten on the way. */
  method FillTable<G(==)>(g: Group<G>, T: array<G>, w: nat, ghost v: seq<G>, ghost e: seq<G>)
    requires 2 <= w == |v| && T.Length == Pow2(w - 1) == |e| && T[0] == e[0] && Spine(T[..], v, 0, w - 1)
    requires forall l :: 0 <= l < w - 1 ==> Joins(g, e, v, l)
    modifies T
    ensures T[..] == e
  {
    var size := Pow2(w - 1);
    var i: nat := 1;
    ghost var l, h := 0, w - 1;
    assert T[..1] == [T[0]] && e[..1] == [e[0]];
    while i < size
      invariant i == Pow2(l) && l <= h && i <= size == T.Length
      invariant T[..i] == e[..i] && Spine(T[..], v, l, h)
      decreases h - l
    {
      SpineBelow(l, h);
      NextRow(g, T, i, l, h, v, e);
      i := 2 * i;
      l := l + 1;
    }
    assert T[..i] == T[..] && e[..i] == e;
  }

  method NextRow<G(==)>(g: Group<G>, T: array<G>, i: nat, ghost l: nat, ghost h: nat, ghost v: seq<G>, ghost e: seq<G>)
    requires i == Pow2(l) && l < h < |v| && i <= T.Length == Pow2(h) == |e|
    requires T[..i] == e[..i] && Spine(T[..], v, l, h) && Joins(g, e, v, l)
    modifies T
    ensures 2 * i <= T.Length && T[..2 * i] == e[..2 * i] && Spine(T[..], v, l + 1, h)
  {
    Pow2Mono(l + 1, h);
    ghost var t := T[..];
    assert t[Pow2(l)] == v[l + 1];
    DoubleTable(g, T, i, e);
    assert t[2 * i..] == T[..][2 * i..];
    SpineKept(t, T[..], v, l, h);
  }

  // the values the two loops aim at

  function Plain<G>(g: Group<G>, k: nat, P: G, d: nat): G {
    Mul(g, Pow2(d * k), P)
  }

  function Entry<G>(g: Group<G>, k: nat, P: G, d: nat): G {
    Mul(g, Slot(k, d), P)
  }

  lemma PlainStep<G(!new)>(g: Group<G>, k: nat, P: G, d: nat)
    requires Abelian(g)
    ensures Plain(g, k + 1, P, d) == DoubleN(g, d, Plain(g, k, P, d))
  {
    DoubleNIsMul(g, d, Pow2(d * k), P);
    Pow2Step(d, k);
  }

  lemma EntryAbove<G(!new)>(g: Group<G>, P: G, d: nat, l: nat, j: nat)
    requires Abelian(g) && j < Pow2(l)
    ensures g.add(Entry(g, j, P, d), Plain(g, l + 1, P, d)) == Entry(g, Pow2(l) + j, P, d)
  {
    MulAdd(g, Slot(j, d), Pow2(d * (l + 1)), P);
    SlotAbove(l, j, d);
  }

  lemma FirstValues<G(!new)>(g: Group<G>, P: G, d: nat)
    requires Abelian(g)
    ensures Plain(g, 0, P, d) == P && Entry(g, 0, P, d) == P
  {
    MulOne(g, P);
    SlotZero(d);
    assert d * 0 == 0;
  }

  function FullTable<G>(g: Group<G>, n: nat, P: G, d: nat): (T: seq<G>)
    ensures |T| == n && IsTable(g, T, P, d)
  {
    seq(n, k requires 0 <= k < n => Entry(g, k, P, d))
  }

  lemma TableUnique<G>(g: Group<G>, T: seq<G>, P: G, d: nat)
    requires IsTable(g, T, P, d)
    ensures T == FullTable(g, |T|, P, d)
  {
  }

  // ----- what the second loop builds, neutral entries included

  /** The position of the highest set bit. */
  function TopBit(k: nat): (l: nat)
    requires k > 0
    ensures Pow2(l) <= k < 2 * Pow2(l)
  {
    NumBitsBounds(k);
    NumBits(k) - 1
  }

  lemma TopBitIs(l: nat, j: nat)
    requires j < Pow2(l)
    ensures TopBit(Pow2(l) + j) == l
  {
    NumBitsIs(Pow2(l) + j, l + 1);
  }

  function Built<G(==)>(g: Group<G>, k: nat, P: G, d: nat): G
    decreases k
  {
    if k == 0 then P
    else
      var l := TopBit(k);
      AddMixed(g, Built(g, k - Pow2(l), P, d), Plain(g, l + 1, P, d))
  }

  /** No entry but possibly the first is neutral. */
  ghost predicate NoNeutral<G>(g: Group<G>, P: G, d: nat, n: nat) {
    forall k :: 0 < k < n ==> Entry(g, k, P, d) != g.zero
  }

  ghost predicate NoNeutralBuilt<G>(g: Group<G>, P: G, d: nat, n: nat) {
    forall k :: 0 < k < n ==> Built(g, k, P, d) != g.zero
  }

  /** As long as nothing neutral has been built, the entries are the multiples they should be. */
  lemma {:induction false} BuiltIsEntry<G(!new)>(g: Group<G>, k: nat, P: G, d: nat)
    requires Abelian(g) && P != g.zero && NoNeutralBuilt(g, P, d, k)
    ensures Built(g, k, P, d) == Entry(g, k, P, d)
    decreases k
  {
    if k == 0 {
      FirstValues(g, P, d);
    } else {
      var l := TopBit(k);
      var j := k - Pow2(l);
      BuiltIsEntry(g, j, P, d);
      EntryAbove(g, P, d, l, j);
      if j > 0 {
        assert Built(g, j, P, d) != g.zero;
      }
    }
  }

  /** Something neutral is built exactly when some entry should be neutral. */
  lemma {:induction false} NeutralAgrees<G(!new)>(g: Group<G>, P: G, d: nat, n: nat)
    requires Abelian(g) && P != g.zero
    ensures NoNeutralBuilt(g, P, d, n) <==> NoNeutral(g, P, d, n)
    decreases n
  {
    if n > 1 {
      NeutralAgrees(g, P, d, n - 1);
      if NoNeutralBuilt(g, P, d, n - 1) {
        BuiltIsEntry(g, n - 1, P, d);
      } else {
        var k :| 0 < k < n - 1 && Built(g, k, P, d) == g.zero;
        var k' :| 0 < k' < n - 1 && Entry(g, k', P, d) == g.zero;
      }
    }
  }

  lemma AllJoin<G(!new)>(g: Group<G>, P: G, d: nat, w: nat, v: seq<G>, e: seq<G>)
    requires |v| == w >= 1 && |e| == Pow2(w - 1)
    requires forall k :: 0 <= k < |v| ==> v[k] == Plain(g, k, P, d)
    requires forall k :: 0 <= k < |e| ==> e[k] == Built(g, k, P, d)
    ensures forall l :: 0 <= l < w - 1 ==> Joins(g, e, v, l)
  {
    forall l | 0 <= l < w - 1
      ensures Joins(g, e, v, l)
    {
      Pow2Mono(l + 1, w - 1);
      forall j | 0 <= j < Pow2(l)
        ensures AddMixed(g, e[j], v[l + 1]) == e[Pow2(l) + j]
      {
        TopBitIs(l, j);
      }
    }
  }

  // ----- the two normalisations

  /** What ecp_normalize_jac_many accepts: a lone point always, several only if none is neutral. */
  ghost predicate Normalisable<G>(g: Group<G>, points: seq<G>) {
    |points| == 1 || forall k :: 0 <= k < |points| ==> points[k] != g.zero
  }

  /** Neutral means Z = 0, so modulo a prime this is the success condition of BatchNormalise.NormalizeJacMany. */
  lemma NormalisableCoordinates(z: seq<nat>, p: nat)
    requires Prime(p) && |z| >= 1 && forall k :: 0 <= k < |z| ==> z[k] < p
    ensures (|z| == 1 && z[0] == 0) || (forall k :: 0 <= k < |z| ==> Coprime(z[k], p))
            <==> |z| == 1 || forall k :: 0 <= k < |z| ==> z[k] != 0
  {
    forall k | 0 <= k < |z|
      ensures Coprime(z[k], p) <==> z[k] != 0
    {
      PrimeDividesOrCoprime(z[k], p);
      if z[k] == 0 {
        ModUnique(0, 0, 0, p);
      } else {
        PrimeCoprime(z[k], p);
      }
    }
  }

  /** The running product of the Z coordinates becomes zero, and stays so, at a neutral point. */
  method Normalize<G(==)>(g: Group<G>, points: seq<G>) returns (ok: bool)
    requires |points| >= 1
    ensures ok <==> Normalisable(g, points)
  {
    if |points| < 2 {
      return true;
    }
    ok := points[0] != g.zero;
    var i := 1;
    while i < |points|
      invariant 1 <= i <= |points| && (ok <==> forall k :: 0 <= k < i ==> points[k] != g.zero)
    {
      ok := ok && points[i] != g.zero;
      i := i + 1;
    }
  }

  /** When the build succeeds: two teeth always, more only if neither a plain multiple nor an entry is neutral. */
  ghost predicate Accepts<G>(g: Group<G>, P: G, w: nat, d: nat)
    requires w >= 2
  {
    w == 2 || ((forall k :: 0 < k < w ==> Plain(g, k, P, d) != g.zero) && NoNeutral(g, P, d, Pow2(w - 1)))
  }

  lemma TwoTeeth<G(!new)>(g: Group<G>, P: G, d: nat)
    requires Abelian(g) && P != g.zero
    ensures forall k :: 0 <= k < 2 ==> Built(g, k, P, d) == Entry(g, k, P, d)
  {
    BuiltIsEntry(g, 0, P, d);
    BuiltIsEntry(g, 1, P, d);
  }

  /** The points of the first normalisation: the plain multiples, in the slots 1, 2, 4, ... */
  lemma SpineValues<G(!new)>(g: Group<G>, P: G, w: nat, d: nat) returns (v: seq<G>)
    requires Abelian(g) && w >= 1
    ensures |v| == w && v[0] == P && forall k :: 0 <= k < w ==> v[k] == Plain(g, k, P, d)
    ensures forall k :: 0 <= k < w - 1 ==> v[k + 1] == DoubleN(g, d, v[k])
  {
    v := seq(w, k requires k >= 0 => Plain(g, k, P, d));
    FirstValues(g, P, d);
    forall k | 0 <= k < w - 1
      ensures v[k + 1] == DoubleN(g, d, v[k])
    {
      PlainStep(g, k, P, d);
    }
  }

  lemma SpinePoints<G>(g: Group<G>, P: G, w: nat, d: nat, v: seq<G>)
    requires w >= 2 && |v| == w && forall k :: 0 <= k < |v| ==> v[k] == Plain(g, k, P, d)
    ensures Normalisable(g, v[1..]) <==> w == 2 || forall k :: 0 < k < w ==> Plain(g, k, P, d) != g.zero
  {
    forall k | 0 < k < w
      ensures v[1..][k - 1] == Plain(g, k, P, d)
    {
    }
  }

  /** The points of the second normalisation: every slot but the first. */
  lemma TablePoints<G(!new)>(g: Group<G>, P: G, w: nat, d: nat, e: seq<G>)
    requires Abelian(g) && P != g.zero && w >= 2 && |e| == Pow2(w - 1)
    requires forall k :: 0 <= k < |e| ==> e[k] == Built(g, k, P, d)
    ensures Normalisable(g, e[1..]) <==> w == 2 || NoNeutral(g, P, d, |e|)
    ensures Normalisable(g, e[1..]) ==> IsTable(g, e, P, d)
  {
    NeutralAgrees(g, P, d, |e|);
    assert forall k :: 0 < k < |e| ==> e[1..][k - 1] == Built(g, k, P, d);
    if w == 2 {
      assert Pow2(1) == 2;
      TwoTeeth(g, P, d);
    } else {
      Pow2Mono(2, w - 1);
      assert Pow2(2) == 4;
      if NoNeutral(g, P, d, |e|) {
        forall k | 0 <= k < |e|
          ensures e[k] == Entry(g, k, P, d)
        {
          BuiltIsEntry(g, k, P, d);
        }
      }
    }
  }

  /** T[k] = P + sum over the set bits l of k of 2^(d(l+1)) P, or a refusal exactly when a normalisation fails. */
  method PrecomputeComb<G(==,!new)>(g: Group<G>, T: array<G>, P: G, w: nat, d: nat) returns (ok: bool)
    requires Abelian(g) && 2 <= w && T.Length == Pow2(w - 1) && P != g.zero
    modifies T
    ensures ok <==> Accepts(g, P, w, d)
    ensures ok ==> IsTable(g, T[..], P, d)
  {
    ghost var v := SpineValues(g, P, w, d);
    ghost var e := seq(Pow2(w - 1), k requires k >= 0 => Built(g, k, P, d));
    FirstValues(g, P, d);
    var TT := FillSpine(g, T, P, w, d, v);
    SpinePoints(g, P, w, d, v);
    ok := Normalize(g, TT);
    if !ok {
      return;
    }
    AllJoin(g, P, d, w, v, e);
    FillTable(g, T, w, v, e);
    TablePoints(g, P, w, d, e);
    Pow2Mono(1, w - 1);
    ok := Normalize(g, T[1..]);
    assert T[1..] == e[1..];
  }

  /** With an odd order the plain multiples are never neutral. */
  lemma {:induction false} PowerNotKilled<G(!new)>(g: Group<G>, n: int, P: G, k: nat)
    requires Abelian(g) && n % 2 == 1 && Mul(g, n, P) == g.zero && P != g.zero
    ensures Mul(g, Pow2(k), P) != g.zero
  {
    if k == 0 {
      MulOne(g, P);
    } else {
      PowerNotKilled(g, n, P, k - 1);
      if Mul(g, Pow2(k), P) == g.zero {
        OddOrderDouble(g, n, Pow2(k - 1), P);
      }
    }
  }

  /** So the build is refused exactly for a neutral entry and more than two teeth. */
  lemma AcceptsIff<G(!new)>(g: Group<G>, n: int, P: G, w: nat, d: nat)
    requires Abelian(g) && n % 2 == 1 && Mul(g, n, P) == g.zero && P != g.zero && w >= 2
    ensures Accepts(g, P, w, d) <==> w == 2 || NoNeutral(g, P, d, Pow2(w - 1))
  {
    forall k | 0 < k < w
      ensures Plain(g, k, P, d) != g.zero
    {
      PowerNotKilled(g, n, P, d * k);
    }
  }
}
