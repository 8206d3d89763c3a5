/**
 Little-endian limb sequences and the number they stand for.

 A limb is one `mbedtls_mpi_uint` of the 64-bit build.  `Val` is the number a limb sequence denotes,
 `Pow(n)` is the weight of limb `n`, and the lemmas below are the only facts about them that the
 in-place carry loops need.
 */
module Limbs {
  import opened Arith

  const BITS: nat := 64
  const BASE: nat := 0x1_0000_0000_0000_0000

  type Limb = x: int | 0 <= x < BASE

  function Pow(n: nat): (r: nat)
    ensures r >= 1
  {
    if n == 0 then 1 else BASE * Pow(n - 1)
  }

  function Val(s: seq<Limb>): (r: nat)
  {
    if |s| == 0 then 0 else s[0] + BASE * Val(s[1..])
  }

  /** Word addition and subtraction, wrapping at the limb width. */
  function AddW(a: Limb, b: Limb): Limb {
    if a + b < BASE then a + b else a + b - BASE
  }

  function SubW(a: Limb, b: Limb): Limb {
    if a >= b then a - b else a - b + BASE
  }

  function Zeros(n: nat): (z: seq<Limb>)
    ensures |z| == n && forall i :: 0 <= i < n ==> z[i] == 0
  {
    seq(n, _ => 0)
  }

  lemma PowAdd(a: nat, b: nat)
    ensures Pow(a + b) == Pow(a) * Pow(b)
  {
    if a > 0 {
      PowAdd(a - 1, b);
      Assoc(BASE, Pow(a - 1), Pow(b));
    }
  }

  lemma PowMono(a: nat, b: nat)
    requires a <= b
    ensures Pow(a) <= Pow(b)
  {
    if a < b {
      PowMono(a, b - 1);
    }
  }

  /** The value splits at any limb boundary. */
  lemma {:induction false} ValSplit(s: seq<Limb>, i: nat)
    requires i <= |s|
    ensures Val(s) == Val(s[..i]) + Pow(i) * Val(s[i..])
  {
    if i == 0 {
      assert s[0..] == s;
    } else {
      ValSplit(s[1..], i - 1);
      assert s[1..][i - 1..] == s[i..] && s[..i][1..] == s[1..][..i - 1];
      Assoc(BASE, Pow(i - 1), Val(s[i..]));
      Distribute(BASE, Val(s[1..i]), Pow(i - 1) * Val(s[i..]));
      assert s[..i][1..] == s[1..i];
    }
  }

  lemma ValConcat(a: seq<Limb>, b: seq<Limb>)
    ensures Val(a + b) == Val(a) + Pow(|a|) * Val(b)
  {
    ValSplit(a + b, |a|);
    assert (a + b)[..|a|] == a && (a + b)[|a|..] == b;
  }

  lemma {:induction false} ValBound(s: seq<Limb>)
    ensures Val(s) < Pow(|s|)
  {
    if |s| > 0 {
      ValBound(s[1..]);
    }
  }

  /** Overwriting limb `i` moves the value by the difference times the limb's weight. */
  lemma {:induction false} ValUpdate(s: seq<Limb>, i: nat, x: Limb)
    requires i < |s|
    ensures Val(s[i := x]) == Val(s) + (x - s[i]) * Pow(i)
  {
    var t := s[i := x];
    if i == 0 {
      assert t[1..] == s[1..];
    } else {
      ValUpdate(s[1..], i - 1, x);
      assert t[1..] == s[1..][i - 1 := x];
      Rotate(BASE, x - s[i], Pow(i - 1));
      Assoc(BASE, x - s[i], Pow(i - 1));
    }
  }

  /** One more limb of a prefix. */
  lemma ValPrefix(s: seq<Limb>, i: nat)
    requires i < |s|
    ensures Val(s[..i + 1]) == Val(s[..i]) + s[i] * Pow(i)
  {
    assert s[..i + 1] == s[..i] + [s[i]];
    ValConcat(s[..i], [s[i]]);
    assert Val([s[i]]) == s[i] + BASE * Val([]);
  }

  lemma {:induction false} ValZeros(s: seq<Limb>)
    requires forall i :: 0 <= i < |s| ==> s[i] == 0
    ensures Val(s) == 0
  {
    if |s| > 0 {
      ValZeros(s[1..]);
    }
  }

  /** Zero limbs on top do not change the value. */
  lemma ValTrim(s: seq<Limb>, i: nat)
    requires i <= |s|
    requires forall k :: i <= k < |s| ==> s[k] == 0
    ensures Val(s) == Val(s[..i])
  {
    ValSplit(s, i);
    ValZeros(s[i..]);
  }

  /** A nonzero top limb bounds the value from below. */
  lemma ValTop(s: seq<Limb>)
    requires |s| > 0
    ensures s[|s| - 1] * Pow(|s| - 1) <= Val(s) < (s[|s| - 1] + 1) * Pow(|s| - 1)
  {
    var n := |s| - 1;
    ValPrefix(s, n);
    assert s[..n + 1] == s;
    ValBound(s[..n]);
  }
}
