/** The 32-bit view of a limb array: LOAD32 and STORE32 of the 64-bit build. */
module Chunks {
  import opened Arith
  import opened Limbs

  const W: nat := 0x1_0000_0000

  type Word = x: int | 0 <= x < W

  /** A(j). */
  function Half(p: seq<Limb>, j: nat): Word
    requires j < 2 * |p|
  {
    if j % 2 == 1 then p[j / 2] / W else p[j / 2] % W
  }

  /** STORE32. */
  function StoreHalf(p: seq<Limb>, i: nat, cur: Word): (q: seq<Limb>)
    requires i < 2 * |p|
    ensures |q| == |p|
  {
    if i % 2 == 1 then p[i / 2 := p[i / 2] % W + cur * W] else p[i / 2 := (p[i / 2] / W) * W + cur]
  }

  function Words(p: seq<Limb>): (a: seq<Word>)
    ensures |a| == 2 * |p|
  {
    seq(2 * |p|, j requires 0 <= j < 2 * |p| => Half(p, j))
  }

  lemma WordsStore(p: seq<Limb>, i: nat, cur: Word)
    requires i < 2 * |p|
    ensures Words(StoreHalf(p, i, cur)) == Words(p)[i := cur]
  {
    var q := StoreHalf(p, i, cur);
    forall j | 0 <= j < 2 * |p|
      ensures Half(q, j) == if j == i then cur else Half(p, j)
    {
      if j / 2 == i / 2 {
        var x: Limb := p[i / 2];
        ModUnique(x % W + cur * W, cur, x % W, W);
        ModUnique((x / W) * W + cur, x / W, cur, W);
        assert j == 2 * (j / 2) + j % 2 && i == 2 * (i / 2) + i % 2;
      }
    }
  }

  function Pow32(n: nat): (r: nat)
    ensures r >= 1
  {
    if n == 0 then 1 else W * Pow32(n - 1)
  }

  /** The number held by words i .. n-1, word i least significant. */
  function ValFrom(a: seq<Word>, i: nat, n: nat): (v: nat)
    requires i <= n <= |a|
    decreases n - i
  {
    if i == n then 0 else a[i] + W * ValFrom(a, i + 1, n)
  }

  lemma {:induction false} ValFromSplit(a: seq<Word>, i: nat, m: nat, n: nat)
    requires i <= m <= n <= |a|
    ensures ValFrom(a, i, n) == ValFrom(a, i, m) + Pow32(m - i) * ValFrom(a, m, n)
    decreases m - i
  {
    if i < m {
      ValFromSplit(a, i + 1, m, n);
      Assoc(W, Pow32(m - i - 1), ValFrom(a, m, n));
    }
  }

  lemma {:induction false} ValFromSame(a: seq<Word>, b: seq<Word>, i: nat, n: nat)
    requires i <= n <= |a| && n <= |b| && forall k :: i <= k < n ==> a[k] == b[k]
    ensures ValFrom(a, i, n) == ValFrom(b, i, n)
    decreases n - i
  {
    if i < n {
      ValFromSame(a, b, i + 1, n);
    }
  }

  lemma {:induction false} ValFromZero(a: seq<Word>, i: nat, n: nat)
    requires i <= n <= |a| && forall k :: i <= k < n ==> a[k] == 0
    ensures ValFrom(a, i, n) == 0
    decreases n - i
  {
    if i < n {
      ValFromZero(a, i + 1, n);
    }
  }

  lemma {:induction false} ValFromBound(a: seq<Word>, i: nat, n: nat)
    requires i <= n <= |a|
    ensures ValFrom(a, i, n) < Pow32(n - i)
    decreases n - i
  {
    if i < n {
      ValFromBound(a, i + 1, n);
    }
  }

  /** The words and the limbs hold the same number. */
  lemma {:induction false} WordsValue(p: seq<Limb>, i: nat)
    requires i <= |p|
    ensures ValFrom(Words(p), 2 * i, 2 * |p|) == Val(p[i..])
    decreases |p| - i
  {
    var a := Words(p);
    if i < |p| {
      WordsValue(p, i + 1);
      assert p[i..][1..] == p[i + 1..];
      assert a[2 * i] == p[i] % W && a[2 * i + 1] == p[i] / W;
      assert ValFrom(a, 2 * i, 2 * |p|) == a[2 * i] + W * ValFrom(a, 2 * i + 1, 2 * |p|);
      assert ValFrom(a, 2 * i + 1, 2 * |p|) == a[2 * i + 1] + W * ValFrom(a, 2 * (i + 1), 2 * |p|);
    }
  }

  lemma PowIsPow32(n: nat)
    ensures Pow(n) == Pow32(2 * n)
  {
    if n > 0 {
      PowIsPow32(n - 1);
      assert Pow32(2 * n) == W * Pow32(2 * n - 1) && Pow32(2 * n - 1) == W * Pow32(2 * (n - 1));
    }
  }
}
