/** CCM authenticated encryption (NIST SP 800-38C, RFC 3610) over a 16-byte block cipher. */
module Ccm {
  import opened Bits
  import opened ByteStrings
  import opened Sequences
  import opened Cbc

  // ----- the formatting function

  /** The parameters the code accepts, once q = 15 - |nonce| is known. */
  predicate Acceptable(nonce: Bytes, aad: Bytes, length: nat, t: nat) {
    && 4 <= t <= 16 && t % 2 == 0 && 7 <= |nonce| <= 13 && |aad| <= 0xFF00
    && length < Pow256(15 - |nonce|)
  }

  /** Flags of the first block: data present, tag length, length of the length. */
  function Flags(hasAad: bool, t: nat, q: nat): (f: Byte)
    requires 4 <= t <= 16 && 2 <= q <= 8
  {
    (if hasAad then 64 else 0) + 8 * ((t - 2) / 2) + (q - 1)
  }

  function FirstBlock(nonce: Bytes, hasAad: bool, length: nat, t: nat): (b: Bytes)
    requires 4 <= t <= 16 && 7 <= |nonce| <= 13
    ensures |b| == 16
  {
    [Flags(hasAad, t, 15 - |nonce|)] + nonce + ToBigEndian(length, 15 - |nonce|)
  }

  function Fill(k: nat): (z: nat)
    ensures z < 16
  {
    if k % 16 == 0 then 0 else 16 - k % 16
  }

  /** Zeros up to the next block boundary. */
  function ZeroPad(s: Bytes): (r: Bytes)
    ensures |s| <= |r| < |s| + 16 && s <= r
  {
    s + Repeat(0, Fill(|s|))
  }

  function EncodedAad(aad: Bytes): (r: Bytes)
    requires |aad| <= 0xFF00
    ensures |aad| > 0 ==> |r| >= 3
  {
    if |aad| == 0 then [] else ZeroPad([|aad| / 256, |aad| % 256] + aad)
  }

  /** The blocks that go through CBC-MAC. */
  function Format(nonce: Bytes, aad: Bytes, m: Bytes, t: nat): (r: Bytes)
    requires Acceptable(nonce, aad, |m|, t)
  {
    FirstBlock(nonce, |aad| > 0, |m|, t) + (EncodedAad(aad) + ZeroPad(m))
  }

  /** The flags determine their three parts. */
  lemma FlagsInjective(h1: bool, t1: nat, q1: nat, h2: bool, t2: nat, q2: nat)
    requires 4 <= t1 <= 16 && 2 <= q1 <= 8 && 4 <= t2 <= 16 && 2 <= q2 <= 8 && t1 % 2 == 0 && t2 % 2 == 0
    requires Flags(h1, t1, q1) == Flags(h2, t2, q2)
    ensures h1 == h2 && t1 == t2 && q1 == q2
  {
  }

  lemma ThreeParts(f: Byte, n: Bytes, l: Bytes)
    ensures var b := [f] + n + l; b[0] == f && b[1..1 + |n|] == n && b[1 + |n|..] == l
  {
  }

  lemma FirstBlockInjective(n1: Bytes, h1: bool, l1: nat, t1: nat, n2: Bytes, h2: bool, l2: nat, t2: nat)
    requires 4 <= t1 <= 16 && 7 <= |n1| <= 13 && 4 <= t2 <= 16 && 7 <= |n2| <= 13 && t1 % 2 == 0 && t2 % 2 == 0
    requires l1 < Pow256(15 - |n1|) && l2 < Pow256(15 - |n2|)
    requires FirstBlock(n1, h1, l1, t1) == FirstBlock(n2, h2, l2, t2)
    ensures n1 == n2 && h1 == h2 && l1 == l2 && t1 == t2
  {
    var q1, q2 := 15 - |n1|, 15 - |n2|;
    ThreeParts(Flags(h1, t1, q1), n1, ToBigEndian(l1, q1));
    ThreeParts(Flags(h2, t2, q2), n2, ToBigEndian(l2, q2));
    assert Flags(h1, t1, q1) == FirstBlock(n1, h1, l1, t1)[0] == Flags(h2, t2, q2);
    FlagsInjective(h1, t1, q1, h2, t2, q2);
    assert ToBigEndian(l1, q1) == ToBigEndian(l2, q2);
    BigEndianInverse(l1, q1);
    BigEndianInverse(l2, q2);
  }

  lemma ZeroPadInjective(a: Bytes, b: Bytes)
    requires |a| == |b| && ZeroPad(a) == ZeroPad(b)
    ensures a == b
  {
    assert a == ZeroPad(a)[..|a|] && b == ZeroPad(b)[..|b|];
  }

  /** Two data strings whose encodings start alike have the same length. */
  lemma AadLength(a1: Bytes, a2: Bytes, s1: Bytes, s2: Bytes)
    requires 0 < |a1| <= 0xFF00 && 0 < |a2| <= 0xFF00 && EncodedAad(a1) + s1 <= EncodedAad(a2) + s2
    ensures |a1| == |a2|
  {
    var e1, e2 := EncodedAad(a1) + s1, EncodedAad(a2) + s2;
    assert e1[0] == |a1| / 256 && e1[1] == |a1| % 256 && e2[0] == |a2| / 256 && e2[1] == |a2| % 256;
    assert e1[0] == e2[0] && e1[1] == e2[1];
  }

  lemma AadInjective(a1: Bytes, a2: Bytes)
    requires |a1| == |a2| <= 0xFF00 && EncodedAad(a1) == EncodedAad(a2)
    ensures a1 == a2
  {
    if |a1| > 0 {
      ZeroPadInjective([|a1| / 256, |a1| % 256] + a1, [|a2| / 256, |a2| % 256] + a2);
      assert a1 == ([|a1| / 256, |a1| % 256] + a1)[2..] && a2 == ([|a2| / 256, |a2| % 256] + a2)[2..];
    }
  }

  /** No formatted input is a prefix of another: the format is injective and prefix-free. */
  lemma FormatPrefixFree(n1: Bytes, a1: Bytes, m1: Bytes, t1: nat, n2: Bytes, a2: Bytes, m2: Bytes, t2: nat)
    requires Acceptable(n1, a1, |m1|, t1) && Acceptable(n2, a2, |m2|, t2)
    requires Format(n1, a1, m1, t1) <= Format(n2, a2, m2, t2)
    ensures n1 == n2 && a1 == a2 && m1 == m2 && t1 == t2
  {
    var f1, f2 := Format(n1, a1, m1, t1), Format(n2, a2, m2, t2);
    var b1, b2 := FirstBlock(n1, |a1| > 0, |m1|, t1), FirstBlock(n2, |a2| > 0, |m2|, t2);
    assert f1[..16] == b1 && f2[..16] == b2 && f1 == f2[..|f1|];
    FirstBlockInjective(n1, |a1| > 0, |m1|, t1, n2, |a2| > 0, |m2|, t2);
    var r1, r2 := EncodedAad(a1) + ZeroPad(m1), EncodedAad(a2) + ZeroPad(m2);
    assert f1[16..] == r1 && f2[16..] == r2;
    RestPrefixFree(a1, m1, a2, m2);
  }

  lemma RestPrefixFree(a1: Bytes, m1: Bytes, a2: Bytes, m2: Bytes)
    requires |a1| <= 0xFF00 && |a2| <= 0xFF00 && |m1| == |m2| && (|a1| > 0 <==> |a2| > 0)
    requires EncodedAad(a1) + ZeroPad(m1) <= EncodedAad(a2) + ZeroPad(m2)
    ensures a1 == a2 && m1 == m2
  {
    if |a1| > 0 {
      AadLength(a1, a2, ZeroPad(m1), ZeroPad(m2));
    }
    SplitEqual(EncodedAad(a1), ZeroPad(m1), EncodedAad(a2), ZeroPad(m2));
    AadInjective(a1, a2);
    ZeroPadInjective(m1, m2);
  }

  lemma SplitEqual(a: Bytes, b: Bytes, c: Bytes, d: Bytes)
    requires |a| == |c| && |b| == |d| && a + b <= c + d
    ensures a == c && b == d
  {
    var x, y := a + b, c + d;
    assert x == y;
    assert a == x[..|a|] && c == y[..|a|] && b == x[|a|..] && d == y[|a|..];
  }

  // ----- counters

  function CounterBlock(nonce: Bytes, i: nat): (b: Bytes)
    requires 7 <= |nonce| <= 13
    ensures |b| == 16
  {
    [14 - |nonce|] + nonce + ToBigEndian(i, 15 - |nonce|)
  }

  /** Counter blocks of different counters differ as long as the counters fit their field. */
  lemma CounterInjective(nonce: Bytes, i: nat, j: nat)
    requires 7 <= |nonce| <= 13 && i < Pow256(15 - |nonce|) && j < Pow256(15 - |nonce|)
    requires CounterBlock(nonce, i) == CounterBlock(nonce, j)
    ensures i == j
  {
    var k := 1 + |nonce|;
    assert ToBigEndian(i, 16 - k) == CounterBlock(nonce, i)[k..]
        && ToBigEndian(j, 16 - k) == CounterBlock(nonce, j)[k..];
    BigEndianInverse(i, 16 - k);
    BigEndianInverse(j, 16 - k);
  }

  ghost predicate CcmCipher(c: Cipher) {
    BlockCipher(c) && c.n == 16
  }

  /** m under the key stream of counters i, i + 1, ... */
  function CtrCrypt(c: Cipher, nonce: Bytes, m: Bytes, i: nat): (r: Bytes)
    requires CcmCipher(c) && 7 <= |nonce| <= 13
    ensures |r| == |m|
    decreases |m|
  {
    assert Inverts(c, CounterBlock(nonce, i));
    var s := c.enc(CounterBlock(nonce, i));
    if |m| <= 16 then XorSeq(m, s) else XorSeq(m[..16], s) + CtrCrypt(c, nonce, m[16..], i + 1)
  }

  lemma {:induction false} CtrInverse(c: Cipher, nonce: Bytes, m: Bytes, i: nat)
    requires CcmCipher(c) && 7 <= |nonce| <= 13
    ensures CtrCrypt(c, nonce, CtrCrypt(c, nonce, m, i), i) == m
    decreases |m|
  {
    assert Inverts(c, CounterBlock(nonce, i));
    var s := c.enc(CounterBlock(nonce, i));
    if |m| <= 16 {
      XorSeqCancel(m, s);
    } else {
      CtrInverse(c, nonce, m[16..], i + 1);
      var x, rest := XorSeq(m[..16], s), CtrCrypt(c, nonce, m[16..], i + 1);
      var y := x + rest;
      assert y == CtrCrypt(c, nonce, m, i);
      assert y[..16] == x && y[16..] == rest;
      assert CtrCrypt(c, nonce, y, i) == XorSeq(x, s) + m[16..];
      XorSeqCancel(m[..16], s);
      assert m == m[..16] + m[16..];
    }
  }

  /** The tag of a message. */
  function Tag(c: Cipher, nonce: Bytes, aad: Bytes, m: Bytes, t: nat): (r: Bytes)
    requires CcmCipher(c) && Acceptable(nonce, aad, |m|, t)
    ensures |r| == t
  {
    assert Inverts(c, CounterBlock(nonce, 0));
    XorSeq(IvAfter(c, Encrypt, Repeat(0, 16), Format(nonce, aad, m, t)), c.enc(CounterBlock(nonce, 0)))[..t]
  }

  // ----- the same field by field, after appendix A of NIST SP 800-38C

  /** The next multiple of 16. */
  function Up16(k: nat): (n: nat)
    ensures n == k + Fill(k) && n % 16 == 0
  {
    (k + 15) / 16 * 16
  }

  /** b holds s at offset i, and zeros behind it up to offset j. */
  ghost predicate Field(b: Bytes, i: nat, s: Bytes, j: nat) {
    i + |s| <= j <= |b| && b[i..i + |s|] == s && forall k :: i + |s| <= k < j ==> b[k] == 0
  }

  /** Where the payload begins: behind the first block and the additional data with its two length bytes. */
  function PayloadAt(aad: Bytes): nat {
    16 + if |aad| == 0 then 0 else Up16(2 + |aad|)
  }

  ghost predicate IsFormat(nonce: Bytes, aad: Bytes, m: Bytes, t: nat, b: Bytes)
    requires 4 <= t && 7 <= |nonce| <= 13
  {
    var e := PayloadAt(aad);
    && |b| == e + Up16(|m|)
    && b[0] == (if |aad| > 0 then 64 else 0) + 8 * ((t - 2) / 2) + (14 - |nonce|)
    && b[1..1 + |nonce|] == nonce && BigEndian(b[1 + |nonce|..16]) == |m|
    && (|aad| > 0 ==> BigEndian(b[16..18]) == |aad| && Field(b, 18, aad, e))
    && Field(b, e, m, |b|)
  }

  ghost predicate IsCounter(nonce: Bytes, i: nat, b: Bytes)
    requires 7 <= |nonce| <= 13
  {
    |b| == 16 && b[0] == 14 - |nonce| && b[1..1 + |nonce|] == nonce && BigEndian(b[1 + |nonce|..]) == i
  }

  /** Byte k goes with byte k % 16 of the enciphered counter 1 + k / 16. */
  ghost predicate IsCtr(c: Cipher, nonce: Bytes, m: Bytes, r: Bytes)
    requires CcmCipher(c) && 7 <= |nonce| <= 13
  {
    |r| == |m| && forall k: nat, b: Bytes :: k < |m| ==> CtrByte(c, nonce, m, r, k, b)
  }

  ghost predicate CtrByte(c: Cipher, nonce: Bytes, m: Bytes, r: Bytes, k: nat, b: Bytes)
    requires 7 <= |nonce| <= 13 && k < |m| == |r|
  {
    IsCounter(nonce, 1 + k / 16, b) ==> |c.enc(b)| == 16 && r[k] == XorBytes(m[k], c.enc(b)[k % 16])
  }

  /** The last block of the CBC encryption of the formatted input from a zero block, masked with counter 0. */
  ghost predicate IsTag(c: Cipher, nonce: Bytes, aad: Bytes, m: Bytes, t: nat, tag: Bytes)
    requires CcmCipher(c) && 4 <= t && 7 <= |nonce| <= 13
  {
    exists b, e, s :: IsFormat(nonce, aad, m, t, b) && IsCbc(c, Encrypt, Repeat(0, 16), b, e)
      && IsCounter(nonce, 0, s) && Masks(c, s, e, t, tag)
  }

  ghost predicate Masks(c: Cipher, s: Bytes, e: Bytes, t: nat, tag: Bytes) {
    |e| >= 16 && |c.enc(s)| == 16 && t <= 16 && tag == XorSeq(e[|e| - 16..], c.enc(s))[..t]
  }

  lemma CounterBlockIs(nonce: Bytes, i: nat)
    requires 7 <= |nonce| <= 13 && i < Pow256(15 - |nonce|)
    ensures IsCounter(nonce, i, CounterBlock(nonce, i))
  {
    var q := 15 - |nonce|;
    ThreeParts(q - 1, nonce, ToBigEndian(i, q));
    BigEndianInverse(i, q);
  }

  lemma CounterUnique(nonce: Bytes, i: nat, b: Bytes)
    requires 7 <= |nonce| <= 13 && IsCounter(nonce, i, b)
    ensures b == CounterBlock(nonce, i)
  {
    var q := 15 - |nonce|;
    var f := b[1 + |nonce|..];
    BigEndianBound(f);
    BigEndianInverse(i, q);
    BigEndianInjective(f, ToBigEndian(i, q));
    assert b == [b[0]] + b[1..1 + |nonce|] + f;
  }

  lemma {:induction false} CtrAt(c: Cipher, nonce: Bytes, m: Bytes, i: nat, k: nat)
    requires CcmCipher(c) && 7 <= |nonce| <= 13 && k < |m|
    ensures var s := c.enc(CounterBlock(nonce, i + k / 16));
            |s| == 16 && CtrCrypt(c, nonce, m, i)[k] == XorBytes(m[k], s[k % 16])
    decreases |m|
  {
    assert Inverts(c, CounterBlock(nonce, i));
    if k < 16 {
      assert k / 16 == 0 && k % 16 == k;
    } else {
      assert (k - 16) / 16 == k / 16 - 1 && (k - 16) % 16 == k % 16;
      CtrAt(c, nonce, m[16..], i + 1, k - 16);
    }
  }

  lemma CtrCryptIs(c: Cipher, nonce: Bytes, m: Bytes)
    requires CcmCipher(c) && 7 <= |nonce| <= 13
    ensures IsCtr(c, nonce, m, CtrCrypt(c, nonce, m, 1))
  {
    forall k: nat, b: Bytes | k < |m|
      ensures CtrByte(c, nonce, m, CtrCrypt(c, nonce, m, 1), k, b)
    {
      if IsCounter(nonce, 1 + k / 16, b) {
        CounterUnique(nonce, 1 + k / 16, b);
        CtrAt(c, nonce, m, 1, k);
      }
    }
  }

  lemma FirstBlockIs(nonce: Bytes, hasAad: bool, length: nat, t: nat)
    requires 4 <= t <= 16 && 7 <= |nonce| <= 13 && length < Pow256(15 - |nonce|)
    ensures var b := FirstBlock(nonce, hasAad, length, t);
            && b[0] == (if hasAad then 64 else 0) + 8 * ((t - 2) / 2) + (14 - |nonce|)
            && b[1..1 + |nonce|] == nonce && BigEndian(b[1 + |nonce|..]) == length
  {
    var q := 15 - |nonce|;
    ThreeParts(Flags(hasAad, t, q), nonce, ToBigEndian(length, q));
    BigEndianInverse(length, q);
  }

  lemma EncodedAadIs(aad: Bytes)
    requires 0 < |aad| <= 0xFF00
    ensures var e := EncodedAad(aad);
            |e| == Up16(2 + |aad|) && |e| >= 2 && BigEndian(e[..2]) == |aad| && Field(e, 2, aad, |e|)
  {
    var l: Bytes := [|aad| / 256, |aad| % 256];
    var e := EncodedAad(aad);
    assert e == l + aad + Repeat(0, Fill(2 + |aad|));
    assert e[..2] == l && e[2..2 + |aad|] == aad;
    assert BigEndian(l) == BigEndian([|aad| / 256]) * 256 + |aad| % 256 by {
      assert l[..1] == [|aad| / 256];
    }
    assert BigEndian([|aad| / 256]) == |aad| / 256 by {
      assert [|aad| / 256][..0] == [];
    }
  }

  lemma AadEnds(aad: Bytes)
    requires |aad| <= 0xFF00
    ensures PayloadAt(aad) == 16 + |EncodedAad(aad)| && PayloadAt(aad) % 16 == 0
    ensures |aad| > 0 ==>
              var e := EncodedAad(aad); |e| >= 2 && BigEndian(e[..2]) == |aad| && Field(e, 2, aad, |e|)
  {
    if |aad| == 0 {
      assert EncodedAad(aad) == [];
    } else {
      EncodedAadIs(aad);
      MultipleSum(16, Up16(2 + |aad|));
    }
  }

  lemma FormatIs(nonce: Bytes, aad: Bytes, m: Bytes, t: nat)
    requires Acceptable(nonce, aad, |m|, t)
    ensures IsFormat(nonce, aad, m, t, Format(nonce, aad, m, t)) && |Format(nonce, aad, m, t)| % 16 == 0
  {
    var f, a, z := FirstBlock(nonce, |aad| > 0, |m|, t), EncodedAad(aad), ZeroPad(m);
    FirstBlockIs(nonce, |aad| > 0, |m|, t);
    AadEnds(aad);
    FormatFields(f, a, z, f + (a + z), nonce, aad, m, PayloadAt(aad));
    MultipleSum(PayloadAt(aad), Up16(|m|));
  }

  lemma MultipleSum(a: nat, b: nat)
    requires a % 16 == 0 && b % 16 == 0
    ensures (a + b) % 16 == 0
  {
  }

  lemma FormatFields(f: Bytes, a: Bytes, z: Bytes, b: Bytes, nonce: Bytes, aad: Bytes, m: Bytes, e: nat)
    requires |f| == 16 && b == f + (a + z) && z == ZeroPad(m) && 7 <= |nonce| <= 13 && e == 16 + |a|
    requires |aad| > 0 ==> |a| >= 2 && Field(a, 2, aad, |a|)
    ensures |b| == e + Up16(|m|) && b[0] == f[0] && b[1..1 + |nonce|] == f[1..1 + |nonce|]
    ensures b[1 + |nonce|..16] == f[1 + |nonce|..] && Field(b, e, m, |b|)
    ensures |aad| > 0 ==> b[16..18] == a[..2] && Field(b, 18, aad, e)
  {
    assert b[..16] == f && b[16..e] == a && b[e..] == z;
  }

  lemma TagIs(c: Cipher, nonce: Bytes, aad: Bytes, m: Bytes, t: nat)
    requires CcmCipher(c) && Acceptable(nonce, aad, |m|, t)
    ensures IsTag(c, nonce, aad, m, t, Tag(c, nonce, aad, m, t))
  {
    var b, s, z := Format(nonce, aad, m, t), CounterBlock(nonce, 0), Repeat(0, 16);
    FormatIs(nonce, aad, m, t);
    CounterBlockIs(nonce, 0);
    MaskedChain(c, s, z, b, t);
    assert IsFormat(nonce, aad, m, t, b) && IsCbc(c, Encrypt, z, b, Crypt(c, Encrypt, z, b));
  }

  lemma MaskedChain(c: Cipher, s: Bytes, z: Bytes, b: Bytes, t: nat)
    requires CcmCipher(c) && |s| == 16 == |z| && |b| % 16 == 0 && b != [] && t <= 16
    ensures |c.enc(s)| == 16 && IsCbc(c, Encrypt, z, b, Crypt(c, Encrypt, z, b))
    ensures Masks(c, s, Crypt(c, Encrypt, z, b), t, XorSeq(IvAfter(c, Encrypt, z, b), c.enc(s))[..t])
  {
    CryptIsCbc(c, Encrypt, z, b);
    assert Inverts(c, s);
  }

  // ----- CBC-MAC

  /** The chaining value after whole blocks. */
  ghost predicate Chain(c: Cipher, y: Bytes, fed: Bytes)
    requires CcmCipher(c)
  {
    Whole(|fed|, 16) == |fed| && y == IvAfter(c, Encrypt, Repeat(0, 16), fed)
  }

  /** UPDATE_CBC_MAC. */
  method UpdateMac(c: Cipher, y: Bytes, b: Bytes, ghost fed: Bytes) returns (y': Bytes)
    requires CcmCipher(c) && Chain(c, y, fed) && |b| == 16
    ensures Chain(c, y', fed + b)
  {
    WholeAdd(|fed|, 16, 16);
    assert Whole(16, 16) == 16 + Whole(0, 16);
    CryptAppend(c, Encrypt, Repeat(0, 16), fed, b);
    assert b[..16] == b && b[16..] == [];
    assert IvAfter(c, Encrypt, y, b) == IvAfter(c, Encrypt, NextIv(c, Encrypt, y, b), []);
    y' := c.enc(XorSeq(b, y));
  }

  lemma ZeroPadCons(s: Bytes)
    ensures |s| > 16 ==> ZeroPad(s) == s[..16] + ZeroPad(s[16..])
    ensures 0 < |s| <= 16 ==> ZeroPad(s) == s + Repeat(0, 16 - |s|)
    ensures |s| == 0 ==> ZeroPad(s) == []
  {
    FillStep(|s|);
    if |s| > 16 {
      ConcatAssoc(s[..16], s[16..], Repeat(0, Fill(|s|)));
      assert s == s[..16] + s[16..];
    }
  }

  lemma FillStep(k: nat)
    ensures k > 16 ==> Fill(k - 16) == Fill(k)
    ensures 0 < k <= 16 ==> Fill(k) == 16 - k
    ensures k == 0 ==> Fill(k) == 0
  {
  }

  /** Up to 16 bytes into a zeroed block. */
  function Zeroed(s: Bytes): (b: Bytes)
    requires |s| <= 16
    ensures |b| == 16
  {
    s + Repeat(0, 16 - |s|)
  }

  function First(s: Bytes): Bytes {
    if |s| > 16 then s[..16] else s
  }

  function Later(s: Bytes): Bytes {
    if |s| > 16 then s[16..] else []
  }

  lemma ZeroPadSplit(s: Bytes)
    requires |s| > 0
    ensures ZeroPad(s) == Zeroed(First(s)) + ZeroPad(Later(s))
  {
    ZeroPadCons(s);
    ZeroPadCons([]);
    if |s| > 16 {
      assert Zeroed(First(s)) == s[..16];
    } else {
      assert Zeroed(s) + [] == Zeroed(s);
    }
  }

  /** The additional data: its length and first bytes in one block, then 16 bytes at a time, zero padded. */
  method MacAad(c: Cipher, y0: Bytes, aad: Bytes, ghost fed: Bytes) returns (y: Bytes)
    requires CcmCipher(c) && Chain(c, y0, fed) && |aad| <= 0xFF00
    ensures Chain(c, y, fed + EncodedAad(aad))
  {
    y := y0;
    if |aad| == 0 {
      assert fed + [] == fed;
      return;
    }
    var lead: Bytes := [|aad| / 256, |aad| % 256];
    var use := if |aad| < 14 then |aad| else 14;
    ghost var all := lead + aad;
    assert First(all) == lead + aad[..use] && Later(all) == aad[use..];
    ZeroPadSplit(all);
    y := UpdateMac(c, y, Zeroed(lead + aad[..use]), fed);
    ConcatAssoc(fed, Zeroed(First(all)), ZeroPad(Later(all)));
    y := MacRest(c, y, aad[use..], fed + Zeroed(First(all)));
  }

  method MacRest(c: Cipher, y0: Bytes, s: Bytes, ghost fed0: Bytes) returns (y: Bytes)
    requires CcmCipher(c) && Chain(c, y0, fed0)
    ensures Chain(c, y, fed0 + ZeroPad(s))
  {
    y := y0;
    ghost var fed := fed0;
    var src := s;
    while |src| > 0
      invariant Chain(c, y, fed) && fed + ZeroPad(src) == fed0 + ZeroPad(s)
      decreases |src|
    {
      ZeroPadSplit(src);
      ConcatAssoc(fed, Zeroed(First(src)), ZeroPad(Later(src)));
      y := UpdateMac(c, y, Zeroed(First(src)), fed);
      fed := fed + Zeroed(First(src));
      src := Later(src);
    }
    ZeroPadCons([]);
    assert fed + [] == fed;
  }

  // ----- the first block and the counter

  lemma FlagBits(hasAad: bool, t: nat, q: nat)
    requires 4 <= t <= 16 && 2 <= q <= 8
    ensures Or(Or(Or(0, if hasAad then 64 else 0), 8 * ((t - 2) / 2)), q - 1) == Flags(hasAad, t, q)
  {
    FlagParts(if hasAad then 1 else 0, (t - 2) / 2, q - 1);
  }

  lemma FlagParts(h: nat, k: nat, q: nat)
    requires h <= 1 && k < 8 && q < 8
    ensures Or(Or(Or(0, 64 * h), 8 * k), q) == 64 * h + 8 * k + q
  {
    OrWord(h, 8 * k, 6, 64);
    OrWord(8 * h + k, q, 3, 8);
  }

  lemma OrWord(high: nat, low: nat, k: nat, w: nat)
    requires (k == 3 && w == 8) || (k == 6 && w == 64)
    requires low < w
    ensures Or(w * high, low) == w * high + low && Or(0, w * high) == w * high
  {
    assert Pow2(3) == 8 && Pow2(6) == 64;
    OrIsAdd(high, low, k, w * high);
  }

  /** The length field, filled from its last byte; something is left over exactly when the length does not fit. */
  method LengthField(length: nat, q: nat) returns (b: Bytes, left: nat)
    ensures b == ToBigEndian(length, q) && (left == 0 <==> length < Pow256(q))
  {
    b, left := [], length;
    var i := 0;
    assert ToBigEndian(length, q) + [] == ToBigEndian(length, q);
    while i < q
      invariant 0 <= i <= q
      invariant ToBigEndian(left, q - i) + b == ToBigEndian(length, q)
      invariant left < Pow256(q - i) <==> length < Pow256(q)
    {
      ConcatAssoc(ToBigEndian(left / 256, q - i - 1), [left % 256], b);
      b := [left % 256] + b;
      left := left / 256;
      i := i + 1;
    }
    assert [] + b == b;
  }

  lemma {:induction false} ZeroCounter(q: nat)
    ensures ToBigEndian(0, q) == Repeat(0, q)
  {
    if q > 0 {
      ZeroCounter(q - 1);
    }
  }

  lemma OneCounter(q: nat)
    requires q > 0
    ensures ToBigEndian(1, q) == Repeat(0, q - 1) + [1]
  {
    ZeroCounter(q - 1);
  }

  /** ++ on an unsigned char. */
  function Succ(x: Byte): Byte {
    if x == 255 then 0 else x + 1
  }

  /** ++ctr[15 - i] until a byte does not wrap: the counter field moves on by one. */
  method Increment(field: Bytes, ghost v: nat) returns (f: Bytes)
    requires field == ToBigEndian(v, |field|)
    ensures f == ToBigEndian(v + 1, |field|)
  {
    f := field;
    var q := |field|;
    var i := 0;
    ghost var u := v;
    assert ToBigEndian(v, q) + Repeat(0, 0) == ToBigEndian(v, q)
        && ToBigEndian(v + 1, q) + Repeat(0, 0) == ToBigEndian(v + 1, q);
    while i < q
      invariant 0 <= i <= q && |f| == q && f == ToBigEndian(u, q - i) + Repeat(0, i)
      invariant ToBigEndian(u + 1, q - i) + Repeat(0, i) == ToBigEndian(v + 1, q)
    {
      var k := q - 1 - i;
      var x := Succ(f[k]);
      CounterStep(u, q - i, i);
      f := f[k := x];
      if x != 0 {
        return;
      }
      u := u / 256;
      i := i + 1;
    }
  }

  lemma CounterStep(u: nat, k: nat, i: nat)
    requires k > 0
    ensures var f := ToBigEndian(u, k) + Repeat(0, i); var x := Succ(f[k - 1]);
            if x != 0 then f[k - 1 := x] == ToBigEndian(u + 1, k) + Repeat(0, i)
            else f[k - 1 := x] == ToBigEndian(u / 256, k - 1) + Repeat(0, i + 1)
                 && ToBigEndian(u / 256 + 1, k - 1) + Repeat(0, i + 1) == ToBigEndian(u + 1, k) + Repeat(0, i)
  {
    if u % 256 == 255 {
      assert (u + 1) / 256 == u / 256 + 1 && (u + 1) % 256 == 0;
    } else {
      assert (u + 1) / 256 == u / 256 && (u + 1) % 256 == u % 256 + 1;
    }
  }

  // ----- the message loop

  /** Before a step: d bytes done, counter i, and the rest of input, output and MAC still to come. */
  ghost predicate AtByte(c: Cipher, nonce: Bytes, input: Bytes, plain: Bytes, output: Bytes, src: Bytes, y: Bytes,
                         i: nat, fed: Bytes, goal: Bytes)
    requires CcmCipher(c) && 7 <= |nonce| <= 13
  {
    && |output| + |src| == |input| == |plain| && src == input[|output|..]
    && output + CtrCrypt(c, nonce, src, i) == CtrCrypt(c, nonce, input, 1)
    && Chain(c, y, fed) && fed + ZeroPad(plain[|output|..]) == goal
    && i >= 1 && 16 * (i - 1) <= |output| + 15 && (|src| > 0 ==> 16 * (i - 1) <= |output|)
  }

  /** A counter that has moved once per block of a message that fits its length field does not wrap. */
  lemma CounterFits(i: nat, done: nat, length: nat, q: nat)
    requires 2 <= q && 16 * (i - 1) <= done + 15 && done <= length < Pow256(q)
    ensures i < Pow256(q)
  {
    assert Pow256(q) == 256 * Pow256(q - 1);
  }

  /**
   The counters of a message, 1 to the number of its blocks, and the tag's counter 0 give different counter
   blocks: none wraps and none reaches 0.
   */
  lemma CountersApart(nonce: Bytes, length: nat, i: nat, j: nat)
    requires 7 <= |nonce| <= 13 && length < Pow256(15 - |nonce|) && i < j <= (length + 15) / 16
    ensures CounterBlock(nonce, i) != CounterBlock(nonce, j)
  {
    CounterFits(j, length, length, 15 - |nonce|);
    if CounterBlock(nonce, i) == CounterBlock(nonce, j) {
      CounterInjective(nonce, i, j);
    }
  }

  lemma CtrSplit(c: Cipher, nonce: Bytes, src: Bytes, i: nat)
    requires CcmCipher(c) && 7 <= |nonce| <= 13
    ensures |c.enc(CounterBlock(nonce, i))| == 16
    ensures CtrCrypt(c, nonce, src, i)
            == XorSeq(First(src), c.enc(CounterBlock(nonce, i))) + CtrCrypt(c, nonce, Later(src), i + 1)
  {
    assert Inverts(c, CounterBlock(nonce, i));
    if |src| <= 16 {
      assert Inverts(c, CounterBlock(nonce, i + 1));
      assert CtrCrypt(c, nonce, [], i + 1) == [];
    }
  }

  /** The plain text: what is encrypted, or what decryption gives. */
  function Plain(c: Cipher, op: Operation, nonce: Bytes, input: Bytes): (p: Bytes)
    requires CcmCipher(c) && 7 <= |nonce| <= 13
    ensures |p| == |input|
  {
    if op == Encrypt then input else CtrCrypt(c, nonce, input, 1)
  }

  /** The next bytes of the plain text are the source when encrypting and the result when decrypting. */
  lemma NextPlain(op: Operation, plain: Bytes, input: Bytes, output: Bytes, src: Bytes, dst: Bytes, rest: Bytes)
    requires |output| + |src| == |input| == |plain| && src == input[|output|..] && |src| > 0 && |dst| == |First(src)|
    requires |rest| == |Later(src)|
    requires plain == if op == Encrypt then input else (output + dst) + rest
    ensures First(plain[|output|..]) == (if op == Encrypt then First(src) else dst)
    ensures Later(plain[|output|..]) == plain[|output + dst|..] && Later(src) == input[|output + dst|..]
  {
    if op == Decrypt {
      assert plain[|output|..] == dst + rest;
    }
  }

  lemma NextFed(fed: Bytes, p: Bytes)
    requires |p| > 0
    ensures fed + ZeroPad(p) == (fed + Zeroed(First(p))) + ZeroPad(Later(p))
  {
    ZeroPadSplit(p);
    ConcatAssoc(fed, Zeroed(First(p)), ZeroPad(Later(p)));
  }

  /** A block done: the lengths and the counter move on. */
  lemma NextAt(c: Cipher, nonce: Bytes, input: Bytes, plain: Bytes, output: Bytes, dst: Bytes, src: Bytes, y: Bytes,
               i: nat, fed: Bytes, goal: Bytes)
    requires CcmCipher(c) && 7 <= |nonce| <= 13 && |output| + |src| == |input| == |plain| && |src| > 0
    requires |dst| == |First(src)| && Later(src) == input[|output + dst|..] && i >= 1 && 16 * (i - 1) <= |output|
    requires (output + dst) + CtrCrypt(c, nonce, Later(src), i + 1) == CtrCrypt(c, nonce, input, 1)
    requires Chain(c, y, fed) && fed + ZeroPad(plain[|output + dst|..]) == goal
    ensures AtByte(c, nonce, input, plain, output + dst, Later(src), y, i + 1, fed, goal)
  {
  }

  /** One block: authenticate the plain text and en- or decrypt it, in the order of the operation. */
  method CryptBlock(c: Cipher, op: Operation, nonce: Bytes, src: Bytes, y: Bytes, ctr: Bytes, ghost i: nat,
                    ghost input: Bytes, ghost output: Bytes, ghost fed: Bytes, ghost goal: Bytes)
      returns (dst: Bytes, y': Bytes, ghost fed': Bytes)
    requires CcmCipher(c) && 7 <= |nonce| <= 13 && |src| > 0 && ctr == CounterBlock(nonce, i)
    requires AtByte(c, nonce, input, Plain(c, op, nonce, input), output, src, y, i, fed, goal)
    ensures AtByte(c, nonce, input, Plain(c, op, nonce, input), output + dst, Later(src), y', i + 1, fed', goal)
  {
    CtrSplit(c, nonce, src, i);
    dst := XorSeq(First(src), c.enc(ctr));
    ghost var rest := CtrCrypt(c, nonce, Later(src), i + 1);
    ConcatAssoc(output, dst, rest);
    ghost var plain := Plain(c, op, nonce, input);
    NextPlain(op, plain, input, output, src, dst, rest);
    NextFed(fed, plain[|output|..]);
    var b := Zeroed(if op == Encrypt then First(src) else dst);
    y' := UpdateMac(c, y, b, fed);
    fed' := fed + b;
    assert (output + dst) + rest == CtrCrypt(c, nonce, input, 1);
    NextAt(c, nonce, input, plain, output, dst, src, y', i, fed', goal);
  }

  /** The whole message, block by block. */
  method CryptMessage(c: Cipher, op: Operation, nonce: Bytes, input: Bytes, y0: Bytes, ghost fed0: Bytes)
    returns (output: Bytes, y: Bytes)
    requires CcmCipher(c) && 7 <= |nonce| <= 13 && |input| < Pow256(15 - |nonce|) && Chain(c, y0, fed0)
    ensures output == CtrCrypt(c, nonce, input, 1)
    ensures Chain(c, y, fed0 + ZeroPad(Plain(c, op, nonce, input)))
  {
    var q := 15 - |nonce|;
    var field := Repeat(0, q - 1) + [1];
    OneCounter(q);
    ghost var fed, goal, plain := fed0, fed0 + ZeroPad(Plain(c, op, nonce, input)), Plain(c, op, nonce, input);
    ghost var i := 1;
    output, y := [], y0;
    var src := input;
    AtStart(c, nonce, input, plain, y0, fed0);
    while |src| > 0
      invariant AtByte(c, nonce, input, plain, output, src, y, i, fed, goal)
      invariant 0 < i < Pow256(q) && field == ToBigEndian(i, q)
      decreases |src|
    {
      var ctr := [q - 1] + nonce + field;
      assert ctr == CounterBlock(nonce, i);
      var dst;
      dst, y, fed := CryptBlock(c, op, nonce, src, y, ctr, i, input, output, fed, goal);
      output := output + dst;
      src := Later(src);
      field := Increment(field, i);
      i := i + 1;
      CounterFits(i, |output|, |input|, q);
    }
    AtEnd(c, nonce, input, plain, output, src, y, i, fed, goal);
  }

  lemma AtStart(c: Cipher, nonce: Bytes, input: Bytes, plain: Bytes, y: Bytes, fed: Bytes)
    requires CcmCipher(c) && 7 <= |nonce| <= 13 && |plain| == |input| && Chain(c, y, fed)
    ensures AtByte(c, nonce, input, plain, [], input, y, 1, fed, fed + ZeroPad(plain))
  {
    assert plain[0..] == plain && [] + CtrCrypt(c, nonce, input, 1) == CtrCrypt(c, nonce, input, 1);
  }

  lemma AtEnd(c: Cipher, nonce: Bytes, input: Bytes, plain: Bytes, output: Bytes, src: Bytes, y: Bytes, i: nat,
              fed: Bytes, goal: Bytes)
    requires CcmCipher(c) && 7 <= |nonce| <= 13 && |src| == 0
    requires AtByte(c, nonce, input, plain, output, src, y, i, fed, goal)
    ensures output == CtrCrypt(c, nonce, input, 1) && Chain(c, y, goal)
  {
    assert CtrCrypt(c, nonce, src, i) == [] && output + [] == output;
    ZeroPadCons([]);
    assert plain[|output|..] == [] && fed + [] == fed;
  }

  // ----- entry points

  datatype CcmStatus = CcmOk | CcmBadInput | AuthFailed

  /** ccm_auth_crypt: refuses exactly the unacceptable parameters. */
  method AuthCrypt(c: Cipher, op: Operation, nonce: Bytes, aad: Bytes, input: Bytes, t: nat)
    returns (st: CcmStatus, output: Bytes, tag: Bytes)
    requires CcmCipher(c)
    ensures st == if Acceptable(nonce, aad, |input|, t) then CcmOk else CcmBadInput
    ensures st == CcmOk ==>
              output == CtrCrypt(c, nonce, input, 1) && tag == Tag(c, nonce, aad, Plain(c, op, nonce, input), t)
    ensures st == CcmOk ==>
              IsCtr(c, nonce, input, output) && IsTag(c, nonce, aad, if op == Encrypt then input else output, t, tag)
  {
    output, tag := [], [];
    if t < 4 || t > 16 || t % 2 != 0 || |nonce| < 7 || |nonce| > 13 || |aad| > 0xFF00 {
      return CcmBadInput, output, tag;
    }
    var q := 15 - |nonce|;
    var field, left := LengthField(|input|, q);
    if left > 0 {
      return CcmBadInput, output, tag;
    }
    var y := Headers(c, nonce, aad, |input|, field, t);
    ghost var head := FirstBlock(nonce, |aad| > 0, |input|, t);
    ConcatAssoc(head, EncodedAad(aad), ZeroPad(Plain(c, op, nonce, input)));
    output, y := CryptMessage(c, op, nonce, input, y, head + EncodedAad(aad));
    tag := MaskTag(c, nonce, y, t);
    st := CcmOk;
    CtrCryptIs(c, nonce, input);
    TagIs(c, nonce, aad, Plain(c, op, nonce, input), t);
  }

  /** B_0 and the additional data. */
  method Headers(c: Cipher, nonce: Bytes, aad: Bytes, length: nat, field: Bytes, t: nat) returns (y: Bytes)
    requires CcmCipher(c) && 4 <= t <= 16 && 7 <= |nonce| <= 13 && |aad| <= 0xFF00
    requires field == ToBigEndian(length, 15 - |nonce|)
    ensures Chain(c, y, FirstBlock(nonce, |aad| > 0, length, t) + EncodedAad(aad))
  {
    var q := 15 - |nonce|;
    FlagBits(|aad| > 0, t, q);
    var flags: Byte := Or(Or(Or(0, if |aad| > 0 then 64 else 0), 8 * ((t - 2) / 2)), q - 1);
    var b := [flags] + nonce + field;
    y := UpdateMac(c, Repeat(0, 16), b, []);
    assert [] + b == b;
    y := MacAad(c, y, aad, b);
  }

  /** Counter 0 masks the tag. */
  method MaskTag(c: Cipher, nonce: Bytes, y: Bytes, t: nat) returns (tag: Bytes)
    requires CcmCipher(c) && 7 <= |nonce| <= 13 && |y| == 16 && t <= 16
    ensures |c.enc(CounterBlock(nonce, 0))| == 16 && tag == XorSeq(y, c.enc(CounterBlock(nonce, 0)))[..t]
  {
    var q := 15 - |nonce|;
    ZeroCounter(q);
    var ctr := [q - 1] + nonce + Repeat(0, q);
    assert Inverts(c, CounterBlock(nonce, 0));
    tag := XorSeq(y, c.enc(ctr))[..t];
  }

  method EncryptAndTag(c: Cipher, nonce: Bytes, aad: Bytes, m: Bytes, t: nat)
    returns (st: CcmStatus, output: Bytes, tag: Bytes)
    requires CcmCipher(c)
    ensures st == if Acceptable(nonce, aad, |m|, t) then CcmOk else CcmBadInput
    ensures st == CcmOk ==> output == CtrCrypt(c, nonce, m, 1) && tag == Tag(c, nonce, aad, m, t)
    ensures st == CcmOk ==> IsCtr(c, nonce, m, output) && IsTag(c, nonce, aad, m, t, tag)
  {
    st, output, tag := AuthCrypt(c, Encrypt, nonce, aad, m, t);
  }

  /** Every bit of every byte is compared. */
  method SameTag(a: Bytes, b: Bytes) returns (same: bool)
    requires |a| == |b|
    ensures same <==> a == b
  {
    var diff := 0;
    var i := 0;
    while i < |a|
      invariant 0 <= i <= |a| && (diff == 0 <==> a[..i] == b[..i])
    {
      XorEqual(a[i], b[i]);
      OrZero(diff, XorBytes(a[i], b[i]));
      diff := Or(diff, XorBytes(a[i], b[i]));
      assert a[..i + 1] == a[..i] + [a[i]] && b[..i + 1] == b[..i] + [b[i]];
      i := i + 1;
    }
    assert a[..i] == a && b[..i] == b;
    same := diff == 0;
  }

  lemma OrZero(a: nat, b: nat)
    ensures Or(a, b) == 0 <==> a == 0 && b == 0
    decreases a + b
  {
    if a > 0 && b > 0 {
      OrZero(a / 2, b / 2);
    }
  }

  /**
   Accepts exactly the pairs that encryption produces: the result is Ok with m if and only if m
   encrypts to this text and tag.  A refused text is wiped.
   */
  method AuthDecrypt(c: Cipher, nonce: Bytes, aad: Bytes, ct: Bytes, tag: Bytes) returns (st: CcmStatus, m: Bytes)
    requires CcmCipher(c)
    ensures st == CcmBadInput <==> !Acceptable(nonce, aad, |ct|, |tag|)
    ensures st == CcmOk ==> |m| == |ct| && CtrCrypt(c, nonce, m, 1) == ct && Tag(c, nonce, aad, m, |tag|) == tag
    ensures st == CcmOk ==> IsCtr(c, nonce, ct, m) && IsTag(c, nonce, aad, m, |tag|, tag)
    ensures st == AuthFailed ==> m == Repeat(0, |ct|)
    ensures st == AuthFailed ==>
              forall p: Bytes :: |p| == |ct| && CtrCrypt(c, nonce, p, 1) == ct ==> Tag(c, nonce, aad, p, |tag|) != tag
  {
    var check;
    st, m, check := AuthCrypt(c, Decrypt, nonce, aad, ct, |tag|);
    if st != CcmOk {
      return;
    }
    CtrInverse(c, nonce, ct, 1);
    var same := SameTag(tag, check);
    if !same {
      forall p: Bytes | |p| == |ct| && CtrCrypt(c, nonce, p, 1) == ct
        ensures p == m
      {
        CtrInverse(c, nonce, p, 1);
      }
      m := Repeat(0, |ct|);
      st := AuthFailed;
    }
  }

  /** Decrypting what was encrypted succeeds and returns the message. */
  method RoundTrip(c: Cipher, nonce: Bytes, aad: Bytes, m: Bytes, t: nat) returns (st: CcmStatus, p: Bytes)
    requires CcmCipher(c) && Acceptable(nonce, aad, |m|, t)
    ensures st == CcmOk && p == m
  {
    var ct, tag;
    st, ct, tag := EncryptAndTag(c, nonce, aad, m, t);
    st, p := AuthDecrypt(c, nonce, aad, ct, tag);
    CtrInverse(c, nonce, m, 1);
    CtrInverse(c, nonce, p, 1);
  }
}
