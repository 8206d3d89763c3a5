/** Bytes, byte strings and exclusive or, as the cipher modes use them. */
module ByteStrings {
  import opened Arith
  import opened Bits

  type Byte = x: int | 0 <= x < 256

  type Bytes = seq<Byte>

  lemma {:induction false} XorZero(a: nat)
    ensures Xor(a, a) == 0 && Xor(a, 0) == a
  {
    if a > 0 {
      XorZero(a / 2);
    }
  }

  lemma {:induction false} XorCancel(a: nat, b: nat)
    ensures Xor(Xor(a, b), b) == a
    decreases a + b
  {
    if a == 0 {
      XorZero(b);
    } else if b > 0 {
      XorCancel(a / 2, b / 2);
      XorStep(a, b);
      XorStep(Xor(a, b), b);
    }
  }

  /** Equal exactly when the exclusive or is zero. */
  lemma XorEqual(a: nat, b: nat)
    ensures Xor(a, b) == 0 <==> a == b
  {
    XorZero(a);
    XorCancel(a, b);
  }

  lemma XorByte(a: Byte, b: Byte)
    ensures 0 <= Xor(a, b) < 256
  {
    assert Pow2(8) == 256;
    BitsBound(a, b, 8);
  }

  function XorBytes(a: Byte, b: Byte): Byte {
    XorByte(a, b);
    Xor(a, b)
  }

  /** The first |a| bytes of a and b, byte by byte. */
  function XorSeq(a: Bytes, b: Bytes): (r: Bytes)
    requires |a| <= |b|
    ensures |r| == |a|
  {
    seq(|a|, i requires 0 <= i < |a| => XorBytes(a[i], b[i]))
  }

  lemma XorSeqBits(a: Bytes, b: Bytes, i: nat, j: nat)
    requires i < |a| <= |b|
    ensures Bit(XorSeq(a, b)[i], j) == if Bit(a[i], j) != Bit(b[i], j) then 1 else 0
  {
    BitwiseIs(a[i], b[i], j);
  }

  lemma XorSeqCancel(a: Bytes, b: Bytes)
    requires |a| <= |b|
    ensures XorSeq(XorSeq(a, b), b) == a
  {
    forall i | 0 <= i < |a|
      ensures XorBytes(XorBytes(a[i], b[i]), b[i]) == a[i]
    {
      XorCancel(a[i], b[i]);
    }
  }

  /** x repeated k times. */
  function Repeat(x: Byte, k: nat): (r: Bytes)
    ensures |r| == k && forall i :: 0 <= i < k ==> r[i] == x
  {
    seq(k, _ => x)
  }

  // ----- big-endian numbers

  /** A byte string as a big-endian number. */
  function BigEndian(b: Bytes): nat {
    if |b| == 0 then 0 else BigEndian(b[..|b| - 1]) * 256 + b[|b| - 1]
  }

  function Pow256(k: nat): (r: nat)
    ensures r >= 1
  {
    if k == 0 then 1 else 256 * Pow256(k - 1)
  }

  lemma {:induction false} BigEndianCons(x: Byte, t: Bytes)
    ensures BigEndian([x] + t) == x * Pow256(|t|) + BigEndian(t)
    decreases |t|
  {
    var s := [x] + t;
    if |t| == 0 {
      assert s[..0] == [];
    } else {
      var k := |t| - 1;
      assert s[..|s| - 1] == [x] + t[..k];
      BigEndianCons(x, t[..k]);
      var y: int := x;
      Distribute(256, y * Pow256(k), BigEndian(t[..k]));
      Rotate(y, 256, Pow256(k));
      Rotate(256, y, Pow256(k));
    }
  }

  lemma {:induction false} BigEndianBound(b: Bytes)
    ensures BigEndian(b) < Pow256(|b|)
  {
    if |b| > 0 {
      BigEndianBound(b[..|b| - 1]);
    }
  }

  lemma {:induction false} BigEndianInjective(a: Bytes, b: Bytes)
    requires |a| == |b| && BigEndian(a) == BigEndian(b)
    ensures a == b
  {
    if |a| > 0 {
      var k := |a| - 1;
      BigEndianInjective(a[..k], b[..k]);
      assert a == a[..k] + [a[k]] && b == b[..k] + [b[k]];
    }
  }

  /** The q low-order bytes of v, most significant first. */
  function ToBigEndian(v: nat, q: nat): (b: Bytes)
    ensures |b| == q
  {
    if q == 0 then [] else ToBigEndian(v / 256, q - 1) + [v % 256]
  }

  lemma {:induction false} BigEndianInverse(v: nat, q: nat)
    requires v < Pow256(q)
    ensures BigEndian(ToBigEndian(v, q)) == v
    decreases q
  {
    if q > 0 {
      BigEndianInverse(v / 256, q - 1);
      var h := ToBigEndian(v / 256, q - 1);
      assert (h + [v % 256])[..q - 1] == h;
    }
  }

  // ----- buffers

  /** memcpy into a buffer. */
  method CopyInto(dst: array<Byte>, off: nat, src: Bytes)
    requires off + |src| <= dst.Length
    modifies dst
    ensures dst[..off + |src|] == old(dst[..off]) + src && dst[off + |src|..] == old(dst[off + |src|..])
  {
    var i := 0;
    while i < |src|
      invariant 0 <= i <= |src|
      invariant dst[..off] == old(dst[..off]) && dst[off..off + i] == src[..i]
      invariant dst[off + |src|..] == old(dst[off + |src|..])
    {
      dst[off + i] := src[i];
      assert dst[off..off + i + 1] == dst[off..off + i] + [src[i]];
      i := i + 1;
    }
    assert dst[..off + |src|] == dst[..off] + dst[off..off + |src|];
  }
}
