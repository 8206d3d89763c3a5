/**
 The three invertible paddings of cipher.c.

 `Pad` is what each add function appends, and each get function is shown to accept exactly the blocks
 that end in such a padding and to report the one length that can have been padded.
 */
module Padding {
  import opened ByteStrings

  datatype Mode = Pkcs7 | OneAndZeros | ZerosAndLen

  /** The k padding bytes of a mode. */
  function Tail(mode: Mode, k: nat): (t: Bytes)
    requires 1 <= k < 256
    ensures |t| == k
  {
    match mode
    case Pkcs7 => Repeat(k, k)
    case OneAndZeros => [0x80] + Repeat(0, k - 1)
    case ZerosAndLen => Repeat(0, k - 1) + [k]
  }

  /** data filled up to n bytes. */
  function Pad(mode: Mode, data: Bytes, n: nat): (b: Bytes)
    requires |data| < n < 256
    ensures |b| == n && b[..|data|] == data
  {
    data + Tail(mode, n - |data|)
  }

  /** b is some data shorter than b, padded. */
  predicate Padded(mode: Mode, b: Bytes, len: nat)
    requires |b| < 256
  {
    len < |b| && b == Pad(mode, b[..len], |b|)
  }

  /** A block can be read as padded data in one way only. */
  lemma PaddedUnique(mode: Mode, b: Bytes, i: nat, j: nat)
    requires |b| < 256 && Padded(mode, b, i) && Padded(mode, b, j)
    ensures i == j
  {
    NotLater(mode, b, i, j);
    NotLater(mode, b, j, i);
  }

  lemma NotLater(mode: Mode, b: Bytes, i: nat, j: nat)
    requires |b| < 256 && Padded(mode, b, i) && Padded(mode, b, j)
    ensures j <= i
  {
    var n := |b|;
    if i < j {
      PaddedAt(mode, b, i, n - 1);
      PaddedAt(mode, b, j, n - 1);
      PaddedAt(mode, b, i, j);
      PaddedAt(mode, b, j, j);
    }
  }

  lemma PaddedAt(mode: Mode, b: Bytes, len: nat, k: nat)
    requires |b| < 256 && Padded(mode, b, len) && len <= k < |b|
    ensures b[k] == Tail(mode, |b| - len)[k - len]
  {
    var p := Pad(mode, b[..len], |b|);
    assert p[k] == Tail(mode, |b| - len)[k - len];
  }

  // ----- adding

  method AddPkcs(out: array<Byte>, n: nat, len: nat)
    requires len < n < 256 && n <= out.Length
    modifies out
    ensures out[..n] == Pad(Pkcs7, old(out[..len]), n) && out[n..] == old(out[n..])
  {
    var k: Byte := n - len;
    var i := 0;
    while i < k
      invariant 0 <= i <= k && out[..len] == old(out[..len]) && out[n..] == old(out[n..])
      invariant forall j :: len <= j < len + i ==> out[j] == k
    {
      out[len + i] := k;
      i := i + 1;
    }
    assert out[len..n] == Repeat(k, k);
    assert out[..n] == out[..len] + out[len..n];
  }

  method AddOneAndZeros(out: array<Byte>, n: nat, len: nat)
    requires len < n < 256 && n <= out.Length
    modifies out
    ensures out[..n] == Pad(OneAndZeros, old(out[..len]), n) && out[n..] == old(out[n..])
  {
    var k := n - len;
    out[len] := 0x80;
    var i := 1;
    while i < k
      invariant 1 <= i <= k && out[..len] == old(out[..len]) && out[n..] == old(out[n..]) && out[len] == 0x80
      invariant forall j :: len < j < len + i ==> out[j] == 0
    {
      out[len + i] := 0x00;
      i := i + 1;
    }
    assert out[len..n] == [0x80] + Repeat(0, k - 1);
    assert out[..n] == out[..len] + out[len..n];
  }

  method AddZerosAndLen(out: array<Byte>, n: nat, len: nat)
    requires len < n < 256 && n <= out.Length
    modifies out
    ensures out[..n] == Pad(ZerosAndLen, old(out[..len]), n) && out[n..] == old(out[n..])
  {
    var k: Byte := n - len;
    var i := 1;
    while i < k
      invariant 1 <= i <= k && out[..len] == old(out[..len]) && out[n..] == old(out[n..])
      invariant forall j :: len <= j < len + i - 1 ==> out[j] == 0
    {
      out[len + i - 1] := 0x00;
      i := i + 1;
    }
    out[n - 1] := k;
    assert out[len..n] == Repeat(0, k - 1) + [k];
    assert out[..n] == out[..len] + out[len..n];
  }

  method AddPadding(mode: Mode, out: array<Byte>, n: nat, len: nat)
    requires len < n < 256 && n <= out.Length
    modifies out
    ensures out[..n] == Pad(mode, old(out[..len]), n) && out[n..] == old(out[n..])
  {
    match mode
    case Pkcs7 => AddPkcs(out, n, len);
    case OneAndZeros => AddOneAndZeros(out, n, len);
    case ZerosAndLen => AddZerosAndLen(out, n, len);
  }

  // ----- removing

  /** bad |= x * flag on an unsigned char. */
  function Bad(bad: bool, x: nat, flag: bool): bool {
    bad || (x != 0 && flag)
  }

  /**
   Reads the padding length from the last byte and checks every byte of the block against it.  The
   index at which the padding starts wraps around for a length beyond the block, so that then no byte
   is checked; the length test alone refuses such a block.
   */
  method GetPkcs(b: Bytes) returns (ok: bool, len: int)
    requires 1 <= |b| < 256
    ensures ok <==> exists l: nat :: Padded(Pkcs7, b, l)
    ensures ok ==> len >= 0 && Padded(Pkcs7, b, len)
  {
    var k := b[|b| - 1];
    len := |b| - k;
    var bad := k > |b| || k == 0;
    var start: int := if k > |b| then |b| - k + 0x1_0000_0000_0000_0000 else |b| - k;
    var i := 0;
    while i < |b|
      invariant 0 <= i <= |b|
      invariant bad <==> k > |b| || k == 0 || exists j :: start <= j < i && b[j] != k
    {
      XorEqual(b[i], k);
      bad := Bad(bad, XorBytes(b[i], k), i >= start);
      i := i + 1;
    }
    ok := !bad;
    if ok {
      assert b == b[..len] + b[len..] && b[len..] == Repeat(k, k);
      assert Padded(Pkcs7, b, len);
    } else {
      forall l: nat
        ensures !Padded(Pkcs7, b, l)
      {
        if Padded(Pkcs7, b, l) {
          PkcsShape(b, l);
        }
      }
    }
  }

  lemma PkcsShape(b: Bytes, l: nat)
    requires |b| < 256 && Padded(Pkcs7, b, l)
    ensures b[|b| - 1] == |b| - l && forall j :: l <= j < |b| ==> b[j] == |b| - l
  {
    forall j | l <= j < |b|
      ensures b[j] == |b| - l
    {
      PaddedAt(Pkcs7, b, l, j);
    }
  }

  lemma ZerosAndLenShape(b: Bytes, l: nat)
    requires |b| < 256 && Padded(ZerosAndLen, b, l)
    ensures b[|b| - 1] == |b| - l && forall j :: l <= j < |b| - 1 ==> b[j] == 0
  {
    forall j | l <= j < |b|
      ensures b[j] == if j == |b| - 1 then |b| - l else 0
    {
      PaddedAt(ZerosAndLen, b, l, j);
    }
  }

  lemma OneAndZerosShape(b: Bytes, l: nat)
    requires |b| < 256 && Padded(OneAndZeros, b, l)
    ensures b[l] == 0x80 && forall j :: l < j < |b| ==> b[j] == 0
  {
    forall j | l <= j < |b|
      ensures b[j] == if j == l then 0x80 else 0
    {
      PaddedAt(OneAndZeros, b, l, j);
    }
  }

  method GetZerosAndLen(b: Bytes) returns (ok: bool, len: int)
    requires 1 <= |b| < 256
    ensures ok <==> exists l: nat :: Padded(ZerosAndLen, b, l)
    ensures ok ==> len >= 0 && Padded(ZerosAndLen, b, len)
  {
    var k := b[|b| - 1];
    len := |b| - k;
    var bad := k > |b| || k == 0;
    var start: int := if k > |b| then |b| - k + 0x1_0000_0000_0000_0000 else |b| - k;
    var i := 0;
    while i < |b| - 1
      invariant 0 <= i <= |b| - 1
      invariant bad <==> k > |b| || k == 0 || exists j :: start <= j < i && b[j] != 0
    {
      bad := Bad(bad, b[i], i >= start);
      i := i + 1;
    }
    ok := !bad;
    ZerosVerdict(b, ok);
  }

  /** The last byte counts itself and the zeros before it. */
  predicate ZerosBefore(b: Bytes, k: int)
    requires |b| > 0
  {
    k == b[|b| - 1] && 0 < k <= |b| && forall j :: |b| - k <= j < |b| - 1 ==> b[j] == 0
  }

  lemma ZerosVerdict(b: Bytes, ok: bool)
    requires 1 <= |b| < 256 && (ok <==> ZerosBefore(b, b[|b| - 1]))
    ensures ok <==> exists l: nat :: Padded(ZerosAndLen, b, l)
    ensures ok ==> Padded(ZerosAndLen, b, |b| - b[|b| - 1])
  {
    var k := b[|b| - 1];
    if ok {
      var len := |b| - k;
      assert b == b[..len] + b[len..] && b[len..] == Repeat(0, k - 1) + [k];
      assert Padded(ZerosAndLen, b, len);
    } else if l: nat :| Padded(ZerosAndLen, b, l) {
      ZerosAndLenShape(b, l);
    }
  }

  /** Scans from the end for the first nonzero byte, which must be 0x80; no branch leaves the loop early. */
  method GetOneAndZeros(b: Bytes) returns (ok: bool, len: nat)
    requires 1 <= |b| < 256
    ensures ok <==> exists l: nat :: Padded(OneAndZeros, b, l)
    ensures ok ==> Padded(OneAndZeros, b, len)
  {
    var done, bad: Byte := false, 0x80;
    len := 0;
    var i := |b|;
    while i > 0
      invariant 0 <= i <= |b| && (!done ==> bad == 0x80 && len == 0)
      invariant !done ==> forall j :: i <= j < |b| ==> b[j] == 0
      invariant done ==>
                  && i <= len < |b| && b[len] != 0 && bad == XorBytes(0x80, b[len])
                  && forall j :: len < j < |b| ==> b[j] == 0
    {
      var before := done;
      done := done || b[i - 1] != 0;
      if done != before {
        len := i - 1;
        bad := XorBytes(bad, b[i - 1]);
      }
      i := i - 1;
    }
    ok := bad == 0;
    if done {
      XorEqual(0x80, b[len]);
    }
    if ok {
      assert b == b[..len] + b[len..] && b[len..] == [0x80] + Repeat(0, |b| - len - 1);
      assert Padded(OneAndZeros, b, len);
    } else {
      forall l: nat
        ensures !Padded(OneAndZeros, b, l)
      {
        if Padded(OneAndZeros, b, l) {
          OneAndZerosShape(b, l);
        }
      }
    }
  }

  /** Accepts exactly the padded blocks and finds the data length. */
  method GetPadding(mode: Mode, b: Bytes) returns (ok: bool, len: int)
    requires 1 <= |b| < 256
    ensures ok <==> exists l: nat :: Padded(mode, b, l)
    ensures ok ==> len >= 0 && Padded(mode, b, len)
  {
    match mode
    case Pkcs7 => ok, len := GetPkcs(b);
    case OneAndZeros => ok, len := GetOneAndZeros(b);
    case ZerosAndLen => ok, len := GetZerosAndLen(b);
  }
}
