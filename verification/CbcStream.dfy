/** The streaming cipher context in CBC mode: mbedtls_cipher_update and mbedtls_cipher_finish. */
module CbcStream {
  import opened ByteStrings
  import opened Sequences
  import opened Padding
  import opened Cbc

  datatype PadChoice = NoPadding | With(mode: Mode)

  datatype Outcome = Done(bytes: Bytes) | FullBlockExpected | InvalidPadding

  // ----- the one-shot definition

  /** The whole message, padded. */
  function PadMessage(mode: Mode, m: Bytes, n: nat): Bytes
    requires 1 <= n < 256
  {
    var h := Whole(|m|, n);
    m[..h] + Pad(mode, m[h..], n)
  }

  /** The data of a padded text, if its last block is padded. */
  ghost function Unpad(mode: Mode, p: Bytes, n: nat): Outcome
    requires 1 <= n < 256 && n <= |p|
  {
    var h := |p| - n;
    if l: nat :| Padded(mode, p[h..], l) then Done(p[..h + l]) else InvalidPadding
  }

  /** What a whole message becomes when it is given at once. */
  ghost function OneShot(c: Cipher, op: Operation, pad: PadChoice, iv: Bytes, m: Bytes): Outcome
    requires BlockCipher(c) && |iv| == c.n
  {
    CryptLength(c, op, iv, m);
    if pad.NoPadding? then
      if Whole(|m|, c.n) == |m| then Done(Crypt(c, op, iv, m)) else FullBlockExpected
    else if op == Encrypt then
      Done(Crypt(c, op, iv, PadMessage(pad.mode, m, c.n)))
    else if |m| > 0 && Whole(|m|, c.n) == |m| then
      Unpad(pad.mode, Crypt(c, op, iv, m), c.n)
    else
      FullBlockExpected
  }

  lemma PadMessageWhole(mode: Mode, m: Bytes, n: nat)
    requires 1 <= n < 256
    ensures var p := PadMessage(mode, m, n); |p| == Whole(|m|, n) + n && Whole(|p|, n) == |p|
  {
    var h := Whole(|m|, n);
    WholeIdem(|m|, n);
    WholeAdd(h, n, n);
    assert Whole(n, n) == n + Whole(0, n);
  }

  lemma UnpadPadded(mode: Mode, m: Bytes, n: nat)
    requires 1 <= n < 256
    ensures n <= |PadMessage(mode, m, n)| && Unpad(mode, PadMessage(mode, m, n), n) == Done(m)
  {
    var p, h := PadMessage(mode, m, n), Whole(|m|, n);
    var b, l := Pad(mode, m[h..], n), |m| - h;
    assert p[h..] == b && b[..l] == m[h..];
    assert Padded(mode, b, l);
    forall k: nat | Padded(mode, b, k)
      ensures k == l
    {
      PaddedUnique(mode, b, k, l);
    }
    assert p[..h + l] == m[..h] + m[h..] == m;
  }

  /** Decryption under the same padding returns every message. */
  lemma OneShotRoundTrip(c: Cipher, mode: Mode, iv: Bytes, m: Bytes)
    requires BlockCipher(c) && |iv| == c.n
    ensures var e := OneShot(c, Encrypt, With(mode), iv, m);
            e.Done? && OneShot(c, Decrypt, With(mode), iv, e.bytes) == Done(m)
  {
    var p := PadMessage(mode, m, c.n);
    var e := Crypt(c, Encrypt, iv, p);
    PadMessageWhole(mode, m, c.n);
    CryptLength(c, Encrypt, iv, p);
    CryptInverse(c, iv, p);
    UnpadPadded(mode, m, c.n);
  }

  /** Without padding, exactly the messages of whole blocks are accepted, and they come back. */
  lemma OneShotRoundTripPlain(c: Cipher, iv: Bytes, m: Bytes)
    requires BlockCipher(c) && |iv| == c.n
    ensures var e := OneShot(c, Encrypt, NoPadding, iv, m);
            (e.Done? <==> |m| % c.n == 0) && (e.Done? ==> OneShot(c, Decrypt, NoPadding, iv, e.bytes) == Done(m))
  {
    WholeMod(|m|, c.n);
    CryptLength(c, Encrypt, iv, m);
    if Whole(|m|, c.n) == |m| {
      CryptInverse(c, iv, m);
    }
  }

  lemma StripBlock(mode: Mode, before: Bytes, last: Bytes, ok: bool, l: int)
    requires 1 <= |last| < 256 && (ok <==> exists k: nat :: Padded(mode, last, k))
    requires ok ==> l >= 0 && Padded(mode, last, l)
    ensures Unpad(mode, before + last, |last|) == if ok then Done(before + last[..l]) else InvalidPadding
  {
    var p := before + last;
    assert p[|before|..] == last;
    if ok {
      forall k: nat | Padded(mode, last, k)
        ensures k == l
      {
        PaddedUnique(mode, last, k, l);
      }
      assert p[..|before| + l] == before + last[..l];
    }
  }

  // ----- the same by the byte

  /** p is m and the padding of its mode up to the next multiple of n: 1 to n bytes. */
  ghost predicate PaddedTo(mode: Mode, m: Bytes, n: nat, p: Bytes)
    requires n > 0
  {
    && |p| % n == 0 && |m| < |p| <= |m| + n && p[..|m|] == m
    && match mode
       case Pkcs7 => forall i :: |m| <= i < |p| ==> p[i] == |p| - |m|
       case OneAndZeros => p[|m|] == 0x80 && forall i :: |m| < i < |p| ==> p[i] == 0
       case ZerosAndLen => p[|p| - 1] == |p| - |m| && forall i :: |m| <= i < |p| - 1 ==> p[i] == 0
  }

  /** What a whole message must become. */
  ghost predicate Specified(c: Cipher, op: Operation, pad: PadChoice, iv: Bytes, m: Bytes, r: Outcome)
    requires BlockCipher(c) && |iv| == c.n
  {
    if pad.NoPadding? then
      if |m| % c.n == 0 then r.Done? && IsCbc(c, op, iv, m, r.bytes) else r == FullBlockExpected
    else if op == Encrypt then
      r.Done? && exists p :: PaddedTo(pad.mode, m, c.n, p) && IsCbc(c, op, iv, p, r.bytes)
    else if m == [] || |m| % c.n != 0 then
      r == FullBlockExpected
    else
      exists p :: IsCbc(c, op, iv, m, p) && Stripped(pad.mode, c.n, p, r)
  }

  /** r is the data that is padded to p, or the complaint that there is none. */
  ghost predicate Stripped(mode: Mode, n: nat, p: Bytes, r: Outcome)
    requires n > 0
  {
    if r.Done? then PaddedTo(mode, r.bytes, n, p)
    else r == InvalidPadding && forall m: Bytes :: !PaddedTo(mode, m, n, p)
  }

  lemma PadMessageIs(mode: Mode, m: Bytes, n: nat)
    requires 1 <= n < 256
    ensures PaddedTo(mode, m, n, PadMessage(mode, m, n))
  {
    var p, h := PadMessage(mode, m, n), Whole(|m|, n);
    PadMessageWhole(mode, m, n);
    WholeIff(|p|, n);
    PadBytes(mode, m, n, h, p);
  }

  lemma PadBytes(mode: Mode, m: Bytes, n: nat, h: nat, p: Bytes)
    requires 1 <= n < 256 && h <= |m| < h + n && p == m[..h] + Pad(mode, m[h..], n) && |p| % n == 0
    ensures PaddedTo(mode, m, n, p)
  {
    var t := Tail(mode, n - (|m| - h));
    ConcatAssoc(m[..h], m[h..], t);
    assert m == m[..h] + m[h..];
    TailBytes(mode, m, n, t, p);
  }

  lemma TailBytes(mode: Mode, m: Bytes, n: nat, t: Bytes, p: Bytes)
    requires 1 <= |t| <= n < 256 && t == Tail(mode, |t|) && p == m + t && |p| % n == 0
    ensures PaddedTo(mode, m, n, p)
  {
    assert forall i :: |m| <= i < |p| ==> p[i] == t[i - |m|];
  }

  /** The data of an unpadded text is what is padded to it, and if nothing is, the padding is invalid. */
  lemma UnpadIs(mode: Mode, p: Bytes, n: nat)
    requires 1 <= n < 256 && n <= |p| && |p| % n == 0
    ensures Stripped(mode, n, p, Unpad(mode, p, n))
  {
    var b := p[|p| - n..];
    if l: nat :| Padded(mode, b, l) {
      var k := UnpadFound(mode, p, n, b, l);
      BlockPadded(mode, p, n, k);
    } else {
      NothingPadded(mode, p, n, b);
    }
  }

  lemma UnpadFound(mode: Mode, p: Bytes, n: nat, b: Bytes, l: nat) returns (k: nat)
    requires 1 <= n < 256 && n <= |p| && b == p[|p| - n..] && Padded(mode, b, l)
    ensures Padded(mode, p[|p| - n..], k) && Unpad(mode, p, n) == Done(p[..|p| - n + k])
  {
    k :| Padded(mode, p[|p| - n..], k) && Unpad(mode, p, n) == Done(p[..|p| - n + k]);
  }

  lemma NothingPadded(mode: Mode, p: Bytes, n: nat, b: Bytes)
    requires 1 <= n < 256 && n <= |p| && b == p[|p| - n..] && forall l: nat :: !Padded(mode, b, l)
    ensures Stripped(mode, n, p, InvalidPadding) && Unpad(mode, p, n) == InvalidPadding
  {
    UnpadNothing(mode, p, n, b);
    forall m: Bytes
      ensures !PaddedTo(mode, m, n, p)
    {
      NotPaddedTo(mode, m, n, p, b);
    }
  }

  lemma UnpadNothing(mode: Mode, p: Bytes, n: nat, b: Bytes)
    requires 1 <= n < 256 && n <= |p| && b == p[|p| - n..] && forall l: nat :: !Padded(mode, b, l)
    ensures Unpad(mode, p, n) == InvalidPadding
  {
  }

  lemma NotPaddedTo(mode: Mode, m: Bytes, n: nat, p: Bytes, b: Bytes)
    requires 1 <= n < 256 && n <= |p| && b == p[|p| - n..] && forall l: nat :: !Padded(mode, b, l)
    ensures !PaddedTo(mode, m, n, p)
  {
    if PaddedTo(mode, m, n, p) {
      PaddedBlock(mode, m, n, p);
    }
  }

  lemma PaddedBlock(mode: Mode, m: Bytes, n: nat, p: Bytes)
    requires 1 <= n < 256 && n <= |p| && PaddedTo(mode, m, n, p)
    ensures var h := |p| - n; |m| >= h && Padded(mode, p[h..], |m| - h)
  {
    var h := |p| - n;
    var b, l := p[h..], |m| - h;
    assert b == b[..l] + Tail(mode, n - l);
  }

  lemma BlockPadded(mode: Mode, p: Bytes, n: nat, l: nat)
    requires 1 <= n < 256 && n <= |p| && |p| % n == 0 && Padded(mode, p[|p| - n..], l)
    ensures PaddedTo(mode, p[..|p| - n + l], n, p)
  {
    var h := |p| - n;
    var b := p[h..];
    assert b == Pad(mode, b[..l], n);
    CutTwice(p, h, l);
    PadBytes(mode, p[..h + l], n, h, p);
  }

  lemma CutTwice(p: Bytes, h: nat, l: nat)
    requires h + l <= |p|
    ensures p == p[..h] + p[h..] && p[..h + l][h..] == p[h..][..l] && p[..h + l][..h] == p[..h]
  {
  }

  lemma OneShotIs(c: Cipher, op: Operation, pad: PadChoice, iv: Bytes, m: Bytes)
    requires BlockCipher(c) && |iv| == c.n
    ensures Specified(c, op, pad, iv, m, OneShot(c, op, pad, iv, m))
  {
    WholeIff(|m|, c.n);
    if pad.With? && op == Encrypt {
      var p := PadMessage(pad.mode, m, c.n);
      PadMessageIs(pad.mode, m, c.n);
      CryptIsCbc(c, op, iv, p);
      assert PaddedTo(pad.mode, m, c.n, p) && IsCbc(c, op, iv, p, Crypt(c, op, iv, p));
    } else if |m| % c.n == 0 {
      CryptIsCbc(c, op, iv, m);
      if pad.With? && m != [] {
        var p := Crypt(c, op, iv, m);
        UnpadIs(pad.mode, p, c.n);
        assert IsCbc(c, op, iv, m, p) && Stripped(pad.mode, c.n, p, Unpad(pad.mode, p, c.n));
      }
    }
  }

  // ----- the context

  /**
   How much may be held back after whole blocks `head`: a partial block, or one to n bytes if the last block
   is kept.
   */
  predicate MayHold(head: Bytes, len: nat, n: nat, keep: bool) {
    if keep then len <= n && (len > 0 || head == []) else len < n
  }

  lemma HeldBytes(r: nat, n: nat, k: nat, keep: bool)
    requires r > 0 && n > 0 && k == if r % n == 0 && keep then n else r % n
    ensures k <= r && Whole(r - k, n) == r - k && if keep then 0 < k <= n else k < n
  {
    WholeMod(r, n);
    WholeIdem(r, n);
    if k == n {
      WholeIdem(r - n, n);
    }
  }

  class CipherContext {
    const c: Cipher
    const op: Operation
    const pad: PadChoice
    var iv: Bytes
    const data: array<Byte>
    var len: nat

    ghost var iv0: Bytes
    ghost var fed: Bytes
    ghost var out: Bytes
    ghost var head: Bytes

    predicate Keep() {
      op == Decrypt && pad.With?
    }

    /** The chaining value stands after the whole blocks `head`, which have all been output. */
    ghost predicate Chained()
      reads this, data
    {
      && BlockCipher(c) && |iv0| == c.n && data.Length == 16 && len <= c.n && Whole(|head|, c.n) == |head|
      && out == Crypt(c, op, iv0, head) && iv == IvAfter(c, op, iv0, head)
    }

    /** All bytes fed are processed or held back, and the split does not depend on the calls they came in. */
    ghost predicate Valid()
      reads this, data
    {
      Chained() && fed == head + data[..len] && MayHold(head, len, c.n, Keep())
    }

    /** set_iv and reset. */
    constructor (c: Cipher, op: Operation, pad: PadChoice, iv: Bytes)
      requires BlockCipher(c) && |iv| == c.n
      ensures Valid() && fresh(data) && fed == [] && out == [] && iv0 == iv && this.c == c && this.op == op
      ensures this.pad == pad
    {
      this.c, this.op, this.pad, this.iv, this.iv0 := c, op, pad, iv, iv;
      data := new Byte[16](_ => 0);
      len, fed, out, head := 0, [], [], [];
    }

    /** Bytes in are bytes out plus bytes held. */
    lemma Conservation()
      requires Valid()
      ensures |fed| == |out| + len
    {
      CryptLength(c, op, iv0, head);
    }

    /** Processes whole blocks that follow the processed ones. */
    method Process(blocks: Bytes) returns (output: Bytes)
      requires Chained() && Whole(|blocks|, c.n) == |blocks|
      modifies this`iv, this`head, this`out
      ensures Chained() && head == old(head) + blocks && out == old(out) + output
    {
      CryptAppend(c, op, iv0, head, blocks);
      WholeAdd(|head|, |blocks|, c.n);
      output, iv := CryptCbc(c, op, iv, blocks);
      head, out := head + blocks, out + output;
    }

    /** Not enough for a block that may be output: only cache. */
    method Cache(input: Bytes)
      requires Valid() && MayHold(head, len + |input|, c.n, Keep())
      modifies this`len, this`fed, data
      ensures Valid() && fed == old(fed) + input
    {
      ConcatAssoc(head, data[..len], input);
      CopyInto(data, len, input);
      len := len + |input|;
      fed := fed + input;
    }

    method Complete(more: Bytes) returns (output: Bytes)
      requires Chained() && len + |more| == c.n
      modifies this`iv, this`len, this`head, this`out, data
      ensures Chained() && len == 0 && out == old(out) + output && head == old(head) + (old(data[..len]) + more)
    {
      CopyInto(data, len, more);
      var block := data[..c.n];
      assert Whole(c.n, c.n) == c.n + Whole(0, c.n);
      output := Process(block);
      len := 0;
    }

    /** The held bytes completed to a block and output, if there are any. */
    method Flush(input: Bytes) returns (rest: Bytes, output: Bytes)
      requires Chained() && c.n - len <= |input|
      modifies this`iv, this`len, this`head, this`out, data
      ensures Chained() && len == 0 && out == old(out) + output
      ensures head + rest == old(head) + (old(data[..len]) + input)
      ensures old(len) > 0 ==> |head| > 0 && |rest| == |input| - (c.n - old(len))
      ensures old(len) == 0 ==> head == old(head) && rest == input
    {
      rest, output := input, [];
      if len != 0 {
        ghost var held := data[..len];
        var k := c.n - len;
        output := Complete(input[..k]);
        rest := input[k..];
        assert input == input[..k] + rest;
        ConcatAssoc(old(head), held + input[..k], rest);
        ConcatAssoc(held, input[..k], rest);
      } else {
        assert data[..0] + input == input;
      }
    }

    /** Splits off the bytes to hold back: the partial block, or a whole last block if it must be kept. */
    method HoldBack(rest: Bytes) returns (blocks: Bytes)
      requires Chained() && len == 0 && (Keep() ==> |rest| > 0)
      modifies this`len, data
      ensures Chained() && rest == blocks + data[..len]
      ensures Whole(|blocks|, c.n) == |blocks| && if Keep() then len > 0 else len < c.n
    {
      blocks := rest;
      if |rest| == 0 {
        assert data[..0] == [] && rest + [] == rest;
        return;
      }
      var k := |rest| % c.n;
      if k == 0 && Keep() {
        k := c.n;
      }
      HeldBytes(|rest|, c.n, k, Keep());
      Hold(rest[|rest| - k..]);
      blocks := rest[..|rest| - k];
      assert rest == blocks + rest[|rest| - k..];
    }

    method Hold(tail: Bytes)
      requires Chained() && |tail| <= c.n
      modifies this`len, data
      ensures Chained() && len == |tail| && data[..len] == tail
    {
      CopyInto(data, 0, tail);
      len := |tail|;
      assert data[..len] == data[..0] + tail == tail;
    }

    /** Takes any number of bytes, outputs the blocks they complete and holds back the rest. */
    method Update(input: Bytes) returns (output: Bytes)
      requires Valid()
      modifies this, data
      ensures Valid() && iv0 == old(iv0) && fed == old(fed) + input && out == old(out) + output
    {
      output := [];
      if (Keep() && |input| <= c.n - len) || (!Keep() && |input| < c.n - len) {
        Cache(input);
        return;
      }
      ConcatAssoc(head, data[..len], input);
      var rest;
      rest, output := Flush(input);
      fed := fed + input;
      var more := Absorb(rest);
      ConcatAssoc(old(out), output, more);
      output := output + more;
    }

    /** What follows a block boundary: hold back the tail, output the blocks before it. */
    method Absorb(rest: Bytes) returns (output: Bytes)
      requires Chained() && len == 0 && (Keep() ==> |rest| > 0) && fed == head + rest
      modifies this`iv, this`len, this`head, this`out, data
      ensures Valid() && out == old(out) + output
    {
      var blocks := HoldBack(rest);
      ConcatAssoc(head, blocks, data[..len]);
      output := [];
      if |blocks| != 0 {
        output := Process(blocks);
      } else {
        assert head + blocks == head;
      }
    }

    /** The last block: padded and encrypted, or decrypted and stripped. */
    method Finish() returns (r: Outcome)
      requires Valid()
      modifies this, data
      ensures OneShot(c, op, pad, old(iv0), old(fed)) == if r.Done? then Done(old(out) + r.bytes) else r
    {
      FedLength();
      if op == Encrypt {
        if pad.NoPadding? {
          return if len != 0 then FullBlockExpected else Done([]);
        }
        r := FinishPadded();
      } else {
        if c.n != len {
          return if pad.NoPadding? && len == 0 then Done([]) else FullBlockExpected;
        }
        r := FinishStripped();
      }
    }

    method FinishPadded() returns (r: Outcome)
      requires Valid() && op == Encrypt && pad.With?
      modifies this, data
      ensures r.Done? && old(out) + r.bytes == Crypt(c, op, old(iv0), PadMessage(pad.mode, old(fed), c.n))
    {
      FedLength();
      assert fed[|head|..] == data[..len] && fed[..|head|] == head;
      AddPadding(pad.mode, data, c.n, len);
      assert Whole(c.n, c.n) == c.n + Whole(0, c.n);
      var output := Process(data[..c.n]);
      return Done(output);
    }

    method FinishStripped() returns (r: Outcome)
      requires Valid() && op == Decrypt && len == c.n
      modifies this, data
      ensures pad.With? && |old(fed)| >= c.n && |Crypt(c, op, old(iv0), old(fed))| >= c.n
      ensures Unpad(pad.mode, Crypt(c, op, old(iv0), old(fed)), c.n) == if r.Done? then Done(old(out) + r.bytes) else r
    {
      assert Whole(c.n, c.n) == c.n + Whole(0, c.n);
      CryptLength(c, op, iv0, head);
      CryptLength(c, op, iv0, fed);
      FedLength();
      var output := Process(data[..c.n]);
      assert out[|old(out)|..] == output;
      var ok, l := GetPadding(pad.mode, output);
      StripBlock(pad.mode, old(out), output, ok, l);
      return if ok then Done(output[..l]) else InvalidPadding;
    }

    /** The held bytes are exactly what whole blocks leave over. */
    lemma FedLength()
      requires Valid()
      ensures Whole(|fed|, c.n) == if len == c.n then |fed| else |fed| - len
      ensures len == 0 ==> fed == head
    {
      WholeAdd(|head|, len, c.n);
      assert len == c.n ==> Whole(len, c.n) == c.n + Whole(0, c.n);
    }
  }

  /** The bytes of all chunks in order. */
  function Join(chunks: seq<Bytes>): Bytes {
    if |chunks| == 0 then [] else Join(chunks[..|chunks| - 1]) + chunks[|chunks| - 1]
  }

  /** However a message is cut into update calls, outputs and finish together are the one-shot result. */
  method Stream(c: Cipher, op: Operation, pad: PadChoice, iv: Bytes, chunks: seq<Bytes>) returns (r: Outcome)
    requires BlockCipher(c) && |iv| == c.n
    ensures r == OneShot(c, op, pad, iv, Join(chunks)) && Specified(c, op, pad, iv, Join(chunks), r)
  {
    OneShotIs(c, op, pad, iv, Join(chunks));
    var ctx := new CipherContext(c, op, pad, iv);
    var all := [];
    var i := 0;
    assert chunks[..0] == [];
    while i < |chunks|
      invariant 0 <= i <= |chunks| && ctx.Valid() && ctx.iv0 == iv && fresh(ctx) && fresh(ctx.data)
      invariant ctx.fed == Join(chunks[..i]) && ctx.out == all
    {
      var o := ctx.Update(chunks[i]);
      all := all + o;
      assert chunks[..i + 1][..i] == chunks[..i];
      i := i + 1;
    }
    assert chunks[..i] == chunks;
    r := ctx.Finish();
    if r.Done? {
      r := Done(all + r.bytes);
    }
  }

  /** Encrypting under one chunking and decrypting the result under any other gives the message back. */
  method StreamRoundTrip(c: Cipher, mode: Mode, iv: Bytes, chunks: seq<Bytes>, cuts: seq<nat>) returns (m: Outcome)
    requires BlockCipher(c) && |iv| == c.n
    ensures m == Done(Join(chunks))
  {
    var e := Stream(c, Encrypt, With(mode), iv, chunks);
    OneShotRoundTrip(c, mode, iv, Join(chunks));
    var pieces := Cut(e.bytes, cuts);
    JoinCut(e.bytes, cuts);
    m := Stream(c, Decrypt, With(mode), iv, pieces);
  }

  /** Cuts a string at the given lengths, the rest as a last piece. */
  function Cut(b: Bytes, cuts: seq<nat>): seq<Bytes>
    decreases |cuts|
  {
    if |cuts| == 0 then [b]
    else if cuts[|cuts| - 1] <= |b| then
      var k := |b| - cuts[|cuts| - 1];
      Cut(b[..k], cuts[..|cuts| - 1]) + [b[k..]]
    else Cut(b, cuts[..|cuts| - 1]) + [[]]
  }

  lemma {:induction false} JoinCut(b: Bytes, cuts: seq<nat>)
    ensures Join(Cut(b, cuts)) == b
    decreases |cuts|
  {
    if |cuts| == 0 {
      assert [b][..0] == [];
      assert [] + b == b;
    } else {
      var l := cuts[|cuts| - 1];
      var k := if l <= |b| then |b| - l else |b|;
      var front := cuts[..|cuts| - 1];
      assert b[..|b|] == b && b[|b|..] == [];
      JoinCut(b[..k], front);
      var p := Cut(b[..k], front);
      assert (p + [b[k..]])[..|p|] == p;
      assert b[..k] + b[k..] == b;
    }
  }
}
