/** CMAC over an abstract block cipher (RFC 4493), fed in any number of pieces. */
module Cmac {
  import opened Arith
  import opened Bits
  import opened ByteStrings
  import opened Sequences
  import opened Cbc
  import opened CbcStream

  // ----- doubling in GF(2^n)

  /** The reduction constant R_n of the two block sizes. */
  function Rb(n: nat): Byte {
    if n == 16 then 0x87 else 0x1B
  }

  /** Multiplication by u as arithmetic: shift left, and fold the bit that falls out back in. */
  function Doubled(v: nat, n: nat): nat {
    if 2 * v < Pow256(n) then 2 * v else Xor(2 * v - Pow256(n), Rb(n))
  }

  /** x << 1 | carry, on a byte. */
  lemma ShiftByte(x: Byte, carry: nat)
    requires carry <= 1
    ensures Or((2 * x) % 256, carry) == (2 * x) % 256 + carry < 256
    ensures 2 * x + carry == 256 * (x / 128) + (2 * x) % 256 + carry
  {
    var h := (2 * x) % 256;
    OrIsAdd(h / 2, carry, 1, h);
  }

  /** Exclusive or with a byte touches only the last byte. */
  lemma {:induction false} XorLow(h: nat, x: nat, r: nat, k: nat, word: nat)
    requires x < Pow2(k) && r < Pow2(k) && word == h * Pow2(k)
    ensures Xor(word + x, r) == word + Xor(x, r)
    decreases k
  {
    if k == 0 {
      XorZero(word);
    } else {
      var q := HalfWord(h, k, word);
      Halves(x, k);
      Halves(r, k);
      XorLow(h, x / 2, r / 2, k - 1, q);
      XorEven(q, x, r, word);
    }
  }

  lemma HalfWord(h: nat, k: nat, word: nat) returns (q: nat)
    requires k > 0 && word == h * Pow2(k)
    ensures word == 2 * q && q == h * Pow2(k - 1)
  {
    MulMono(0, h, Pow2(k - 1));
    q := h * Pow2(k - 1);
    Rotate(h, 2, Pow2(k - 1));
    Assoc(h, 2, Pow2(k - 1));
  }

  lemma Halves(x: nat, k: nat)
    requires k > 0 && x < Pow2(k)
    ensures x / 2 < Pow2(k - 1)
  {
  }

  lemma XorEven(w: nat, x: nat, r: nat, word: nat)
    requires word == 2 * w && Xor(w + x / 2, r / 2) == w + Xor(x / 2, r / 2)
    ensures Xor(word + x, r) == word + Xor(x, r)
  {
    ModUnique(word + x, w + x / 2, x % 2, 2);
    XorStep(word + x, r);
    XorStep(x, r);
    FromHalf(Xor(word + x, r), Xor(x, r), w);
  }

  lemma FromHalf(a: int, b: int, w: int)
    requires a % 2 == b % 2 && a / 2 == w + b / 2
    ensures a == 2 * w + b
  {
  }

  lemma LastByteXor(h: Bytes, x: Byte, r: Byte)
    ensures BigEndian(h + [XorBytes(x, r)]) == Xor(BigEndian(h + [x]), r)
  {
    assert (h + [x])[..|h|] == h && (h + [XorBytes(x, r)])[..|h|] == h;
    assert Pow2(8) == 256;
    XorLow(BigEndian(h), x, r, 8, BigEndian(h) * 256);
  }

  /** The shift loop, right to left; the carry out of the top byte is the top bit. */
  method ShiftLeft(input: Bytes) returns (output: Bytes, overflow: nat)
    ensures |output| == |input| && overflow <= 1
    ensures BigEndian(output) + overflow * Pow256(|input|) == 2 * BigEndian(input)
    ensures |input| > 0 ==> overflow == input[0] / 128
  {
    output, overflow := [], 0;
    var i := |input|;
    assert input[i..] == [];
    while i > 0
      invariant 0 <= i <= |input| && |output| == |input| - i && overflow <= 1
      invariant BigEndian(output) + overflow * Pow256(|input| - i) == 2 * BigEndian(input[i..])
      invariant i < |input| ==> overflow == input[i] / 128
    {
      i := i - 1;
      ghost var before, c0 := output, overflow;
      var x: int := input[i];
      ShiftByte(x, overflow);
      var y: Byte := Or((2 * x) % 256, overflow);
      output := [y] + output;
      overflow := x / 128;
      assert input[i..] == [x] + input[i + 1..];
      BigEndianCons(x, input[i + 1..]);
      BigEndianCons(y, before);
      ShiftStep(y, overflow, x, c0, Pow256(|before|), BigEndian(before), BigEndian(input[i + 1..]));
    }
    assert input[0..] == input;
  }

  lemma ShiftStep(y: int, c: int, x: int, c0: int, w: int, out: int, rest: int)
    requires 256 * c + y == 2 * x + c0 && out + c0 * w == 2 * rest
    ensures (y * w + out) + c * (256 * w) == 2 * (x * w + rest)
  {
    Distribute(w, 256 * c, y);
    Distribute(w, 2 * x, c0);
    Assoc(2, x, w);
    Rotate(256, c, w);
  }

  /** cmac_multiply_by_u. */
  method MultiplyByU(input: Bytes) returns (ok: bool, output: Bytes)
    ensures ok <==> |input| == 8 || |input| == 16
    ensures ok ==> |output| == |input| && BigEndian(output) == Doubled(BigEndian(input), |input|)
    ensures ok ==> TimesU(input, output, |input|)
  {
    var n := |input|;
    if n != 8 && n != 16 {
      return false, [];
    }
    output := ShiftAndFold(input);
    DoubledIsTimesU(input, output, n);
    ok := true;
  }

  method ShiftAndFold(input: Bytes) returns (output: Bytes)
    requires |input| > 0
    ensures |output| == |input| && BigEndian(output) == Doubled(BigEndian(input), |input|)
  {
    var n := |input|;
    var overflow;
    output, overflow := ShiftLeft(input);
    BigEndianBound(output);
    DoubledShift(BigEndian(input), BigEndian(output), overflow, n);
    var last := output[n - 1];
    assert output == output[..n - 1] + [last];
    LastByteXor(output[..n - 1], last, Rb(n));
    XorZero(last);
    var mask := if input[0] / 128 != 0 then Rb(n) else 0;
    output := output[..n - 1] + [XorBytes(last, mask)];
  }

  lemma DoubledShift(v: nat, out: nat, overflow: nat, n: nat)
    requires overflow <= 1 && out < Pow256(n) && out + overflow * Pow256(n) == 2 * v
    ensures Doubled(v, n) == if overflow == 1 then Xor(out, Rb(n)) else out
  {
    var w := Pow256(n);
    assert overflow * w == if overflow == 1 then w else 0;
    if overflow == 1 {
      assert 2 * v - w == out;
    }
  }

  // ----- doubling as polynomials over GF(2)

  /** The polynomials x^128 + x^7 + x^2 + x + 1 and x^64 + x^4 + x^3 + x + 1 of NIST SP 800-38B, section 5.3. */
  function Modulus(n: nat): nat {
    Pow2(8 * n) + if n == 16 then Pow2(7) + Pow2(2) + Pow2(1) + Pow2(0) else Pow2(4) + Pow2(3) + Pow2(1) + Pow2(0)
  }

  /** y is x times u modulo the polynomial: of degree below 8n, and 2x itself or 2x and the modulus mixed. */
  ghost predicate TimesU(x: Bytes, y: Bytes, n: nat) {
    |y| == |x| == n && (BigEndian(y) == 2 * BigEndian(x) || BigEndian(y) == Xor(2 * BigEndian(x), Modulus(n)))
  }

  lemma {:induction false} Pow256IsPow2(n: nat)
    ensures Pow256(n) == Pow2(8 * n)
  {
    if n > 0 {
      Pow256IsPow2(n - 1);
      Pow2Add(8, 8 * (n - 1));
      assert Pow2(8) == 256;
    }
  }

  /** A common high part cancels. */
  lemma {:induction false} XorHigh(h: nat, x: nat, r: nat, k: nat, word: nat)
    requires x < Pow2(k) && r < Pow2(k) && word == h * Pow2(k)
    ensures Xor(word + x, word + r) == Xor(x, r)
    decreases k
  {
    if k == 0 {
      XorZero(word);
      XorZero(0);
    } else {
      var q := HalfWord(h, k, word);
      Halves(x, k);
      Halves(r, k);
      XorHigh(h, x / 2, r / 2, k - 1, q);
      XorBoth(q, x, r, word);
    }
  }

  lemma XorBoth(w: nat, x: nat, r: nat, word: nat)
    requires word == 2 * w && Xor(w + x / 2, w + r / 2) == Xor(x / 2, r / 2)
    ensures Xor(word + x, word + r) == Xor(x, r)
  {
    var a, b := word + x, word + r;
    ModUnique(a, w + x / 2, x % 2, 2);
    ModUnique(b, w + r / 2, r % 2, 2);
    SameHalves(a, b, x, r);
  }

  lemma SameHalves(a: nat, b: nat, x: nat, r: nat)
    requires a % 2 == x % 2 && b % 2 == r % 2 && Xor(a / 2, b / 2) == Xor(x / 2, r / 2)
    ensures Xor(a, b) == Xor(x, r)
  {
    XorStep(a, b);
    XorStep(x, r);
    FromHalf(Xor(a, b), Xor(x, r), 0);
  }

  lemma DoubledIsTimesU(x: Bytes, y: Bytes, n: nat)
    requires |x| == |y| == n && (n == 8 || n == 16) && BigEndian(y) == Doubled(BigEndian(x), n)
    ensures TimesU(x, y, n)
  {
    BigEndianBound(x);
    DoubledValue(BigEndian(x), n);
  }

  lemma DoubledValue(v: nat, n: nat)
    requires (n == 8 || n == 16) && v < Pow256(n)
    ensures Doubled(v, n) == 2 * v || Doubled(v, n) == Xor(2 * v, Modulus(n))
  {
    Pow256IsPow2(n);
    RbBelow(n);
    ModulusIs(n);
    FoldTop(2 * v, Pow256(n), Rb(n), 8 * n, Modulus(n), Doubled(v, n));
  }

  lemma FoldTop(v: nat, w: nat, r: nat, k: nat, modulus: nat, d: nat)
    requires w == Pow2(k) && v < 2 * w && r < w && modulus == w + r && d == if v < w then v else Xor(v - w, r)
    ensures d == v || d == Xor(v, modulus)
  {
    if v >= w {
      XorHigh(1, v - w, r, k, w);
    }
  }

  lemma ModulusIs(n: nat)
    requires n == 8 || n == 16
    ensures Modulus(n) == Pow2(8 * n) + Rb(n)
  {
    LowTerms();
  }

  lemma LowTerms()
    ensures Pow2(7) + Pow2(2) + Pow2(1) + Pow2(0) == 0x87 && Pow2(4) + Pow2(3) + Pow2(1) + Pow2(0) == 0x1B
  {
  }

  lemma RbBelow(n: nat)
    requires n >= 1
    ensures Rb(n) < Pow2(8 * n)
  {
    Pow2Mono(8, 8 * n);
    assert Pow2(8) == 256;
  }

  // ----- the definition

  /** Subkeys K1 and K2 (section 2.3 of RFC 4493), as the blocks with these numbers. */
  ghost predicate Subkeys(c: Cipher, k1: Bytes, k2: Bytes)
    requires BlockCipher(c)
  {
    && |k1| == c.n == |k2|
    && BigEndian(k1) == Doubled(BigEndian(c.enc(Repeat(0, c.n))), c.n) && BigEndian(k2) == Doubled(BigEndian(k1), c.n)
  }

  lemma SubkeysUnique(c: Cipher, k1: Bytes, k2: Bytes, l1: Bytes, l2: Bytes)
    requires BlockCipher(c) && Subkeys(c, k1, k2) && Subkeys(c, l1, l2)
    ensures k1 == l1 && k2 == l2
  {
    BigEndianInjective(k1, l1);
    BigEndianInjective(k2, l2);
  }

  /** Where the last block of a message begins; a whole last block counts as last. */
  function LastAt(k: nat, n: nat): (h: nat)
    requires n > 0
    ensures h <= k <= h + n
  {
    if k == 0 then 0 else Whole(k - 1, n)
  }

  /** The masked last block: M_n xor K1 if complete, padded M_n xor K2 if not. */
  function MaskLast(last: Bytes, n: nat, k1: Bytes, k2: Bytes): Bytes
    requires |last| <= n == |k1| == |k2|
  {
    if |last| == n then XorSeq(last, k1) else XorSeq(last + [0x80] + Repeat(0, n - |last| - 1), k2)
  }

  /** The MAC of a message (section 2.4 of RFC 4493). */
  function Mac(c: Cipher, k1: Bytes, k2: Bytes, m: Bytes): Bytes
    requires BlockCipher(c) && |k1| == c.n == |k2|
  {
    var h := LastAt(|m|, c.n);
    var x := IvAfter(c, Encrypt, Repeat(0, c.n), m[..h]);
    c.enc(XorSeq(MaskLast(m[h..], c.n, k1, k2), x))
  }

  // ----- the same by sections 6.1 and 6.2 of NIST SP 800-38B

  ghost predicate IsSubkeys(c: Cipher, k1: Bytes, k2: Bytes) {
    TimesU(c.enc(Repeat(0, c.n)), k1, c.n) && TimesU(k1, k2, c.n)
  }

  /** p is the message with its last block masked: with K1 if it is whole, else filled up with 1 0...0 and with K2. */
  ghost predicate Masked(m: Bytes, n: nat, k1: Bytes, k2: Bytes, p: Bytes)
    requires n > 0 && |k1| == n == |k2|
  {
    && |p| % n == 0 && n <= |p| <= |m| + n
    && var h := |p| - n;
       && p[..h] == m[..h]
       && if |m| > 0 && |m| % n == 0 then |p| == |m| && p[h..] == XorSeq(m[h..], k1)
          else |m| < |p| && p[h..] == XorSeq(m[h..] + [0x80] + Repeat(0, |p| - |m| - 1), k2)
  }

  /** The last block of the CBC encryption of the masked message from a zero block. */
  ghost predicate IsMac(c: Cipher, k1: Bytes, k2: Bytes, m: Bytes, mac: Bytes)
    requires BlockCipher(c) && |k1| == c.n == |k2|
  {
    exists p, e :: Masked(m, c.n, k1, k2, p) && IsCbc(c, Encrypt, Repeat(0, c.n), p, e) && mac == Last(e, c.n)
  }

  function Last(e: Bytes, n: nat): Bytes {
    if |e| >= n then e[|e| - n..] else []
  }

  lemma SubkeysAre(c: Cipher, k1: Bytes, k2: Bytes)
    requires BlockCipher(c) && (c.n == 8 || c.n == 16) && Subkeys(c, k1, k2)
    ensures IsSubkeys(c, k1, k2)
  {
    assert Inverts(c, Repeat(0, c.n));
    DoubledIsTimesU(c.enc(Repeat(0, c.n)), k1, c.n);
    DoubledIsTimesU(k1, k2, c.n);
  }

  lemma MacIs(c: Cipher, k1: Bytes, k2: Bytes, m: Bytes)
    requires BlockCipher(c) && |k1| == c.n == |k2|
    ensures IsMac(c, k1, k2, m, Mac(c, k1, k2, m))
  {
    var h, z := LastAt(|m|, c.n), Repeat(0, c.n);
    LastOffset(|m|, c.n);
    var x := MaskLast(m[h..], c.n, k1, k2);
    var p := m[..h] + x;
    MaskedIs(m, c.n, k1, k2, h);
    CryptIsCbc(c, Encrypt, z, p);
    LastOfCbc(c, z, m[..h], x);
    assert Masked(m, c.n, k1, k2, p) && IsCbc(c, Encrypt, z, p, Crypt(c, Encrypt, z, p));
  }

  lemma LastOffset(k: nat, n: nat)
    requires n > 0
    ensures var h := LastAt(k, n);
            && h % n == 0 && (h + n) % n == 0 && Whole(h, n) == h && k <= h + n && (k > 0 ==> h < k)
            && (k == h + n <==> k > 0 && k % n == 0)
  {
    var h := LastAt(k, n);
    if k > 0 {
      WholeIdem(k - 1, n);
    }
    WholeIff(h, n);
    BlockBefore(h, n);
    if k > 0 && k % n == 0 {
      BlockBefore(k, n);
      LastUnique(k - n, h, n);
    }
  }

  /** Two multiples less than n apart are the same. */
  lemma LastUnique(a: nat, b: nat, n: nat)
    requires n > 0 && a % n == 0 && b % n == 0 && a < b + n && b < a + n
    ensures a == b
  {
    DivBounds(a, n);
    DivBounds(b, n);
    CancelLt(a / n, b / n + 1, n);
    CancelLt(b / n, a / n + 1, n);
    Plus1(a / n, n);
    Plus1(b / n, n);
  }

  lemma MaskedIs(m: Bytes, n: nat, k1: Bytes, k2: Bytes, h: nat)
    requires n > 0 && |k1| == n == |k2| && h == LastAt(|m|, n)
    ensures |MaskLast(m[h..], n, k1, k2)| == n && Masked(m, n, k1, k2, m[..h] + MaskLast(m[h..], n, k1, k2))
  {
    LastOffset(|m|, n);
    var x := MaskLast(m[h..], n, k1, k2);
    TwoPieces(m[..h], x);
    MaskedFrom(m, n, k1, k2, h, x, m[..h] + x);
  }

  lemma TwoPieces(a: Bytes, x: Bytes)
    ensures (a + x)[..|a|] == a && (a + x)[|a|..] == x
  {
  }

  lemma MaskedFrom(m: Bytes, n: nat, k1: Bytes, k2: Bytes, h: nat, x: Bytes, p: Bytes)
    requires n > 0 && |k1| == n == |k2| && h == LastAt(|m|, n) && x == MaskLast(m[h..], n, k1, k2)
    requires |p| == h + n && p[..h] == m[..h] && p[h..] == x
    ensures Masked(m, n, k1, k2, p)
  {
    LastOffset(|m|, n);
    assert n - |m[h..]| - 1 == |p| - |m| - 1;
  }

  lemma LastOfCbc(c: Cipher, z: Bytes, a: Bytes, x: Bytes)
    requires BlockCipher(c) && |z| == c.n == |x| && Whole(|a|, c.n) == |a|
    ensures Last(Crypt(c, Encrypt, z, a + x), c.n) == c.enc(XorSeq(x, IvAfter(c, Encrypt, z, a)))
  {
    var iv := IvAfter(c, Encrypt, z, a);
    CryptAppend(c, Encrypt, z, a, x);
    BlockSize(c, Encrypt, iv, x);
    CryptFirst(c, Encrypt, iv, x, []);
    assert x + [] == x;
  }

  // ----- the context

  /** ceil(k / n). */
  function Ceil(k: nat, n: nat): int
    requires n > 0
  {
    (k + n - 1) / n
  }

  lemma CeilStep(k: nat, n: nat)
    requires n > 0
    ensures k > n ==> Ceil(k, n) == 1 + Ceil(k - n, n)
    ensures Ceil(k, n) > 1 <==> k > n
    ensures Ceil(k, n) >= 0
  {
    QuotientAtLeast(0, n, k + n - 1);
    if k > n {
      QuotientAtLeast(2, n, k + n - 1);
      DivBounds(k - 1, n);
      Plus1((k - 1) / n, n);
      ModUnique(k + n - 1, (k - 1) / n + 1, (k - 1) % n, n);
    } else {
      QuotientBelow(2, n, k + n - 1);
    }
  }

  class CmacContext {
    const c: Cipher
    var state: Bytes
    const block: array<Byte>
    var len: nat

    ghost var fed: Bytes
    ghost var head: Bytes

    ghost predicate Chained()
      reads this, block
    {
      && BlockCipher(c) && (c.n == 8 || c.n == 16) && block.Length == 16 && len <= c.n && Whole(|head|, c.n) == |head|
      && state == IvAfter(c, Encrypt, Repeat(0, c.n), head)
    }

    /** Everything fed is in the state or held, and a last block, whole or not, is always held. */
    ghost predicate Valid()
      reads this, block
    {
      Chained() && fed == head + block[..len] && MayHold(head, len, c.n, true)
    }

    /** cmac_starts. */
    constructor (c: Cipher)
      requires BlockCipher(c) && (c.n == 8 || c.n == 16)
      ensures Valid() && fresh(block) && fed == [] && this.c == c
    {
      this.c := c;
      state := Repeat(0, c.n);
      block := new Byte[16](_ => 0);
      len, fed, head := 0, [], [];
    }

    /** state = E(state xor x). */
    method Process(x: Bytes)
      requires Chained() && |x| == c.n
      modifies this`state, this`head
      ensures Chained() && head == old(head) + x
    {
      ghost var z := Repeat(0, c.n);
      assert Whole(c.n, c.n) == c.n + Whole(0, c.n);
      WholeAdd(|head|, c.n, c.n);
      CryptAppend(c, Encrypt, z, head, x);
      assert x[..c.n] == x && x[c.n..] == [];
      assert IvAfter(c, Encrypt, state, x) == IvAfter(c, Encrypt, NextIv(c, Encrypt, state, x), []);
      state := c.enc(XorSeq(x, state));
      head := head + x;
    }

    /** The held bytes completed to a block and chained in. */
    method Flush(input: Bytes) returns (rest: Bytes)
      requires Chained() && c.n - len <= |input|
      modifies this`state, this`head, this`len, block
      ensures Chained() && len == 0 && |rest| == |input| - (c.n - old(len))
      ensures head + rest == old(head) + (old(block[..len]) + input)
    {
      ghost var held := block[..len];
      var k := c.n - len;
      CopyInto(block, len, input[..k]);
      var x := block[..c.n];
      Process(x);
      len := 0;
      rest := input[k..];
      assert x + rest == held + input;
      ConcatAssoc(old(head), x, rest);
    }

    /** Chains in blocks until at most one block is left. */
    method Blocks(input: Bytes) returns (rest: Bytes)
      requires Chained()
      modifies this`state, this`head
      ensures Chained() && head + rest == old(head) + input && |rest| <= c.n
      ensures |input| > 0 ==> |rest| > 0
      ensures |input| <= c.n ==> rest == input && head == old(head)
    {
      rest := input;
      var n := Ceil(|input|, c.n);
      var j := 1;
      CeilStep(|rest|, c.n);
      while j < n
        invariant Chained() && 1 <= j && (n > 0 ==> Ceil(|rest|, c.n) == n - j + 1) && (n == 0 ==> rest == input)
        invariant head + rest == old(head) + input && (|input| > 0 ==> |rest| > 0)
        invariant |input| <= c.n ==> rest == input && head == old(head)
      {
        CeilStep(|rest|, c.n);
        ConcatAssoc(head, rest[..c.n], rest[c.n..]);
        assert rest == rest[..c.n] + rest[c.n..];
        Process(rest[..c.n]);
        rest := rest[c.n..];
        j := j + 1;
      }
      CeilStep(|rest|, c.n);
    }

    /** What is left after the flush: whole blocks are chained in, the last one is appended to what is held. */
    method Absorb(input: Bytes)
      requires Chained() && fed == head + (block[..len] + input)
      requires (len == 0 || |input| <= c.n - len) && (len + |input| > 0 || head == [])
      modifies this`state, this`head, this`len, block
      ensures Valid()
    {
      ghost var held := block[..len];
      var rest := Blocks(input);
      assert fed == head + (held + rest) by {
        if len == 0 {
          assert held == [] && held + input == input && held + rest == rest;
        }
      }
      ConcatAssoc(head, held, rest);
      if |rest| > 0 {
        CopyInto(block, len, rest);
        len := len + |rest|;
      } else {
        assert held + rest == held;
      }
    }

    /** cmac_update: any number of bytes, empty and block-aligned ones included. */
    method Update(input: Bytes)
      requires Valid()
      modifies this, block
      ensures Valid() && fed == old(fed) + input
    {
      ConcatAssoc(head, block[..len], input);
      fed := fed + input;
      var rest := input;
      if len > 0 && |input| > c.n - len {
        rest := Flush(input);
        assert block[..0] + rest == rest;
      }
      Absorb(rest);
    }

    /** cmac_generate_subkeys. */
    method GenerateSubkeys() returns (k1: Bytes, k2: Bytes)
      requires BlockCipher(c) && (c.n == 8 || c.n == 16)
      ensures Subkeys(c, k1, k2)
    {
      var z := Repeat(0, c.n);
      assert Inverts(c, z);
      var L := c.enc(z);
      var ok;
      ok, k1 := MultiplyByU(L);
      ok, k2 := MultiplyByU(k1);
    }

    /** cmac_pad and the subkey mask on the held bytes. */
    method LastBlock(k1: Bytes, k2: Bytes) returns (m: Bytes)
      requires Valid() && |k1| == c.n == |k2|
      ensures m == MaskLast(block[..len], c.n, k1, k2)
    {
      var last := block[..len];
      if len < c.n {
        var padded := [];
        var j := 0;
        while j < c.n
          invariant 0 <= j <= c.n && |padded| == j
          invariant forall i :: 0 <= i < j ==> padded[i] == if i < len then last[i] else if i == len then 0x80 else 0
        {
          padded := padded + [if j < len then block[j] else if j == len then 0x80 else 0x00];
          j := j + 1;
        }
        assert padded == last + [0x80] + Repeat(0, c.n - len - 1);
        m := XorSeq(padded, k2);
      } else {
        m := XorSeq(last, k1);
      }
    }

    /** The held bytes are the last block of what was fed. */
    lemma HeldIsLast()
      requires Valid()
      ensures LastAt(|fed|, c.n) == |head| && fed[..|head|] == head && fed[|head|..] == block[..len]
    {
      if len > 0 {
        WholeAdd(|head|, len - 1, c.n);
      }
    }

    /** cmac_finish: the MAC of everything fed, and a context as good as new. */
    method Finish() returns (mac: Bytes, ghost k1: Bytes, ghost k2: Bytes)
      requires Valid()
      modifies this, block
      ensures Subkeys(c, k1, k2) && mac == Mac(c, k1, k2, old(fed))
      ensures IsSubkeys(c, k1, k2) && IsMac(c, k1, k2, old(fed), mac)
      ensures Valid() && fed == [] && state == Repeat(0, c.n) && len == 0
    {
      var key1, key2 := GenerateSubkeys();
      k1, k2 := key1, key2;
      HeldIsLast();
      var m := LastBlock(key1, key2);
      mac := c.enc(XorSeq(m, state));
      SubkeysAre(c, k1, k2);
      MacIs(c, k1, k2, fed);
      Reset();
    }

    /** cmac_reset. */
    method Reset()
      requires Chained()
      modifies this, block
      ensures Valid() && fed == [] && state == Repeat(0, c.n) && len == 0
    {
      len, fed, head := 0, [], [];
      state := Repeat(0, c.n);
      CopyInto(block, 0, Repeat(0, 16));
    }
  }

  /** However a message is cut, the MAC is that of the whole; two messages in a row do not disturb each other. */
  method MacOfChunks(ctx: CmacContext, chunks: seq<Bytes>) returns (mac: Bytes, ghost k1: Bytes, ghost k2: Bytes)
    requires ctx.Valid() && ctx.fed == []
    modifies ctx, ctx.block
    ensures Subkeys(ctx.c, k1, k2) && mac == Mac(ctx.c, k1, k2, Join(chunks)) && ctx.Valid() && ctx.fed == []
    ensures IsSubkeys(ctx.c, k1, k2) && IsMac(ctx.c, k1, k2, Join(chunks), mac)
  {
    var i := 0;
    assert chunks[..0] == [];
    while i < |chunks|
      invariant 0 <= i <= |chunks| && ctx.Valid() && ctx.fed == Join(chunks[..i])
    {
      ctx.Update(chunks[i]);
      assert chunks[..i + 1][..i] == chunks[..i];
      i := i + 1;
    }
    assert chunks[..i] == chunks;
    mac, k1, k2 := ctx.Finish();
  }
}
