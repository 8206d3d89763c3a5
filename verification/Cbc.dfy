/** Cipher block chaining over an abstract block cipher (section 6.2 of NIST SP 800-38A). */
module Cbc {
  import opened Arith
  import opened ByteStrings
  import opened Sequences

  /** A keyed block cipher: n-byte blocks, enc and dec on them. */
  datatype Cipher = Cipher(n: nat, enc: Bytes -> Bytes, dec: Bytes -> Bytes)

  /** What one block needs: lengths are kept and dec undoes enc. */
  ghost predicate Inverts(c: Cipher, b: Bytes) {
    |b| == c.n ==> |c.enc(b)| == c.n && |c.dec(b)| == c.n && c.dec(c.enc(b)) == b
  }

  ghost predicate BlockCipher(c: Cipher) {
    1 <= c.n <= 16 && forall b: Bytes :: Inverts(c, b)
  }

  datatype Operation = Encrypt | Decrypt

  /** One block and the chaining value after it. */
  function Block(c: Cipher, op: Operation, iv: Bytes, x: Bytes): Bytes
    requires BlockCipher(c) && |iv| == c.n == |x|
  {
    if op == Encrypt then
      c.enc(XorSeq(x, iv))
    else
      assert Inverts(c, x);
      XorSeq(c.dec(x), iv)
  }

  lemma BlockSize(c: Cipher, op: Operation, iv: Bytes, x: Bytes)
    requires BlockCipher(c) && |iv| == c.n == |x|
    ensures |Block(c, op, iv, x)| == c.n
  {
    assert Inverts(c, XorSeq(x, iv)) && Inverts(c, x);
  }

  function NextIv(c: Cipher, op: Operation, iv: Bytes, x: Bytes): (r: Bytes)
    requires BlockCipher(c) && |iv| == c.n == |x|
    ensures |r| == c.n
  {
    BlockSize(c, op, iv, x);
    if op == Encrypt then Block(c, op, iv, x) else x
  }

  /** All whole blocks of m. */
  function Crypt(c: Cipher, op: Operation, iv: Bytes, m: Bytes): Bytes
    requires BlockCipher(c) && |iv| == c.n
    decreases |m|
  {
    if |m| < c.n then [] else Block(c, op, iv, m[..c.n]) + Crypt(c, op, NextIv(c, op, iv, m[..c.n]), m[c.n..])
  }

  /** The chaining value after all whole blocks of m. */
  function IvAfter(c: Cipher, op: Operation, iv: Bytes, m: Bytes): (r: Bytes)
    requires BlockCipher(c) && |iv| == c.n
    ensures |r| == c.n
    decreases |m|
  {
    if |m| < c.n then iv else IvAfter(c, op, NextIv(c, op, iv, m[..c.n]), m[c.n..])
  }

  /** The number of bytes in the whole blocks among k bytes. */
  function Whole(k: nat, n: nat): (w: nat)
    requires n > 0
    ensures w <= k < w + n
  {
    if k < n then 0 else n + Whole(k - n, n)
  }

  lemma {:induction false} WholeAdd(h: nat, k: nat, n: nat)
    requires n > 0 && Whole(h, n) == h
    ensures Whole(h + k, n) == h + Whole(k, n)
    decreases h
  {
    if h >= n {
      WholeAdd(h - n, k, n);
    }
  }

  lemma {:induction false} WholeMod(k: nat, n: nat)
    requires n > 0
    ensures k % n == k - Whole(k, n)
    decreases k
  {
    if k < n {
      ModUnique(k, 0, k, n);
    } else {
      WholeMod(k - n, n);
      DivBounds(k - n, n);
      Plus1((k - n) / n, n);
      ModUnique(k, (k - n) / n + 1, (k - n) % n, n);
    }
  }

  lemma {:induction false} WholeIdem(k: nat, n: nat)
    requires n > 0
    ensures Whole(Whole(k, n), n) == Whole(k, n)
    decreases k
  {
    if k >= n {
      WholeIdem(k - n, n);
    }
  }

  lemma {:induction false} CryptLength(c: Cipher, op: Operation, iv: Bytes, m: Bytes)
    requires BlockCipher(c) && |iv| == c.n
    ensures |Crypt(c, op, iv, m)| == Whole(|m|, c.n)
    decreases |m|
  {
    if |m| >= c.n {
      BlockSize(c, op, iv, m[..c.n]);
      CryptLength(c, op, NextIv(c, op, iv, m[..c.n]), m[c.n..]);
    }
  }

  /** Chaining: a message cut at a block boundary is two messages, the second under the running value. */
  lemma {:induction false} CryptAppend(c: Cipher, op: Operation, iv: Bytes, a: Bytes, b: Bytes)
    requires BlockCipher(c) && |iv| == c.n && Whole(|a|, c.n) == |a|
    ensures Crypt(c, op, iv, a + b) == Crypt(c, op, iv, a) + Crypt(c, op, IvAfter(c, op, iv, a), b)
    ensures IvAfter(c, op, iv, a + b) == IvAfter(c, op, IvAfter(c, op, iv, a), b)
    decreases |a|
  {
    if |a| < c.n {
      assert a + b == b;
    } else {
      var x, r := a[..c.n], a[c.n..];
      CryptAppend(c, op, NextIv(c, op, iv, x), r, b);
      assert a == x + r;
      AppendFirst(c, op, iv, x, r, b, NextIv(c, op, iv, x));
    }
  }

  /** One more block in front. */
  lemma AppendFirst(c: Cipher, op: Operation, iv: Bytes, x: Bytes, r: Bytes, b: Bytes, iv': Bytes)
    requires BlockCipher(c) && |iv| == c.n == |x| && iv' == NextIv(c, op, iv, x)
    requires Crypt(c, op, iv', r + b) == Crypt(c, op, iv', r) + Crypt(c, op, IvAfter(c, op, iv', r), b)
    requires IvAfter(c, op, iv', r + b) == IvAfter(c, op, IvAfter(c, op, iv', r), b)
    ensures Crypt(c, op, iv, (x + r) + b) == Crypt(c, op, iv, x + r) + Crypt(c, op, IvAfter(c, op, iv, x + r), b)
    ensures IvAfter(c, op, iv, (x + r) + b) == IvAfter(c, op, IvAfter(c, op, iv, x + r), b)
  {
    ConcatAssoc(x, r, b);
    CryptFirst(c, op, iv, x, r);
    CryptFirst(c, op, iv, x, r + b);
    ConcatAssoc(Block(c, op, iv, x), Crypt(c, op, iv', r), Crypt(c, op, IvAfter(c, op, iv', r), b));
  }

  lemma CryptFirst(c: Cipher, op: Operation, iv: Bytes, x: Bytes, r: Bytes)
    requires BlockCipher(c) && |iv| == c.n == |x|
    ensures Crypt(c, op, iv, x + r) == Block(c, op, iv, x) + Crypt(c, op, NextIv(c, op, iv, x), r)
    ensures IvAfter(c, op, iv, x + r) == IvAfter(c, op, NextIv(c, op, iv, x), r)
  {
    assert (x + r)[..c.n] == x && (x + r)[c.n..] == r;
  }

  lemma BlockInverse(c: Cipher, iv: Bytes, x: Bytes)
    requires BlockCipher(c) && |iv| == c.n == |x|
    ensures var y := Block(c, Encrypt, iv, x); |y| == c.n && Block(c, Decrypt, iv, y) == x
  {
    BlockSize(c, Encrypt, iv, x);
    assert Inverts(c, XorSeq(x, iv));
    XorSeqCancel(x, iv);
  }

  /** Decryption undoes encryption on whole blocks. */
  lemma {:induction false} CryptInverse(c: Cipher, iv: Bytes, m: Bytes)
    requires BlockCipher(c) && |iv| == c.n && Whole(|m|, c.n) == |m|
    ensures Crypt(c, Decrypt, iv, Crypt(c, Encrypt, iv, m)) == m
    decreases |m|
  {
    var n := c.n;
    if |m| >= n {
      var x := m[..n];
      var y := Block(c, Encrypt, iv, x);
      BlockInverse(c, iv, x);
      var rest := Crypt(c, Encrypt, y, m[n..]);
      CryptInverse(c, y, m[n..]);
      assert (y + rest)[..n] == y && (y + rest)[n..] == rest;
      assert m == x + m[n..];
    }
  }

  // ----- the mode block by block

  /** One block by section 6.2 of NIST SP 800-38A; `before` is the cipher text block before it, or the initial value. */
  ghost predicate Chained(c: Cipher, op: Operation, x: Bytes, y: Bytes, before: Bytes)
    requires BlockCipher(c) && |x| == c.n == |before|
  {
    assert Inverts(c, x);
    y == if op == Encrypt then c.enc(XorSeq(x, before)) else XorSeq(c.dec(x), before)
  }

  function Before(iv: Bytes, s: Bytes, k: nat, n: nat): (b: Bytes)
    requires |iv| == n && k <= |s| && (k == 0 || k >= n)
    ensures |b| == n
  {
    if k == 0 then iv else s[k - n..k]
  }

  ghost predicate BlockAt(c: Cipher, op: Operation, iv: Bytes, m: Bytes, e: Bytes, ct: Bytes, k: nat)
    requires BlockCipher(c) && |iv| == c.n && |ct| == |e| == |m| && k + c.n <= |m| && (k == 0 || k >= c.n)
  {
    Chained(c, op, m[k..k + c.n], e[k..k + c.n], Before(iv, ct, k, c.n))
  }

  ghost predicate Blocks(c: Cipher, op: Operation, iv: Bytes, m: Bytes, e: Bytes, ct: Bytes)
    requires BlockCipher(c) && |iv| == c.n
  {
    && |m| % c.n == 0 && |ct| == |e| == |m|
    && forall k :: 0 <= k < |m| && k % c.n == 0 ==>
         k + c.n <= |m| && (k == 0 || k >= c.n) && BlockAt(c, op, iv, m, e, ct, k)
  }

  /** e is m encrypted or decrypted, block by block. */
  ghost predicate IsCbc(c: Cipher, op: Operation, iv: Bytes, m: Bytes, e: Bytes)
    requires BlockCipher(c) && |iv| == c.n
  {
    Blocks(c, op, iv, m, e, if op == Encrypt then e else m)
  }

  lemma BlockBefore(k: nat, n: nat)
    requires n > 0 && k % n == 0
    ensures k >= n ==> (k - n) % n == 0
    ensures k > 0 ==> k >= n
    ensures (k + n) % n == 0
  {
    DivBounds(k, n);
    Plus1(k / n, n);
    ModUnique(k + n, k / n + 1, 0, n);
    if k >= n {
      Plus1(k / n - 1, n);
      ModUnique(k - n, k / n - 1, 0, n);
    }
    if 0 < k < n {
      ModUnique(k, 0, k, n);
    }
  }

  lemma WholeIff(k: nat, n: nat)
    requires n > 0
    ensures Whole(k, n) == k <==> k % n == 0
  {
    WholeMod(k, n);
  }

  /** `Crypt` is cipher block chaining, and `IvAfter` is the last block of the cipher text. */
  lemma {:induction false} CryptIsCbc(c: Cipher, op: Operation, iv: Bytes, m: Bytes)
    requires BlockCipher(c) && |iv| == c.n && |m| % c.n == 0
    ensures IsCbc(c, op, iv, m, Crypt(c, op, iv, m)) && (m == [] || |m| >= c.n)
    ensures IvAfter(c, op, iv, m) == Before(iv, if op == Encrypt then Crypt(c, op, iv, m) else m, |m|, c.n)
    decreases |m|
  {
    BlockBefore(|m|, c.n);
    if m != [] {
      var x, r := m[..c.n], m[c.n..];
      var y, iv' := Block(c, op, iv, x), NextIv(c, op, iv, x);
      assert m == x + r;
      CryptIsCbc(c, op, iv', r);
      CryptFirst(c, op, iv, x, r);
      BlockIsChained(c, op, iv, x);
      CbcCons(c, op, iv, x, y, iv', r, Crypt(c, op, iv', r));
    }
  }

  lemma BlockIsChained(c: Cipher, op: Operation, iv: Bytes, x: Bytes)
    requires BlockCipher(c) && |iv| == c.n == |x|
    ensures var y := Block(c, op, iv, x);
            |y| == c.n && Chained(c, op, x, y, iv) && NextIv(c, op, iv, x) == if op == Encrypt then y else x
  {
    BlockSize(c, op, iv, x);
  }

  lemma CbcCons(c: Cipher, op: Operation, iv: Bytes, x: Bytes, y: Bytes, z: Bytes, r: Bytes, e: Bytes)
    requires BlockCipher(c) && |iv| == c.n == |x| == |y| && (r == [] || |r| >= c.n)
    requires Chained(c, op, x, y, iv) && z == (if op == Encrypt then y else x) && IsCbc(c, op, z, r, e)
    ensures IsCbc(c, op, iv, x + r, y + e)
    ensures Before(z, if op == Encrypt then e else r, |r|, c.n)
            == Before(iv, if op == Encrypt then y + e else x + r, |x + r|, c.n)
  {
    if op == Encrypt {
      BlocksAfter(c, op, iv, x, y, y, r, e, e);
      Moved(iv, y, e, c.n, |r|, |r| + c.n);
    } else {
      BlocksAfter(c, op, iv, x, y, x, r, e, r);
      Moved(iv, x, r, c.n, |r|, |r| + c.n);
    }
  }

  /** One more block in front. */
  lemma BlocksAfter(c: Cipher, op: Operation, iv: Bytes, x: Bytes, y: Bytes, z: Bytes, r: Bytes, e: Bytes, ct: Bytes)
    requires BlockCipher(c) && |iv| == c.n == |x| == |y| == |z| && |r| % c.n == 0
    requires Chained(c, op, x, y, iv) && Blocks(c, op, z, r, e, ct)
    ensures Blocks(c, op, iv, x + r, y + e, z + ct)
  {
    BlockBefore(|r|, c.n);
    forall k | 0 <= k < |x + r| && k % c.n == 0
      ensures k + c.n <= |x + r| && (k == 0 || k >= c.n) && BlockAt(c, op, iv, x + r, y + e, z + ct, k)
    {
      EitherBlock(c, op, iv, x, y, z, r, e, ct, k);
    }
  }

  lemma EitherBlock(c: Cipher, op: Operation, iv: Bytes, x: Bytes, y: Bytes, z: Bytes, r: Bytes, e: Bytes, ct: Bytes,
                    k: nat)
    requires BlockCipher(c) && |iv| == c.n == |x| == |y| == |z| && k % c.n == 0 && k < c.n + |r|
    requires Chained(c, op, x, y, iv) && Blocks(c, op, z, r, e, ct)
    ensures k + c.n <= |x + r| && (k == 0 || k >= c.n) && BlockAt(c, op, iv, x + r, y + e, z + ct, k)
  {
    BlockBefore(k, c.n);
    if k == 0 {
      FirstBlock(c, op, iv, x, y, z, r, e, ct);
    } else {
      LaterBlock(c, op, iv, x, y, z, r, e, ct, k - c.n, k);
    }
  }

  lemma FirstBlock(c: Cipher, op: Operation, iv: Bytes, x: Bytes, y: Bytes, z: Bytes, r: Bytes, e: Bytes, ct: Bytes)
    requires BlockCipher(c) && |iv| == c.n == |x| == |y| == |z| && |r| == |e| == |ct| && Chained(c, op, x, y, iv)
    ensures BlockAt(c, op, iv, x + r, y + e, z + ct, 0)
  {
    Foremost(x, r, c.n);
    Foremost(y, e, c.n);
    SameChained(c, op, x, y, iv, (x + r)[0..0 + c.n], (y + e)[0..0 + c.n], Before(iv, z + ct, 0, c.n));
  }

  lemma LaterBlock(c: Cipher, op: Operation, iv: Bytes, x: Bytes, y: Bytes, z: Bytes, r: Bytes, e: Bytes, ct: Bytes,
                   k: nat, j: nat)
    requires BlockCipher(c) && |iv| == c.n == |x| == |y| == |z| && k % c.n == 0 && k < |r| && j == k + c.n
    requires Blocks(c, op, z, r, e, ct)
    ensures j <= |r| && BlockAt(c, op, iv, x + r, y + e, z + ct, j)
  {
    assert BlockAt(c, op, z, r, e, ct, k);
    MoveBlock(c, op, iv, x, y, z, r, e, ct, k, j);
  }

  lemma MoveBlock(c: Cipher, op: Operation, iv: Bytes, x: Bytes, y: Bytes, z: Bytes, r: Bytes, e: Bytes, ct: Bytes,
                  k: nat, j: nat)
    requires BlockCipher(c) && |iv| == c.n == |x| == |y| == |z| && |r| == |e| == |ct|
    requires j == k + c.n <= |r| && (k == 0 || k >= c.n) && BlockAt(c, op, z, r, e, ct, k)
    ensures BlockAt(c, op, iv, x + r, y + e, z + ct, j)
  {
    var n := c.n;
    Shifted(x, r, n, k, j);
    Shifted(y, e, n, k, j);
    Moved(iv, z, ct, n, k, j);
    var before := Before(iv, z + ct, j, n);
    SameChained(c, op, r[k..k + n], e[k..k + n], Before(z, ct, k, n), (x + r)[j..j + n], (y + e)[j..j + n], before);
  }

  lemma SameChained(c: Cipher, op: Operation, x: Bytes, y: Bytes, b: Bytes, x': Bytes, y': Bytes, b': Bytes)
    requires BlockCipher(c) && |x| == c.n == |b| && x' == x && y' == y && b' == b && Chained(c, op, x, y, b)
    ensures Chained(c, op, x', y', b')
  {
  }

  lemma Foremost(x: Bytes, r: Bytes, n: nat)
    requires |x| == n
    ensures (x + r)[0..0 + n] == x
  {
  }

  lemma Shifted(x: Bytes, r: Bytes, n: nat, k: nat, j: nat)
    requires |x| == n && j == k + n <= |r|
    ensures (x + r)[j..j + n] == r[k..j]
  {
  }

  lemma Moved(iv: Bytes, x: Bytes, r: Bytes, n: nat, k: nat, j: nat)
    requires |iv| == n == |x| && n > 0 && j == k + n && k <= |r| && (k == 0 || k >= n)
    ensures Before(iv, x + r, j, n) == Before(x, r, k, n)
  {
  }

  /** The mode loop: any whole number of blocks, the chaining value carried along. */
  method CryptCbc(c: Cipher, op: Operation, iv0: Bytes, input: Bytes) returns (output: Bytes, iv: Bytes)
    requires BlockCipher(c) && |iv0| == c.n && Whole(|input|, c.n) == |input|
    ensures output == Crypt(c, op, iv0, input) && iv == IvAfter(c, op, iv0, input)
    ensures IsCbc(c, op, iv0, input, output) && (input == [] || |input| >= c.n)
    ensures iv == Before(iv0, if op == Encrypt then output else input, |input|, c.n)
  {
    WholeIff(|input|, c.n);
    CryptIsCbc(c, op, iv0, input);
    output, iv := [], iv0;
    var rest := input;
    assert [] + Crypt(c, op, iv0, input) == Crypt(c, op, iv0, input);
    while |rest| > 0
      invariant |iv| == c.n && Whole(|rest|, c.n) == |rest|
      invariant output + Crypt(c, op, iv, rest) == Crypt(c, op, iv0, input)
      invariant IvAfter(c, op, iv, rest) == IvAfter(c, op, iv0, input)
      decreases |rest|
    {
      var x := rest[..c.n];
      BlockSize(c, op, iv, x);
      var y := Block(c, op, iv, x);
      iv := if op == Encrypt then y else x;
      ConcatAssoc(output, y, Crypt(c, op, iv, rest[c.n..]));
      output := output + y;
      rest := rest[c.n..];
    }
    assert output + [] == output;
  }
}
