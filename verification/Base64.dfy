/** Base64 (section 5.2 of RFC 1521): the encoder, and the decoder that sizes its output in a first pass. */
module Base64 {
  import opened Arith
  import opened ByteStrings
  import opened Sequences

  // ----- the alphabet

  function EncMap(v: nat): (c: Byte)
    requires v < 64
  {
    if v < 26 then 65 + v else if v < 52 then 71 + v else if v < 62 then v - 4 else if v == 62 then 43 else 47
  }

  /** 64 for the pad character, 127 for every character outside the alphabet. */
  function DecMap(c: Byte): (v: nat)
    ensures v <= 64 || v == 127
  {
    if 65 <= c <= 90 then c - 65
    else if 97 <= c <= 122 then c - 71
    else if 48 <= c <= 57 then c + 4
    else if c == 43 then 62
    else if c == 47 then 63
    else if c == 61 then 64
    else 127
  }

  const SPACE: Byte := 32
  const CR: Byte := 13
  const LF: Byte := 10
  const PAD: Byte := 61

  lemma MapInverse(v: nat)
    requires v < 64
    ensures DecMap(EncMap(v)) == v && EncMap(v) != SPACE && EncMap(v) != CR && EncMap(v) != LF && EncMap(v) != PAD
  {
  }

  const UPPER: string := "ABCDEFGHIJKLMNOPQRSTUVWXYZ"
  const LOWER: string := "abcdefghijklmnopqrstuvwxyz"
  const DIGITS: string := "0123456789+/"

  /** The alphabet: capitals, small letters, digits and two signs. */
  function Letter(v: nat): char
    requires v < 64
  {
    if v < 26 then UPPER[v] else if v < 52 then LOWER[v - 26] else DIGITS[v - 52]
  }

  /** Table 1 of RFC 1521. */
  lemma AlphabetIs(v: nat)
    requires v < 64
    ensures EncMap(v) == Letter(v) as int
  {
    if v < 26 {
      UpperIs(v);
    } else if v < 52 {
      LowerIs(v - 26);
    } else {
      DigitIs(v - 52);
    }
  }

  lemma UpperIs(i: nat)
    requires i < 26
    ensures UPPER[i] == ('A' as int + i) as char
  {
  }

  lemma LowerIs(i: nat)
    requires i < 26
    ensures LOWER[i] == ('a' as int + i) as char
  {
  }

  lemma DigitIs(i: nat)
    requires i < 12
    ensures DIGITS[i] == if i < 10 then ('0' as int + i) as char else if i == 10 then '+' else '/'
  {
  }

  /** The characters the decoder knows: the alphabet, the pad, and the three that it skips. */
  lemma CharactersAre(c: Byte)
    ensures DecMap(c) < 64 ==> c == Letter(DecMap(c)) as int
    ensures DecMap(c) == 64 <==> c == '=' as int
    ensures PAD == '=' as int && SPACE == ' ' as int && CR == '\r' as int && LF == '\n' as int
  {
    if DecMap(c) < 64 {
      AlphabetIs(DecMap(c));
    }
  }

  // ----- encoding

  function Encode(s: Bytes): Bytes {
    if |s| == 0 then []
    else if |s| == 1 then [EncMap(s[0] / 4), EncMap(s[0] % 4 * 16), PAD, PAD]
    else if |s| == 2 then [EncMap(s[0] / 4), EncMap(s[0] % 4 * 16 + s[1] / 16), EncMap(s[1] % 16 * 4), PAD]
    else Quad(s[0], s[1], s[2]) + Encode(s[3..])
  }

  function Quad(a: Byte, b: Byte, c: Byte): (q: Bytes)
    ensures |q| == 4
  {
    [EncMap(a / 4), EncMap(a % 4 * 16 + b / 16), EncMap(b % 16 * 4 + c / 64), EncMap(c % 64)]
  }

  lemma {:induction false} EncodeLength(s: Bytes)
    ensures |Encode(s)| == 4 * ((|s| + 2) / 3)
  {
    if |s| >= 3 {
      EncodeLength(s[3..]);
    }
  }

  // ----- the same by the character

  /** Byte j of x, zero behind its end. */
  function ByteOf(x: Bytes, j: nat): Byte {
    if j < |x| then x[j] else 0
  }

  /** The k-th six bits of x, most significant bits first. */
  function SixBits(x: Bytes, k: nat): (v: nat)
    ensures v < 64
  {
    var g := 3 * (k / 4);
    var v := 65536 * ByteOf(x, g) + 256 * ByteOf(x, g + 1) + ByteOf(x, g + 2);
    if k % 4 == 0 then v / 262144 % 64 else if k % 4 == 1 then v / 4096 % 64 else if k % 4 == 2 then v / 64 % 64
        else v % 64
  }

  /** A pad where the bits would begin behind the end of x. */
  function Sextet(x: Bytes, k: nat): char {
    if 6 * k >= 8 * |x| then '=' else Letter(SixBits(x, k))
  }

  ghost predicate IsEncoding(x: Bytes, e: Bytes) {
    |e| == 4 * ((|x| + 2) / 3) && forall k :: 0 <= k < |e| ==> e[k] == Sextet(x, k) as int
  }

  lemma SixesOf(a: Byte, b: Byte, c: Byte, v: nat)
    requires v == 65536 * a + 256 * b + c
    ensures v / 262144 % 64 == a / 4 && v / 4096 % 64 == a % 4 * 16 + b / 16
    ensures v / 64 % 64 == b % 16 * 4 + c / 64 && v % 64 == c % 64
  {
    var s0, s1, s2, s3 := a / 4, a % 4 * 16 + b / 16, b % 16 * 4 + c / 64, c % 64;
    Regroup(a, b, c);
    ModUnique(v, (s0 * 64 + s1) * 64 + s2, s3, 64);
    ModUnique((s0 * 64 + s1) * 64 + s2, s0 * 64 + s1, s2, 64);
    ModUnique(v, s0 * 64 + s1, s2 * 64 + s3, 4096);
    ModUnique(s0 * 64 + s1, s0, s1, 64);
    ModUnique(v, s0, (s1 * 64 + s2) * 64 + s3, 262144);
    ModUnique(s0, 0, s0, 64);
  }

  /** The first four characters. */
  lemma FirstSextets(x: Bytes, k: nat)
    requires x != [] && k < 4
    ensures |Encode(x)| >= 4 && Encode(x)[k] == if 6 * k >= 8 * |x| then PAD else EncMap(SixBits(x, k))
  {
    var s := FirstSix(ByteOf(x, 0), ByteOf(x, 1), ByteOf(x, 2));
    FirstSixBits(x, k);
    FirstChars(x, s);
  }

  function FirstSix(a: Byte, b: Byte, c: Byte): (s: seq<nat>)
    ensures |s| == 4 && forall i :: 0 <= i < 4 ==> s[i] < 64
  {
    [a / 4, a % 4 * 16 + b / 16, b % 16 * 4 + c / 64, c % 64]
  }

  lemma FirstSixBits(x: Bytes, k: nat)
    requires k < 4
    ensures SixBits(x, k) == FirstSix(ByteOf(x, 0), ByteOf(x, 1), ByteOf(x, 2))[k]
  {
    var a: int, b: int, c: int := ByteOf(x, 0), ByteOf(x, 1), ByteOf(x, 2);
    SixesOf(a, b, c, 65536 * a + 256 * b + c);
    ModUnique(k, 0, k, 4);
  }

  lemma FirstChars(x: Bytes, s: seq<nat>)
    requires x != [] && s == FirstSix(ByteOf(x, 0), ByteOf(x, 1), ByteOf(x, 2))
    ensures |Encode(x)| >= 4 && Encode(x)[0] == EncMap(s[0]) && Encode(x)[1] == EncMap(s[1])
    ensures Encode(x)[2] == (if |x| >= 2 then EncMap(s[2]) else PAD)
    ensures Encode(x)[3] == (if |x| >= 3 then EncMap(s[3]) else PAD)
  {
    ModUnique(0, 0, 0, 16);
  }

  lemma LaterSextet(x: Bytes, k: nat)
    requires |x| >= 3 && k >= 4
    ensures SixBits(x, k) == SixBits(x[3..], k - 4)
  {
    ModUnique(k - 4, k / 4 - 1, k % 4, 4);
  }

  lemma {:induction false} EncodeAt(x: Bytes, k: nat)
    requires k < |Encode(x)|
    ensures Encode(x)[k] == if 6 * k >= 8 * |x| then PAD else EncMap(SixBits(x, k))
    decreases |x|
  {
    if k < 4 {
      FirstSextets(x, k);
    } else {
      LaterSextet(x, k);
      EncodeAt(x[3..], k - 4);
    }
  }

  lemma EncodeIs(x: Bytes)
    ensures IsEncoding(x, Encode(x))
  {
    EncodeLength(x);
    forall k | 0 <= k < |Encode(x)|
      ensures Encode(x)[k] == Sextet(x, k) as int
    {
      EncodeAt(x, k);
      AlphabetIs(SixBits(x, k));
    }
  }

  datatype Status = Ok | BufferTooSmall | InvalidCharacter

  method PutQuad(dst: array<Byte>, p: nat, q: Bytes)
    requires |q| == 4 && p + 4 <= dst.Length
    modifies dst
    ensures dst[..p + 4] == old(dst[..p]) + q && forall k :: p + 4 <= k < dst.Length ==> dst[k] == old(dst[k])
  {
    dst[p], dst[p + 1], dst[p + 2], dst[p + 3] := q[0], q[1], q[2], q[3];
    assert dst[..p + 4] == dst[..p] + [dst[p], dst[p + 1], dst[p + 2], dst[p + 3]];
  }

  /** The characters and a terminator, if they fit. */
  method EncodeInto(dst: array<Byte>, src: Bytes) returns (st: Status, olen: nat)
    modifies dst
    ensures st == if |src| == 0 || dst.Length >= |Encode(src)| + 1 then Ok else BufferTooSmall
    ensures st == Ok ==>
              olen == |Encode(src)| <= dst.Length && dst[..olen] == Encode(src) && (|src| > 0 ==> dst[olen] == 0)
    ensures st == Ok ==> IsEncoding(src, dst[..olen])
    ensures st != Ok ==> olen == |Encode(src)| + 1
  {
    EncodeIs(src);
    EncodeLength(src);
    if |src| == 0 {
      return Ok, 0;
    }
    var n := |src| / 3 + if |src| % 3 != 0 then 1 else 0;
    n := 4 * n;
    if dst.Length < n + 1 {
      return BufferTooSmall, n + 1;
    }
    var p := EncodeAll(dst, src);
    dst[p] := 0;
    return Ok, p;
  }

  method EncodeAll(dst: array<Byte>, src: Bytes) returns (p: nat)
    requires |src| > 0 && dst.Length > |Encode(src)|
    modifies dst
    ensures p == |Encode(src)| && dst[..p] == Encode(src)
  {
    EncodeLength(src);
    var n := |src| / 3 * 3;
    p := EncodeTriples(dst, src, n, |src| / 3);
    EncodeQuads(src, |src| / 3, n);
    NothingYet(src);
    p := EncodeTail(dst, src, n, p);
  }

  /** Three bytes at a time. */
  method EncodeTriples(dst: array<Byte>, src: Bytes, n: nat, ghost triples: nat) returns (p: nat)
    requires n == 3 * triples <= |src| && 4 * triples <= dst.Length
    modifies dst
    ensures p == 4 * triples && dst[..p] == Quads(src, triples)
  {
    var i := 0;
    p := 0;
    ghost var k := 0;
    while i < n
      invariant k <= triples && i == 3 * k && p == 4 * k
      invariant dst[..p] == Quads(src, k)
    {
      EncodeOne(dst, p, src, i, k);
      i, p, k := i + 3, p + 4, k + 1;
    }
  }

  method EncodeOne(dst: array<Byte>, p: nat, src: Bytes, i: nat, ghost k: nat)
    requires i == 3 * k && i + 3 <= |src| && p == 4 * k && p + 4 <= dst.Length && dst[..p] == Quads(src, k)
    modifies dst
    ensures dst[..p + 4] == Quads(src, k + 1)
  {
    PutQuad(dst, p, QuadAt(src, i));
  }

  /** The encoding of the first k triples. */
  function Quads(src: Bytes, k: nat): (q: Bytes)
    requires 3 * k <= |src|
    ensures |q| == 4 * k
  {
    if k == 0 then [] else Quads(src, k - 1) + QuadAt(src, 3 * (k - 1))
  }

  function QuadAt(src: Bytes, i: nat): (q: Bytes)
    requires i + 3 <= |src|
    ensures |q| == 4
  {
    Quad(src[i], src[i + 1], src[i + 2])
  }

  /** k triples encoded, and what remains from position i. */
  function Partly(src: Bytes, k: nat, i: nat): Bytes
    requires i == 3 * k <= |src|
  {
    Quads(src, k) + Encode(src[i..])
  }

  lemma NothingYet(src: Bytes)
    ensures Partly(src, 0, 0) == Encode(src)
  {
    assert src[0..] == src && [] + Encode(src) == Encode(src);
  }

  lemma NextQuad(src: Bytes, k: nat, i: nat, j: nat)
    requires k > 0 && i == 3 * (k - 1) && j == i + 3 <= |src|
    ensures Partly(src, k - 1, i) == Partly(src, k, j)
  {
    EncodeStep(Quads(src, k - 1), src, i, j);
  }

  /** Every position up to a whole number of triples will do. */
  lemma {:induction false} EncodeQuads(src: Bytes, k: nat, i: nat)
    requires i == 3 * k <= |src|
    ensures Partly(src, k, i) == Partly(src, 0, 0)
    decreases k
  {
    if k > 0 {
      EncodeQuads(src, k - 1, i - 3);
      NextQuad(src, k, i - 3, i);
    }
  }

  lemma EncodeStep(before: Bytes, src: Bytes, i: nat, j: nat)
    requires j == i + 3 <= |src|
    ensures before + Encode(src[i..]) == (before + QuadAt(src, i)) + Encode(src[j..])
  {
    assert src[i..][3..] == src[j..];
  }

  /** The one or two bytes left over. */
  method EncodeTail(dst: array<Byte>, src: Bytes, i: nat, p0: nat) returns (p: nat)
    requires i <= |src| < i + 3 && p0 <= dst.Length && (i < |src| ==> p0 + 4 <= dst.Length)
    requires dst[..p0] + Encode(src[i..]) == Encode(src)
    modifies dst
    ensures p == p0 + |Encode(src[i..])| && p <= dst.Length && dst[..p] == Encode(src)
  {
    p := p0;
    if i < |src| {
      var c1 := src[i];
      var c2: Byte := if i + 1 < |src| then src[i + 1] else 0;
      var c3 := if i + 1 < |src| then EncMap(c2 % 16 * 4) else PAD;
      var q := [EncMap(c1 / 4), EncMap(c1 % 4 * 16 + c2 / 16), c3, PAD];
      assert Encode(src[i..]) == q;
      PutQuad(dst, p, q);
      p := p + 4;
    } else {
      assert src[i..] == [];
      assert dst[..p0] + [] == dst[..p0];
    }
  }

  // ----- the first pass

  datatype Scanned = Bad | Good(n: nat, j: nat)

  /** The first pass from some position on: spaces pending or not, j pads so far. */
  function Scan(s: Bytes, spaces: bool, j: nat): Scanned {
    if |s| == 0 then Good(0, j)
    else
      var c := s[0];
      if c == SPACE then Scan(s[1..], true, j)
      else if (|s| >= 2 && c == CR && s[1] == LF) || c == LF then Scan(s[1..], false, j)
      else
        var j' := if c == PAD then j + 1 else j;
        if spaces || j' > 2 || DecMap(c) == 127 || (DecMap(c) < 64 && j' != 0) then Bad
        else
          var r := Scan(s[1..], false, j');
          if r.Good? then Good(r.n + 1, r.j) else Bad
  }

  /** The characters that count. */
  function Significant(s: Bytes): Bytes {
    if |s| == 0 then []
    else if s[0] == CR || s[0] == LF || s[0] == SPACE then Significant(s[1..])
    else [s[0]] + Significant(s[1..])
  }

  function Pads(s: Bytes): (k: nat)
    ensures k <= |s|
  {
    if |s| == 0 then 0 else (if s[0] == PAD then 1 else 0) + Pads(s[1..])
  }

  /** Alphabet characters, then only pads, at most two in all, counting from j. */
  predicate Shaped(s: Bytes, j: nat) {
    if |s| == 0 then j <= 2
    else
      var j' := if s[0] == PAD then j + 1 else j;
      j' <= 2 && DecMap(s[0]) != 127 && (DecMap(s[0]) < 64 ==> j' == 0) && Shaped(s[1..], j')
  }

  /** What the first pass accepts and counts. */
  lemma {:induction false} ScanShape(s: Bytes, spaces: bool, j: nat)
    requires j <= 2 && Scan(s, spaces, j).Good?
    ensures var g := Significant(s); Scan(s, spaces, j) == Good(|g|, j + Pads(g)) && Shaped(g, j)
    decreases |s|
  {
    if |s| > 0 {
      var c := s[0];
      if c == SPACE {
        ScanShape(s[1..], true, j);
      } else if (|s| >= 2 && c == CR && s[1] == LF) || c == LF {
        ScanShape(s[1..], false, j);
      } else {
        var j' := if c == PAD then j + 1 else j;
        ScanShape(s[1..], false, j');
        assert c != CR;
        assert ([c] + Significant(s[1..]))[1..] == Significant(s[1..]);
      }
    }
  }

  predicate Blank(c: Byte) {
    c == SPACE || c == CR || c == LF
  }

  /** Every CR is followed by LF, and every run of spaces ends the text or its line. */
  predicate Tidy(s: Bytes) {
    && (forall i :: 0 <= i < |s| && s[i] == CR ==> i + 1 < |s| && s[i + 1] == LF)
    && forall i :: 0 <= i < |s| - 1 && s[i] == SPACE ==> Blank(s[i + 1])
  }

  lemma TidyTail(s: Bytes)
    requires |s| > 0
    ensures Tidy(s) <==> TidyFirst(s) && Tidy(s[1..])
  {
    var t := s[1..];
    if TidyFirst(s) && Tidy(t) {
      forall i | 0 <= i < |s| && s[i] == CR
        ensures i + 1 < |s| && s[i + 1] == LF
      {
        assert i > 0 ==> t[i - 1] == CR;
      }
      forall i | 0 <= i < |s| - 1 && s[i] == SPACE
        ensures Blank(s[i + 1])
      {
        assert i > 0 ==> t[i - 1] == SPACE;
      }
    }
    if Tidy(s) {
      forall i | 0 <= i < |t| && t[i] == CR
        ensures i + 1 < |t| && t[i + 1] == LF
      {
        assert s[i + 1] == CR;
      }
      forall i | 0 <= i < |t| - 1 && t[i] == SPACE
        ensures Blank(t[i + 1])
      {
        assert s[i + 1] == SPACE;
      }
    }
  }

  predicate TidyFirst(s: Bytes)
    requires |s| > 0
  {
    (s[0] == CR ==> |s| >= 2 && s[1] == LF) && (s[0] == SPACE ==> |s| == 1 || Blank(s[1]))
  }

  /** What the first pass accepts from some position on. */
  ghost predicate Acceptable(s: Bytes, spaces: bool, j: nat) {
    Tidy(s) && Shaped(Significant(s), j) && (spaces && |s| > 0 ==> Blank(s[0]))
  }

  lemma {:induction false} ScanIff(s: Bytes, spaces: bool, j: nat)
    requires j <= 2
    ensures Scan(s, spaces, j).Good? <==> Acceptable(s, spaces, j)
    decreases |s|
  {
    if |s| > 0 {
      var c := s[0];
      TidyTail(s);
      if Blank(c) {
        ScanIff(s[1..], c == SPACE, j);
      } else {
        assert ([c] + Significant(s[1..]))[1..] == Significant(s[1..]);
        if j + 1 <= 2 || c != PAD {
          ScanIff(s[1..], false, if c == PAD then j + 1 else j);
        }
      }
    }
  }

  /** The first pass accepts exactly the tidy texts whose significant characters are shaped. */
  lemma AcceptedTexts(s: Bytes)
    ensures Scan(s, false, 0).Good? <==> Tidy(s) && Shaped(Significant(s), 0)
  {
    ScanIff(s, false, 0);
  }

  /** n characters counted before. */
  function After(n: nat, r: Scanned): Scanned {
    if r.Good? then Good(n + r.n, r.j) else Bad
  }

  /** The first pass. */
  method FirstPass(src: Bytes) returns (ok: bool, n: nat, j: nat)
    ensures ok <==> Scan(src, false, 0).Good?
    ensures ok ==> Scan(src, false, 0) == Good(n, j)
  {
    var i := 0;
    n, j := 0, 0;
    assert src[0..] == src;
    while i < |src|
      invariant 0 <= i <= |src|
      invariant Scan(src, false, 0) == After(n, Scan(src[i..], false, j))
    {
      var x := 0;
      while i < |src| && src[i] == SPACE
        invariant 0 <= i <= |src| && x >= 0
        invariant Scan(src, false, 0) == After(n, Scan(src[i..], x != 0, j))
      {
        assert src[i..][1..] == src[i + 1..];
        i, x := i + 1, x + 1;
      }
      if i == |src| {
        break;
      }
      assert src[i..][1..] == src[i + 1..];
      if |src| - i >= 2 && src[i] == CR && src[i + 1] == LF {
        i := i + 1;
        continue;
      }
      if src[i] == LF {
        i := i + 1;
        continue;
      }
      if x != 0 {
        return false, n, j;
      }
      if src[i] == PAD {
        j := j + 1;
        if j > 2 {
          return false, n, j;
        }
      }
      if src[i] > 127 || DecMap(src[i]) == 127 {
        return false, n, j;
      }
      if DecMap(src[i]) < 64 && j != 0 {
        return false, n, j;
      }
      n := n + 1;
      i := i + 1;
    }
    ok := true;
  }

  // ----- the second pass

  /** The bytes of four characters, as many as pads allow. */
  function Three(s: Bytes, e: nat): (r: Bytes)
    requires |s| == 4 && e <= 2
    ensures |r| == 3 - e
  {
    var v := Word(s);
    [v / 65536, v / 256 % 256, v % 256][..3 - e]
  }

  /** The 24 bits of four characters; a pad counts as zero. */
  function Word(s: Bytes): (v: nat)
    requires |s| == 4
    ensures v < 0x100_0000
  {
    ((Six(s[0]) * 64 + Six(s[1])) * 64 + Six(s[2])) * 64 + Six(s[3])
  }

  function Six(c: Byte): (v: nat)
    ensures v < 64
  {
    DecMap(c) % 64
  }

  /** What complete groups of four decode to, e pads having gone before. */
  function Decode(s: Bytes, e: nat): Bytes
    requires Shaped(s, e)
    decreases |s|
  {
    if |s| < 4 then []
    else
      GroupShape(s, e);
      Three(s[..4], e + Pads(s[..4])) + Decode(s[4..], e + Pads(s[..4]))
  }

  lemma GroupShape(s: Bytes, e: nat)
    requires |s| >= 4 && Shaped(s, e)
    ensures e + Pads(s[..4]) <= 2 && Shaped(s[4..], e + Pads(s[..4]))
  {
    ShapedDrop(s, e, 4);
  }

  lemma {:induction false} ShapedDrop(s: Bytes, e: nat, k: nat)
    requires k <= |s| && Shaped(s, e)
    ensures e + Pads(s[..k]) <= 2 && Shaped(s[k..], e + Pads(s[..k]))
    decreases k
  {
    if k == 0 {
      assert s[0..] == s;
      assert Pads(s[..0]) == 0;
      ShapedBound(s, e);
    } else {
      var e' := if s[0] == PAD then e + 1 else e;
      ShapedDrop(s[1..], e', k - 1);
      assert s[..k][1..] == s[1..][..k - 1] && s[1..][k - 1..] == s[k..];
    }
  }

  lemma ShapedBound(s: Bytes, e: nat)
    requires Shaped(s, e)
    ensures e <= 2
  {
  }

  /** The length the first pass computes from n characters and j pads. */
  function Sized(n: nat, j: nat): int {
    6 * (n / 8) + (6 * (n % 8) + 7) / 8 - j
  }

  lemma SizedIs(n: nat, j: nat)
    ensures Sized(n, j) == (6 * n + 7) / 8 - j
  {
  }

  lemma {:induction false} PadsSplit(s: Bytes, k: nat)
    requires k <= |s|
    ensures Pads(s) == Pads(s[..k]) + Pads(s[k..])
    decreases k
  {
    if k > 0 {
      PadsSplit(s[1..], k - 1);
      assert s[..k][1..] == s[1..][..k - 1] && s[1..][k - 1..] == s[k..];
    } else {
      assert s[0..] == s;
    }
  }

  /** Once a pad has come, only pads follow. */
  lemma {:induction false} PadsOnly(s: Bytes, e: nat)
    requires Shaped(s, e) && e > 0
    ensures Pads(s) == |s| && e + |s| <= 2
    decreases |s|
  {
    if |s| > 0 {
      PadsOnly(s[1..], e + 1);
    }
  }

  lemma FourMore(k: nat)
    ensures (6 * (k + 4) + 7) / 8 == 3 + (6 * k + 7) / 8
    ensures (k + 4) % 4 == k % 4 && (k + 4) / 4 == k / 4 + 1
  {
    ModUnique(6 * (k + 4) + 7, 3 + (6 * k + 7) / 8, (6 * k + 7) % 8, 8);
    ModUnique(k + 4, k / 4 + 1, k % 4, 4);
  }

  lemma FirstPad(s: Bytes, e: nat)
    requires |s| >= 4 && Shaped(s, e)
    ensures e == 0
  {
    if e > 0 {
      PadsOnly(s, e);
    }
  }

  /** The second pass writes at most what the first pass computed, and exactly that on whole groups. */
  lemma {:induction false} DecodeFits(s: Bytes, e: nat)
    requires Shaped(s, e)
    ensures |Decode(s, e)| + Pads(s) <= (6 * |s| + 7) / 8
    ensures e == 0 && |s| % 4 == 0 ==> |Decode(s, e)| + Pads(s) == 3 * (|s| / 4)
    decreases |s|, 0
  {
    if |s| >= 4 {
      FirstPad(s, e);
      GroupShape(s, e);
      PadsSplit(s, 4);
      FourMore(|s| - 4);
      DecodeRest(s[4..], Pads(s[..4]));
    }
  }

  lemma {:induction false} DecodeRest(s: Bytes, e: nat)
    requires Shaped(s, e)
    ensures |Decode(s, e)| + Pads(s) <= (6 * |s| + 7) / 8
    ensures |s| % 4 == 0 ==> |Decode(s, e)| + Pads(s) == 3 * (|s| / 4)
    decreases |s|, 1
  {
    if e > 0 {
      PadsOnly(s, e);
    } else {
      DecodeFits(s, e);
    }
  }

  /** Byte i of the three that 24 bits make. */
  function ByteOfWord(v: nat, i: nat): int {
    if i == 0 then v / 65536 else if i == 1 then v / 256 % 256 else v % 256
  }

  /** The first group gives three bytes, or it has pads and is the last. */
  lemma FirstGroup(s: Bytes, e: nat)
    requires |s| >= 4 && Shaped(s, e)
    ensures var p := Pads(s[..4]);
            && p <= 2 && Shaped(s[4..], p) && Decode(s, e) == Three(s[..4], p) + Decode(s[4..], p)
            && (p > 0 ==> Decode(s[4..], p) == [])
  {
    FirstPad(s, e);
    GroupShape(s, e);
    var p := Pads(s[..4]);
    if p > 0 {
      PadsOnly(s[4..], p);
    }
  }

  /** Byte j comes from group j / 3 of the characters, each standing for its place in the alphabet and a pad for 0. */
  lemma {:induction false} DecodeAt(s: Bytes, e: nat, j: nat)
    requires Shaped(s, e) && j < |Decode(s, e)|
    ensures var g := 4 * (j / 3); g + 4 <= |s| && Decode(s, e)[j] == ByteOfWord(Word(s[g..g + 4]), j % 3)
    decreases |s|
  {
    FirstGroup(s, e);
    var p := Pads(s[..4]);
    if j < 3 - p {
      ModUnique(j, 0, j, 3);
      assert s[0..0 + 4] == s[..4];
    } else {
      var i := j - 3;
      ModUnique(j, i / 3 + 1, i % 3, 3);
      DecodeAt(s[4..], p, i);
      NextGroup(s, 4 * (i / 3), 4 * (j / 3));
    }
  }

  lemma NextGroup(s: Bytes, i: nat, j: nat)
    requires j == i + 4 && j + 4 <= |s|
    ensures s[4..][i..i + 4] == s[j..j + 4]
  {
  }

  lemma SixIs(c: Byte)
    ensures DecMap(c) < 64 ==> Six(c) == DecMap(c)
    ensures c == '=' as int ==> Six(c) == 0
  {
    if DecMap(c) < 64 {
      ModUnique(DecMap(c), 0, DecMap(c), 64);
    }
  }

  // ----- the second pass as a loop

  /** The characters of the group under way: the n low digits of the shift register, and the pads so far. */
  ghost predicate Register(x: nat, part: Bytes) {
    |part| < 4 && x < 0x1_0000_0000 && x % Power(64, |part|) == PartWord(part)
  }

  function PartWord(part: Bytes): nat {
    if |part| == 0 then 0 else PartWord(part[..|part| - 1]) * 64 + Six(part[|part| - 1])
  }

  /** x = (x << 6) | d in 32 bits. */
  function ShiftIn(x: nat, d: nat): nat {
    (x * 64 + d) % 0x1_0000_0000
  }

  lemma ShiftInLow(x: nat, d: nat, k: nat, v: nat)
    requires k < 4 && d < 64 && x % Power(64, k) == v
    ensures ShiftIn(x, d) % Power(64, k + 1) == v * 64 + d
  {
    Divides32(k);
    var m, y := Power(64, k), x * 64 + d;
    DivBounds(x, m);
    Rotate(x / m, 64, m);
    Assoc(64, x / m, m);
    ModUnique(y, x / m, v * 64 + d, 64 * m);
    ModMod(y, 64 * m, 0x400_0000 / m);
  }

  lemma Divides32(k: nat)
    requires k < 4
    ensures Power(64, k + 1) * (0x400_0000 / Power(64, k)) == 0x1_0000_0000
  {
    assert Power(64, 1) == 64 && Power(64, 2) == 4096 && Power(64, 3) == 262144 && Power(64, 4) == 16777216;
  }

  lemma ModMod(y: nat, d: nat, q: nat)
    requires d > 0 && q >= 0
    ensures d * q > 0 ==> (y % (d * q)) % d == y % d
  {
    if d * q > 0 {
      var w := d * q;
      var r := y % w;
      DivBounds(y, w);
      DivBounds(r, d);
      Assoc(d, q, y / w);
      Distribute(d, q * (y / w), r / d);
      ModUnique(y, q * (y / w) + r / d, r % d, d);
    }
  }

  lemma WordOfPart(part: Bytes)
    requires |part| == 4
    ensures PartWord(part) == Word(part)
  {
    PartStep(part, 4);
    PartStep(part, 3);
    PartStep(part, 2);
    PartStep(part, 1);
  }

  lemma PartStep(part: Bytes, k: nat)
    requires 1 <= k <= |part|
    ensures PartWord(part[..k]) == PartWord(part[..k - 1]) * 64 + Six(part[k - 1])
    ensures PartWord(part[..0]) == 0 && part[..|part|] == part
  {
    assert part[..k][..k - 1] == part[..k - 1];
  }

  lemma RegisterBytes(x: nat, v: nat)
    requires x % 0x100_0000 == v
    ensures x / 65536 % 256 == v / 65536 && x / 256 % 256 == v / 256 % 256 && x % 256 == v % 256
  {
    var q := x / 0x100_0000;
    assert x == 0x100_0000 * q + v;
    ModUnique(x, 256 * q + v / 65536, v % 65536, 65536);
    ModUnique(256 * q + v / 65536, q, v / 65536, 256);
    ModUnique(x, 65536 * q + v / 256, v % 256, 256);
    ModUnique(65536 * q + v / 256, 256 * q + v / 256 / 256, v / 256 % 256, 256);
  }

  /** The j first bytes of the register. */
  method PutThree(dst: array<Byte>, p0: nat, x: nat, j: nat, ghost group: Bytes) returns (p: nat)
    requires |group| == 4 && x % 0x100_0000 == Word(group) && 1 <= j <= 3 && p0 + j <= dst.Length
    modifies dst
    ensures p == p0 + j && dst[..p] == old(dst[..p0]) + Three(group, 3 - j)
  {
    RegisterBytes(x, Word(group));
    p := p0;
    if j > 0 {
      dst[p] := x / 65536 % 256;
      p := p + 1;
    }
    if j > 1 {
      dst[p] := x / 256 % 256;
      p := p + 1;
    }
    if j > 2 {
      dst[p] := x % 256;
      p := p + 1;
    }
    assert dst[..p] == dst[..p0] + dst[p0..p];
  }

  /** Where the second pass is: `part` of a group read, `rest` of the characters to come, e pads before the group. */
  ghost predicate Decoding(done: Bytes, part: Bytes, rest: Bytes, e: nat, all: Bytes) {
    && |part| < 4 && Shaped(part + rest, e) && done + Decode(part + rest, e) == all
  }

  lemma PadsAppend(part: Bytes, c: Byte)
    ensures Pads(part + [c]) == Pads(part) + if c == PAD then 1 else 0
  {
    PadsSplit(part + [c], |part|);
    assert (part + [c])[..|part|] == part && (part + [c])[|part|..] == [c];
    assert Pads([c]) == (if c == PAD then 1 else 0) + Pads([]);
  }

  lemma DecodeGroup(done: Bytes, group: Bytes, rest: Bytes, e: nat, all: Bytes)
    requires |group| == 4 && Shaped(group + rest, e) && done + Decode(group + rest, e) == all
    ensures var e' := e + Pads(group);
            e' <= 2 && |done| + 3 - e' <= |all| && Decoding(done + Three(group, e'), [], rest, e', all)
  {
    var s := group + rest;
    assert s[..4] == group && s[4..] == rest;
    GroupShape(s, e);
    assert [] + rest == rest;
    ConcatAssoc(done, Three(group, e + Pads(group)), Decode(rest, e + Pads(group)));
  }

  /** One significant character. */
  method TakeChar(dst: array<Byte>, p: nat, x: nat, n: nat, j: nat, c: Byte, ghost part: Bytes, ghost rest: Bytes,
                  ghost e: nat, ghost all: Bytes)
      returns (p': nat, x': nat, n': nat, j': nat, ghost part': Bytes, ghost e': nat)
    requires p <= dst.Length && |all| <= dst.Length && Decoding(dst[..p], part, [c] + rest, e, all)
    requires n == |part| && Register(x, part) && j == 3 - e - Pads(part)
    modifies dst
    ensures p' <= dst.Length && Decoding(dst[..p'], part', rest, e', all)
    ensures n' == |part'| && Register(x', part') && j' == 3 - e' - Pads(part')
  {
    ghost var group := part + [c];
    CharTaken(dst[..p], part, c, rest, e, all, x);
    j' := if DecMap(c) == 64 then j - 1 else j;
    x' := ShiftIn(x, Six(c));
    n' := n + 1;
    p' := p;
    if n' == 4 {
      n' := 0;
      p' := FlushGroup(dst, p, x', j', group, rest, e, all);
      part', e' := [], e + Pads(group);
      EmptyRegister(x');
    } else {
      part', e' := group, e;
    }
  }

  /** The group under way with one more character, complete or not. */
  lemma CharTaken(done: Bytes, part: Bytes, c: Byte, rest: Bytes, e: nat, all: Bytes, x: nat)
    requires Decoding(done, part, [c] + rest, e, all) && Register(x, part)
    ensures Shaped((part + [c]) + rest, e) && done + Decode((part + [c]) + rest, e) == all
    ensures Pads(part + [c]) == Pads(part) + (if DecMap(c) == 64 then 1 else 0) && e + Pads(part + [c]) <= 2
    ensures |part| < 3 ==> Decoding(done, part + [c], rest, e, all) && Register(ShiftIn(x, Six(c)), part + [c])
    ensures |part| == 3 ==> ShiftIn(x, Six(c)) % Power(64, 4) == PartWord(part + [c])
    ensures ShiftIn(x, Six(c)) < 0x1_0000_0000
  {
    MoveChar(done, part, c, rest, e, all);
    RegisterNext(x, part, c);
    PadsSoFar(part, c, rest, e);
  }

  lemma EmptyRegister(x: nat)
    requires x < 0x1_0000_0000
    ensures Register(x, [])
  {
    assert Power(64, 0) == 1 && x % 1 == 0;
  }

  lemma MoveChar(done: Bytes, part: Bytes, c: Byte, rest: Bytes, e: nat, all: Bytes)
    requires Decoding(done, part, [c] + rest, e, all)
    ensures Shaped((part + [c]) + rest, e) && done + Decode((part + [c]) + rest, e) == all
    ensures |part| < 3 ==> Decoding(done, part + [c], rest, e, all)
  {
    assert part + ([c] + rest) == (part + [c]) + rest;
  }

  lemma RegisterNext(x: nat, part: Bytes, c: Byte)
    requires Register(x, part)
    ensures var y := ShiftIn(x, Six(c));
            0 <= y < 0x1_0000_0000 && y % Power(64, |part| + 1) == PartWord(part + [c])
    ensures |part| < 3 ==> Register(ShiftIn(x, Six(c)), part + [c])
  {
    ShiftInLow(x, Six(c), |part|, PartWord(part));
    assert (part + [c])[..|part|] == part;
  }

  lemma PadsSoFar(part: Bytes, c: Byte, rest: Bytes, e: nat)
    requires Shaped((part + [c]) + rest, e)
    ensures Pads(part + [c]) == Pads(part) + (if DecMap(c) == 64 then 1 else 0) && e + Pads(part + [c]) <= 2
  {
    var s := (part + [c]) + rest;
    PadsAppend(part, c);
    ShapedDrop(s, e, |part| + 1);
    assert s[..|part| + 1] == part + [c];
  }

  /** A whole group goes out. */
  method FlushGroup(dst: array<Byte>, p: nat, x: nat, j: nat, ghost group: Bytes, ghost rest: Bytes, ghost e: nat,
                    ghost all: Bytes)
    returns (p': nat)
    requires p <= dst.Length && |all| <= dst.Length && |group| == 4 && x % Power(64, 4) == PartWord(group)
    requires Shaped(group + rest, e) && dst[..p] + Decode(group + rest, e) == all && j == 3 - e - Pads(group)
    modifies dst
    ensures p' <= dst.Length && Decoding(dst[..p'], [], rest, e + Pads(group), all)
  {
    assert Power(64, 4) == 0x100_0000;
    WordOfPart(group);
    DecodeGroup(dst[..p], group, rest, e, all);
    p' := PutThree(dst, p, x, j, group);
  }

  lemma NextSignificant(src: Bytes, i: nat)
    requires i < |src|
    ensures Significant(src[i..]) == if Blank(src[i]) then Significant(src[i + 1..])
            else [src[i]] + Significant(src[i + 1..])
  {
    assert src[i..][1..] == src[i + 1..];
  }

  /** Decodes the significant characters in place of the first pass's count. */
  method SecondPass(dst: array<Byte>, src: Bytes) returns (p: nat)
    requires Shaped(Significant(src), 0) && |Decode(Significant(src), 0)| <= dst.Length
    modifies dst
    ensures p == |Decode(Significant(src), 0)| && dst[..p] == Decode(Significant(src), 0)
  {
    ghost var all: Bytes, part: Bytes, e: nat := Decode(Significant(src), 0), [], 0;
    var i, j, n, x := 0, 3, 0, 0;
    p := 0;
    assert src[0..] == src && [] + Significant(src) == Significant(src) && [] + all == all;
    while i < |src|
      invariant 0 <= i <= |src| && p <= dst.Length && |all| <= dst.Length
      invariant Decoding(dst[..p], part, Significant(src[i..]), e, all)
      invariant n == |part| && Register(x, part) && j == 3 - e - Pads(part)
    {
      NextSignificant(src, i);
      if !(src[i] == CR || src[i] == LF || src[i] == SPACE) {
        p, x, n, j, part, e := TakeChar(dst, p, x, n, j, src[i], part, Significant(src[i + 1..]), e, all);
      }
      i := i + 1;
    }
    assert src[i..] == [] && part + [] == part;
    assert dst[..p] + [] == dst[..p];
  }

  /** The decoder: refuses exactly what the first pass refuses, and never writes past the length it announced. */
  method DecodeInto(dst: array<Byte>, src: Bytes) returns (st: Status, olen: int)
    modifies dst
    ensures st == InvalidCharacter <==> Scan(src, false, 0).Bad?
    ensures st != InvalidCharacter <==> Tidy(src) && Shaped(Significant(src), 0)
    ensures st != InvalidCharacter ==> var g := Significant(src);
              && Shaped(g, 0) && |Decode(g, 0)| <= Sized(|g|, Pads(g))
              && st == (if |g| == 0 || dst.Length >= Sized(|g|, Pads(g)) then Ok else BufferTooSmall)
              && (st == BufferTooSmall ==> olen == Sized(|g|, Pads(g)))
              && (st == Ok ==> olen == |Decode(g, 0)| && olen <= dst.Length && dst[..olen] == Decode(g, 0))
  {
    AcceptedTexts(src);
    var ok, n, j := FirstPass(src);
    if !ok {
      return InvalidCharacter, 0;
    }
    Announced(src, n, j);
    if n == 0 {
      return Ok, 0;
    }
    var size := Sized(n, j);
    if dst.Length < size {
      return BufferTooSmall, size;
    }
    olen := SecondPass(dst, src);
    st := Ok;
  }

  /** The first pass announces at least what the second pass writes. */
  lemma Announced(src: Bytes, n: nat, j: nat)
    requires Scan(src, false, 0) == Good(n, j)
    ensures var g := Significant(src);
            n == |g| && j == Pads(g) && Shaped(g, 0) && |Decode(g, 0)| <= Sized(n, j) && (n == 0 ==> Decode(g, 0) == [])
  {
    ScanShape(src, false, 0);
    DecodeFits(Significant(src), 0);
    SizedIs(n, j);
  }

  // ----- the round trip

  lemma ShapedCons(c: Byte, s: Bytes, j: nat)
    ensures Pads([c] + s) == (if c == PAD then 1 else 0) + Pads(s)
    ensures DecMap(c) < 64 && j == 0 && Shaped(s, 0) ==> Shaped([c] + s, 0)
    ensures c == PAD && Shaped(s, j + 1) ==> Shaped([c] + s, j)
  {
    assert ([c] + s)[1..] == s;
    if Shaped(s, j + 1) {
      ShapedBound(s, j + 1);
    }
  }

  /** Four alphabet characters in front change neither shape nor pads. */
  lemma FrontQuad(a: Byte, b: Byte, c: Byte, d: Byte, rest: Bytes)
    requires DecMap(a) < 64 && DecMap(b) < 64 && DecMap(c) < 64 && DecMap(d) < 64 && Shaped(rest, 0)
    ensures Shaped([a, b, c, d] + rest, 0) && Pads([a, b, c, d] + rest) == Pads(rest)
  {
    ShapedCons(d, rest, 0);
    ShapedCons(c, [d] + rest, 0);
    ShapedCons(b, [c] + ([d] + rest), 0);
    ShapedCons(a, [b] + ([c] + ([d] + rest)), 0);
    assert [a, b, c, d] + rest == [a] + ([b] + ([c] + ([d] + rest)));
  }

  /** Two or three characters and their pads. */
  lemma LastQuad(a: Byte, b: Byte, c: Byte)
    requires DecMap(a) < 64 && DecMap(b) < 64 && (DecMap(c) < 64 || c == PAD)
    ensures Shaped([a, b, c, PAD], 0) && Pads([a, b, c, PAD]) == if c == PAD then 2 else 1
  {
    ShapedCons(PAD, [], 0);
    ShapedCons(PAD, [], 1);
    ShapedCons(c, [PAD] + [], 0);
    ShapedCons(b, [c] + ([PAD] + []), 0);
    ShapedCons(a, [b] + ([c] + ([PAD] + [])), 0);
    assert [a, b, c, PAD] == [a] + ([b] + ([c] + ([PAD] + [])));
  }

  lemma SixOf(v: nat)
    requires v < 64
    ensures Six(EncMap(v)) == v && DecMap(EncMap(v)) < 64
  {
    MapInverse(v);
  }

  /** 24 bits regrouped from bytes into sixes. */
  lemma Regroup(a: int, b: int, c: int)
    ensures (((a / 4) * 64 + (a % 4 * 16 + b / 16)) * 64 + (b % 16 * 4 + c / 64)) * 64 + c % 64
            == 65536 * a + 256 * b + c
  {
    RegroupParts(a / 4, a % 4, b / 16, b % 16, c / 64, c % 64);
  }

  lemma RegroupParts(a1: int, a0: int, b1: int, b0: int, c1: int, c0: int)
    ensures ((a1 * 64 + (a0 * 16 + b1)) * 64 + (b0 * 4 + c1)) * 64 + c0
            == 65536 * (4 * a1 + a0) + 256 * (16 * b1 + b0) + (64 * c1 + c0)
  {
  }

  lemma QuadWord(a: Byte, b: Byte, c: Byte)
    ensures var q := Quad(a, b, c); Word(q) == 65536 * a + 256 * b + c
    ensures var q := Quad(a, b, c); DecMap(q[0]) < 64 && DecMap(q[1]) < 64 && DecMap(q[2]) < 64 && DecMap(q[3]) < 64
  {
    SixOf(a / 4);
    SixOf(a % 4 * 16 + b / 16);
    SixOf(b % 16 * 4 + c / 64);
    SixOf(c % 64);
    Regroup(a, b, c);
  }

  lemma WordBytes(a: Byte, b: Byte, c: Byte, v: nat)
    requires v == 65536 * a + 256 * b + c
    ensures v / 65536 == a && v / 256 % 256 == b && v % 256 == c
  {
    ModUnique(v, a, 256 * b + c, 65536);
    ModUnique(v, 256 * a + b, c, 256);
    ModUnique(256 * a + b, a, b, 256);
  }

  lemma QuadBytes(a: Byte, b: Byte, c: Byte)
    ensures Three(Quad(a, b, c), 0) == [a, b, c]
  {
    QuadWord(a, b, c);
    WordBytes(a, b, c, Word(Quad(a, b, c)));
  }

  /** The padded last group of one byte, or of two. */
  lemma LastBytes(a: Byte, b: Byte, two: bool)
    requires !two ==> b == 0
    ensures var x := if two then [a, b] else [a]; Shaped(Encode(x), 0) && Decode(Encode(x), 0) == x
  {
    var c := if two then EncMap(b % 16 * 4) else PAD;
    var e := [EncMap(a / 4), EncMap(a % 4 * 16 + b / 16), c, PAD];
    assert Encode(if two then [a, b] else [a]) == e;
    LastWord(a, b, two, c);
    LastQuad(e[0], e[1], c);
    WordBytes(a, b, 0, Word(e));
    assert e[..4] == e && e[4..] == [];
  }

  lemma LastWord(a: Byte, b: Byte, two: bool, c: Byte)
    requires (!two ==> b == 0) && c == if two then EncMap(b % 16 * 4) else PAD
    ensures Word([EncMap(a / 4), EncMap(a % 4 * 16 + b / 16), c, PAD]) == 65536 * a + 256 * b
    ensures DecMap(EncMap(a / 4)) < 64 && DecMap(EncMap(a % 4 * 16 + b / 16)) < 64 && (DecMap(c) < 64 || c == PAD)
  {
    SixOf(a / 4);
    SixOf(a % 4 * 16 + b / 16);
    SixOf(b % 16 * 4);
    Regroup(a, b, 0);
  }

  /** Decoding undoes encoding. */
  lemma {:induction false} DecodeEncode(x: Bytes)
    ensures Shaped(Encode(x), 0) && Decode(Encode(x), 0) == x
    decreases |x|
  {
    if |x| == 1 {
      LastBytes(x[0], 0, false);
      assert x == [x[0]];
    } else if |x| == 2 {
      LastBytes(x[0], x[1], true);
      assert x == [x[0], x[1]];
    } else if |x| >= 3 {
      DecodeEncode(x[3..]);
      DecodeQuad(x[0], x[1], x[2], Encode(x[3..]));
      FirstThree(x);
    }
  }

  lemma FirstThree(x: Bytes)
    requires |x| >= 3
    ensures x == [x[0], x[1], x[2]] + x[3..]
  {
  }

  lemma DecodeQuad(a: Byte, b: Byte, c: Byte, rest: Bytes)
    requires Shaped(rest, 0)
    ensures var s := Quad(a, b, c) + rest; Shaped(s, 0) && Decode(s, 0) == [a, b, c] + Decode(rest, 0)
  {
    var q := Quad(a, b, c);
    QuadWord(a, b, c);
    FrontQuad(q[0], q[1], q[2], q[3], rest);
    FrontQuad(q[0], q[1], q[2], q[3], []);
    assert q == [q[0], q[1], q[2], q[3]] && q + [] == q;
    QuadBytes(a, b, c);
    assert (q + rest)[..4] == q && (q + rest)[4..] == rest;
  }

  /** s is e with LF and CR LF inserted anywhere. */
  predicate Broken(s: Bytes, e: Bytes)
    decreases |s|
  {
    if |s| == 0 then |e| == 0
    else if s[0] == LF || (|s| >= 2 && s[0] == CR && s[1] == LF) then Broken(s[1..], e)
    else |e| > 0 && s[0] == e[0] && Broken(s[1..], e[1..])
  }

  /** Line breaks do not matter to either pass. */
  lemma {:induction false} ScanBroken(s: Bytes, e: Bytes, j: nat)
    requires Broken(s, e) && Shaped(e, j)
    ensures Scan(s, false, j).Good? && Significant(s) == e
    decreases |s|
  {
    if |s| > 0 {
      if s[0] == LF || (|s| >= 2 && s[0] == CR && s[1] == LF) {
        ScanBroken(s[1..], e, j);
      } else {
        ScanBroken(s[1..], e[1..], if e[0] == PAD then j + 1 else j);
        assert e == [e[0]] + e[1..];
      }
    }
  }

  /** Every byte string comes back, whatever line breaks were put into its encoding. */
  lemma BrokenRoundTrip(x: Bytes, s: Bytes)
    requires Broken(s, Encode(x))
    ensures Scan(s, false, 0).Good? && Shaped(Significant(s), 0) && Decode(Significant(s), 0) == x
  {
    DecodeEncode(x);
    ScanBroken(s, Encode(x), 0);
  }

  /** The same through the buffers, and the announced length is then exact. */
  method RoundTrip(x: Bytes, s: Bytes, dst: array<Byte>) returns (olen: int)
    requires Broken(s, Encode(x)) && dst.Length >= |x|
    modifies dst
    ensures olen == |x| && dst[..olen] == x
  {
    BrokenRoundTrip(x, s);
    ExactSize(x, s);
    var st;
    st, olen := DecodeInto(dst, s);
  }

  lemma ExactSize(x: Bytes, s: Bytes)
    requires Broken(s, Encode(x))
    ensures var g := Significant(s); Sized(|g|, Pads(g)) == |x|
  {
    var g := Significant(s);
    BrokenRoundTrip(x, s);
    DecodeEncode(x);
    ScanBroken(s, Encode(x), 0);
    EncodeLength(x);
    DecodeFits(g, 0);
    SizedIs(|g|, Pads(g));
    WholeGroups((|x| + 2) / 3);
  }

  lemma WholeGroups(k: nat)
    ensures (6 * (4 * k) + 7) / 8 == 3 * k && (4 * k) % 4 == 0 && (4 * k) / 4 == k
  {
    ModUnique(6 * (4 * k) + 7, 3 * k, 7, 8);
    ModUnique(4 * k, k, 0, 4);
  }
}
