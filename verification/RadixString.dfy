/** Numbers as text in radix 2 to 16: read_string and write_string. */
module RadixString {
  import opened Arith
  import opened Limbs
  import opened Bits
  import opened Mpis
  import opened MpiShift
  import opened MpiMul
  import opened Division
  import opened Modulo
  import opened ByteStrings

  datatype TextStatus = TextOk | TextBadInput | InvalidCharacter | BufferTooSmall

  // ----- digits

  /** mpi_get_digit: 255 stands for "no digit". */
  function DigitOf(c: char): (d: nat)
    ensures d < 16 || d == 255
  {
    var x := c as int;
    if 0x30 <= x <= 0x39 then x - 0x30
    else if 0x41 <= x <= 0x46 then x - 0x37
    else if 0x61 <= x <= 0x66 then x - 0x57
    else 255
  }

  function DigitChar(d: nat): (c: char)
    requires d < 16
    ensures DigitOf(c) == d && c != '-'
  {
    if d < 10 then (d + 0x30) as char else (d + 0x37) as char
  }

  const UPPER: string := "0123456789ABCDEF"
  const LOWER: string := "0123456789abcdef"

  /** The digits that are written, and those that are read. */
  lemma DigitTable(d: nat)
    requires d < 16
    ensures DigitChar(d) == UPPER[d] && DigitOf(UPPER[d]) == d && DigitOf(LOWER[d]) == d
  {
    DecimalDigit(d);
    LetterDigit(d);
  }

  lemma DecimalDigit(d: nat)
    requires d < 16
    ensures d < 10 ==> UPPER[d] == ('0' as int + d) as char && LOWER[d] == UPPER[d]
  {
  }

  lemma LetterDigit(d: nat)
    requires d < 16
    ensures d >= 10 ==> UPPER[d] == ('A' as int + d - 10) as char && LOWER[d] == ('a' as int + d - 10) as char
  {
  }

  /** No other character is a digit. */
  lemma NoOtherDigit(c: char)
    ensures DigitOf(c) == 255 <==> c !in UPPER && c !in LOWER
  {
    if DigitOf(c) < 16 {
      DigitTable(DigitOf(c));
    } else {
      forall d: nat | d < 16
        ensures c != UPPER[d] && c != LOWER[d]
      {
        DigitTable(d);
      }
    }
  }

  predicate AllDigits(s: string, radix: nat) {
    forall i :: 0 <= i < |s| ==> DigitOf(s[i]) < radix
  }

  /** The text without its sign. */
  function Body(s: string): string {
    if |s| > 0 && s[0] == '-' then s[1..] else s
  }

  /** The number a string of digits stands for, most significant digit first. */
  function Parse(s: string, radix: nat): nat {
    if |s| == 0 then 0 else Parse(s[..|s| - 1], radix) * radix + DigitOf(s[|s| - 1])
  }

  function SignedParse(s: string, radix: nat): int {
    var v: int := Parse(Body(s), radix);
    if Body(s) == s then v else -v
  }

  /** The shortest digit string of a number, one digit for zero. */
  function Digits(v: nat, radix: nat): (s: string)
    requires 2 <= radix <= 16
    ensures |s| >= 1
    decreases v
  {
    if v < radix then [DigitChar(v)] else
      Shrinks(v, radix);
      Digits(v / radix, radix) + [DigitChar(v % radix)]
  }

  lemma Shrinks(v: nat, radix: nat)
    requires 2 <= radix && v > 0
    ensures v / radix < v
  {
    DivBounds(v, radix);
    QuotientAtLeast(0, radix, v);
    MulMono(2, radix, v / radix);
  }

  /** Parsing undoes printing. */
  lemma {:induction false} ParseDigits(v: nat, radix: nat)
    requires 2 <= radix <= 16
    ensures AllDigits(Digits(v, radix), radix) && Parse(Digits(v, radix), radix) == v
    decreases v
  {
    if v < radix {
      assert Parse([DigitChar(v)][..0], radix) == 0;
    } else {
      Shrinks(v, radix);
      ParseDigits(v / radix, radix);
      var h := Digits(v / radix, radix);
      assert (h + [DigitChar(v % radix)])[..|h|] == h;
      DivBounds(v, radix);
    }
  }

  // ----- bytes in hexadecimal

  function HexByte(c: nat): (s: string)
    requires c < 256
    ensures |s| == 2
  {
    [DigitChar(c / 16), DigitChar(c % 16)]
  }

  /** Whole bytes, most significant first, one byte for zero. */
  function HexPairs(v: nat): (s: string)
    ensures |s| >= 2
  {
    if v < 256 then HexByte(v) else HexPairs(v / 256) + HexByte(v % 256)
  }

  lemma ParseTwo(h: string, a: char, b: char, radix: nat)
    ensures Parse(h + [a, b], radix) == (Parse(h, radix) * radix + DigitOf(a)) * radix + DigitOf(b)
  {
    assert (h + [a, b])[..|h| + 1] == h + [a];
    assert (h + [a])[..|h|] == h;
  }

  lemma {:induction false} ParseHexPairs(v: nat)
    ensures AllDigits(HexPairs(v), 16) && Parse(HexPairs(v), 16) == v
  {
    if v < 256 {
      assert [] + HexByte(v) == HexByte(v);
      ParseTwo([], DigitChar(v / 16), DigitChar(v % 16), 16);
    } else {
      ParseHexPairs(v / 256);
      ParseTwo(HexPairs(v / 256), DigitChar(v % 256 / 16), DigitChar(v % 256 % 16), 16);
    }
  }

  lemma HexPairsSnoc(u: nat, c: nat)
    requires c < 256 && u > 0
    ensures HexPairs(256 * u + c) == HexPairs(u) + HexByte(c)
  {
    ModUnique(256 * u + c, u, c, 256);
  }

  // ----- lengths

  /** k digits suffice below radix^k. */
  lemma {:induction false} DigitsLength(v: nat, radix: nat, k: nat)
    requires 2 <= radix <= 16 && k >= 1 && v < Power(radix, k)
    ensures |Digits(v, radix)| <= k
    decreases k
  {
    if v >= radix {
      assert k > 1 by {
        assert Power(radix, 1) == radix * Power(radix, 0);
      }
      QuotientBelow(Power(radix, k - 1), radix, v);
      DigitsLength(v / radix, radix, k - 1);
    }
  }

  lemma {:induction false} PowerAtLeast(radix: nat, k: nat)
    requires radix >= 2
    ensures Power(radix, k) >= Pow2(k)
    ensures radix >= 4 ==> Power(radix, k) >= Pow2(2 * k)
  {
    if k > 0 {
      PowerAtLeast(radix, k - 1);
      var t := Power(radix, k - 1);
      MulMono(2, radix, t);
      if radix >= 4 {
        MulMono(4, radix, t);
        assert Pow2(2 * k) == 2 * Pow2(2 * k - 1) && Pow2(2 * k - 1) == 2 * Pow2(2 * (k - 1));
      }
    }
  }

  lemma {:induction false} HexPairsLength(v: nat, k: nat)
    requires k >= 1 && v < Pow2(8 * k)
    ensures |HexPairs(v)| <= 2 * k
    decreases k
  {
    if v >= 256 {
      EightBits(k - 1);
      assert Pow2(8 * 0) == 1;
      HexPairsLength(v / 256, k - 1);
    }
  }

  lemma EightBits(k: nat)
    ensures Pow2(8 * (k + 1)) == 256 * Pow2(8 * k)
  {
    Pow2Add(8, 8 * k);
    assert Pow2(8) == 256;
  }

  /** The buffer length write_string asks for. */
  function Needed(bits: nat, radix: nat): nat {
    var half := if radix >= 4 then bits / 2 else bits;
    var n := if radix >= 16 then half / 2 else half;
    n + 3 + (n + 1) % 2
  }

  /** The characters write_string produces for the magnitude. */
  function Text(v: nat, radix: nat): (s: string)
    requires 2 <= radix <= 16
    ensures |s| >= 1
  {
    if radix == 16 then HexPairs(v) else Digits(v, radix)
  }

  lemma EstimateOdd(b: nat)
    ensures 2 * ((b + 7) / 8) + 2 <= Needed(b, 16) && 4 <= Needed(b, 16)
    ensures forall radix :: 4 <= radix < 16 ==> (b + 1) / 2 + 2 <= Needed(b, radix) && 3 <= Needed(b, radix)
    ensures forall radix :: 2 <= radix < 4 ==> b + 2 <= Needed(b, radix) && 3 <= Needed(b, radix)
  {
    assert b / 2 / 2 == b / 4;
  }

  /** A number of b bits has at most max(1, ceil(b / 8)), ceil(b / 2) or b digits, by radix. */
  lemma TextLength(v: nat, radix: nat, k: nat)
    requires 2 <= radix <= 16 && k >= 1
    requires NumBits(v) <= if radix == 16 then 8 * k else if radix >= 4 then 2 * k else k
    ensures |Text(v, radix)| <= if radix == 16 then 2 * k else k
  {
    NumBitsBounds(v);
    if radix == 16 {
      Pow2Mono(NumBits(v), 8 * k);
      HexPairsLength(v, k);
    } else {
      PowerAtLeast(radix, k);
      Pow2Mono(NumBits(v), if radix >= 4 then 2 * k else k);
      DigitsLength(v, radix, k);
    }
  }

  /** The estimate covers sign, digits and terminator. */
  lemma EstimateCovers(v: nat, radix: nat)
    requires 2 <= radix <= 16
    ensures 1 + |Text(v, radix)| + 1 <= Needed(NumBits(v), radix)
  {
    var b := NumBits(v);
    EstimateOdd(b);
    var k := if b == 0 then 1 else if radix == 16 then (b + 7) / 8 else if radix >= 4 then (b + 1) / 2 else b;
    TextLength(v, radix, k);
  }

  // ----- writing

  /** One character at p. */
  method Put(buf: array<char>, p: nat, c: char)
    requires p < buf.Length
    modifies buf
    ensures buf[..p + 1] == old(buf[..p]) + [c]
  {
    buf[p] := c;
    assert buf[..p + 1] == buf[..p] + [buf[p]];
  }

  /** mpi_write_hlp: the digits, most significant first; X is divided down to zero on the way. */
  method WriteHlp(X: Mpi, radix: nat, buf: array<char>, p: nat) returns (p': nat)
    requires 2 <= radix <= 16 && X.s == 1 && X.p != [] && p + |Digits(Val(X.p), radix)| <= buf.Length
    modifies X, buf
    ensures p' == p + |Digits(old(Val(X.p)), radix)| && buf[..p'] == old(buf[..p]) + Digits(old(Val(X.p)), radix)
    decreases Val(X.p)
  {
    ghost var v := Val(X.p);
    ghost var before := buf[..p];
    var st, r := ModInt(X, radix);
    st := DivInt(X, null, X, radix);
    QuotientOf(v, radix);
    var cmp := X.CmpInt(0);
    p' := p;
    if cmp != 0 {
      Shrinks(v, radix);
      p' := WriteHlp(X, radix, buf, p);
    }
    Put(buf, p', DigitChar(r));
    p' := p' + 1;
    if v < radix {
      assert before + [DigitChar(r)] == before + Digits(v, radix);
    } else {
      assert (before + Digits(v / radix, radix)) + [DigitChar(r)] == before + Digits(v, radix);
    }
  }

  lemma QuotientOf(v: nat, radix: nat)
    requires radix >= 2
    ensures TruncDiv(v, radix) == v / radix && (v / radix == 0 <==> v < radix) && (v < radix ==> v % radix == v)
    ensures 0 <= v % radix < radix
  {
    DivBounds(v, radix);
    QuotientAtLeast(0, radix, v);
    if v < radix {
      ModUnique(v, 0, v, radix);
    } else {
      QuotientAtLeast(1, radix, v);
    }
  }

  lemma LimbBytes()
    ensures Pow256(8) == BASE
  {
    assert Pow256(4) == 0x1_0000_0000;
    assert Pow256(8) == 256 * (256 * (256 * (256 * Pow256(4))));
  }

  lemma {:induction false} HexPairsMono(u: nat, v: nat)
    requires u <= v
    ensures |HexPairs(u)| <= |HexPairs(v)|
    decreases v
  {
    if v >= 256 && u >= 256 {
      HexPairsMono(u / 256, v / 256);
    }
  }

  /** The next byte of a limb: x = ... + 256^j * (seen) + r, and r's top byte is next. */
  lemma NextByte(x: nat, q: nat, j: nat, r: nat)
    requires j > 0 && TopBytes(x, q, j, r) && r < Pow256(j)
    ensures var w := Pow256(j - 1); var c := (x / w) % 256; c < 256 && r == c * w + r % w && 0 <= r % w < w
  {
    var w := Pow256(j - 1);
    var c := r / w;
    DivBounds(r, w);
    QuotientBelow(256, w, r);
    QuotientAtLeast(0, w, r);
    assert x == w * (256 * q + c) + r % w by {
      Distribute(w, 256 * q, c);
      Rotate(q, 256, w);
      Assoc(w, 256, q);
    }
    ModUnique(x, 256 * q + c, r % w, w);
    ModUnique(256 * q + c, q, c, 256);
  }

  /** The top bytes of total make u, the low j bytes make r. */
  ghost predicate TopBytes(total: nat, u: nat, j: nat, r: nat) {
    total == u * Pow256(j) + r
  }

  lemma ByteStep(total: nat, u: nat, j: nat, r: nat, c: nat, r': nat)
    requires j > 0 && TopBytes(total, u, j, r) && r == c * Pow256(j - 1) + r'
    ensures TopBytes(total, 256 * u + c, j - 1, r') && 256 * u + c <= total
  {
    var w := Pow256(j - 1);
    assert u * (256 * w) == (256 * u) * w by {
      Rotate(256, u, w);
    }
    Distribute(w, 256 * u, c);
    MulMono(1, w, 256 * u + c);
  }

  /** What has been written once the number u has been seen: nothing while it is all leading zeros. */
  function Seen(u: nat, printed: bool): string {
    if printed then HexPairs(u) else []
  }

  /** The text so far. */
  ghost predicate Written(buf: array<char>, p: nat, before: string, u: nat, k: bool)
    reads buf
  {
    p == |before| + |Seen(u, k)| && p <= buf.Length && buf[..p] == before + Seen(u, k)
  }

  method PutByte(buf: array<char>, p: nat, c: nat, ghost before: string, ghost u: nat, ghost k: bool)
    requires c < 256 && (k <==> u > 0) && Written(buf, p, before, u, k)
    requires |before| + |HexPairs(256 * u + c)| <= buf.Length
    modifies buf
    ensures Written(buf, p + 2, before, 256 * u + c, true)
  {
    SeenNext(u, c, k);
    Put(buf, p, DigitChar(c / 16));
    Put(buf, p + 1, DigitChar(c % 16));
    assert buf[..p + 2] == before + (Seen(u, k) + HexByte(c));
  }

  /** The next byte of x, and how it extends what has been seen of x and of the whole number. */
  method ByteAt(x: Limb, j: nat, ghost q: nat, ghost r: nat, ghost u: nat, ghost total: nat)
    returns (c: nat, ghost q': nat, ghost u': nat, ghost r': nat)
    requires j > 0 && TopBytes(x, q, j, r) && r < Pow256(j) && TopBytes(total, u, j, r)
    ensures c < 256 && TopBytes(x, q', j - 1, r') && r' < Pow256(j - 1) && TopBytes(total, u', j - 1, r')
    ensures u' == 256 * u + c && |HexPairs(u')| <= |HexPairs(total)|
  {
    NextByte(x, q, j, r);
    c := (x / Pow256(j - 1)) % 256;
    r' := r % Pow256(j - 1);
    ByteStep(total, u, j, r, c, r');
    ByteStep(x, q, j, r, c, r');
    q', u' := 256 * q + c, 256 * u + c;
    HexPairsMono(u', total);
  }

  /** Before byte j - 1: what has been seen of the limb x and of the whole number, and what is on paper. */
  ghost predicate InLimb(buf: array<char>, p: nat, before: string, x: Limb, total: nat, j: nat, q: nat, u: nat,
                         r: nat, k: bool, lastLimb: bool)
    reads buf
  {
    && TopBytes(x, q, j, r) && r < Pow256(j) && TopBytes(total, u, j, r)
    && (k <==> (u > 0 || (lastLimb && j == 0))) && Written(buf, p, before, u, k)
  }

  method OneByte(x: Limb, buf: array<char>, p: nat, k: bool, lastLimb: bool, j: nat, ghost total: nat,
                 ghost before: string, ghost q: nat, ghost u: nat, ghost r: nat)
      returns (p': nat, k': bool, ghost q': nat, ghost u': nat, ghost r': nat)
    requires j > 0 && InLimb(buf, p, before, x, total, j, q, u, r, k, lastLimb)
    requires |before| + |HexPairs(total)| <= buf.Length
    modifies buf
    ensures InLimb(buf, p', before, x, total, j - 1, q', u', r', k', lastLimb)
  {
    var c;
    c, q', u', r' := ByteAt(x, j, q, r, u, total);
    p', k' := p, k;
    if !(c == 0 && !k && !(lastLimb && j == 1)) {
      PutByte(buf, p, c, before, u, k);
      p', k' := p + 2, true;
    }
  }

  /** The bytes of one limb, leading zero bytes of the whole number skipped. */
  method HexLimb(x: Limb, buf: array<char>, p0: nat, k0: bool, lastLimb: bool, ghost u0: nat, ghost total: nat,
                 ghost before: string)
    returns (p: nat, k: bool)
    requires total == u0 * BASE + x && (k0 <==> u0 > 0) && Written(buf, p0, before, u0, k0)
    requires |before| + |HexPairs(total)| <= buf.Length
    modifies buf
    ensures (k <==> (total > 0 || lastLimb)) && Written(buf, p, before, total, k)
  {
    p, k := p0, k0;
    ghost var u: nat, r: nat, q: nat := u0, x, 0;
    LimbBytes();
    var j: nat := 8;
    assert TopBytes(x, q, j, r) && TopBytes(total, u, j, r);
    while j > 0
      invariant 0 <= j <= 8 && InLimb(buf, p, before, x, total, j, q, u, r, k, lastLimb)
    {
      p, k, q, u, r := OneByte(x, buf, p, k, lastLimb, j, total, before, q, u, r);
      j := j - 1;
    }
    AllBytes(total, u, j, r);
  }

  lemma AllBytes(total: nat, u: nat, j: nat, r: nat)
    requires j == 0 && TopBytes(total, u, j, r) && r < Pow256(j)
    ensures total == u
  {
  }

  lemma SeenNext(u: nat, c: nat, k: bool)
    requires c < 256 && (k <==> u > 0)
    ensures HexPairs(256 * u + c) == Seen(u, k) + HexByte(c)
  {
    if k {
      HexPairsSnoc(u, c);
    }
  }

  /** The hexadecimal branch: whole bytes from the top limb down. */
  method WriteHex(X: Mpi, buf: array<char>, p0: nat) returns (p: nat)
    requires X.p != [] && p0 + |HexPairs(Val(X.p))| <= buf.Length
    modifies buf
    ensures p == p0 + |HexPairs(Val(X.p))| && buf[..p] == old(buf[..p0]) + HexPairs(Val(X.p))
  {
    ghost var before := buf[..p0];
    p := p0;
    var k := false;
    var i := |X.p|;
    assert X.p[i..] == [];
    while i > 0
      invariant 0 <= i <= |X.p|
      invariant k <==> (Val(X.p[i..]) > 0 || i == 0)
      invariant Written(buf, p, before, Val(X.p[i..]), k)
    {
      UpperLimb(X.p, i - 1);
      p, k := HexLimb(X.p[i - 1], buf, p, k, i == 1, Val(X.p[i..]), Val(X.p[i - 1..]), before);
      i := i - 1;
    }
    assert X.p[0..] == X.p;
  }

  lemma UpperLimb(p: seq<Limb>, i: nat)
    requires i < |p|
    ensures Val(p[i..]) == Val(p[i + 1..]) * BASE + p[i] && |HexPairs(Val(p[i..]))| <= |HexPairs(Val(p))|
  {
    assert p[i..][1..] == p[i + 1..];
    UpperPart(p, i);
    HexPairsMono(Val(p[i..]), Val(p));
  }

  lemma UpperPart(p: seq<Limb>, i: nat)
    requires i <= |p|
    ensures Val(p[i..]) <= Val(p)
  {
    ValSplit(p, i);
    MulMono(1, Pow(i), Val(p[i..]));
  }

  function SignText(s: Sign): string {
    if s == -1 then "-" else ""
  }

  /**
   write_string into a buffer.  A buffer of the estimated length always suffices, and the text is the
   sign, the digits and a terminator.
   */
  method WriteString(X: Mpi, radix: int, buf: array<char>) returns (st: TextStatus, olen: nat)
    requires X.p != []
    modifies buf
    ensures st == if !(2 <= radix <= 16) then TextBadInput
                  else if buf.Length < Needed(NumBits(Val(X.p)), radix) then BufferTooSmall else TextOk
    ensures st == BufferTooSmall ==> olen == Needed(NumBits(Val(X.p)), radix)
    ensures st == TextOk ==>
              && olen <= Needed(NumBits(Val(X.p)), radix) <= buf.Length
              && buf[..olen] == SignText(X.s) + Text(Val(X.p), radix) + ['\0']
    ensures st == TextOk ==> IsNumeral(Text(Val(X.p), radix), Val(X.p), radix)
  {
    olen := 0;
    if radix < 2 || radix > 16 {
      return TextBadInput, olen;
    }
    var n := BitLen(X);
    n := Needed(n, radix);
    if buf.Length < n {
      return BufferTooSmall, n;
    }
    EstimateCovers(Val(X.p), radix);
    TextIs(Val(X.p), radix);
    olen := WriteText(X, radix, buf);
    return TextOk, olen;
  }

  /** Sign, digits and terminator. */
  method WriteText(X: Mpi, radix: nat, buf: array<char>) returns (olen: nat)
    requires X.p != [] && 2 <= radix <= 16 && |SignText(X.s) + Text(Val(X.p), radix)| + 1 <= buf.Length
    modifies buf
    ensures olen <= buf.Length && buf[..olen] == SignText(X.s) + Text(Val(X.p), radix) + ['\0']
  {
    var p := 0;
    if X.s == -1 {
      Put(buf, p, '-');
      p := 1;
    }
    assert buf[..p] == SignText(X.s);
    if radix == 16 {
      p := WriteHex(X, buf, p);
    } else {
      var T := new Mpi();
      T.Copy(X);
      T.s := 1;
      p := WriteHlp(T, radix, buf, p);
    }
    Put(buf, p, '\0');
    olen := p + 1;
  }

  // ----- reading

  /** X = radix * X + d away from zero; the sign survives even while X is zero. */
  method AppendDigit(X: Mpi, T: Mpi, radix: nat, d: nat)
    requires X != T && X.p != [] && 2 <= radix <= 16 && d < 16
    modifies X, T
    ensures X.s == old(X.s) && X.p != [] && Val(X.p) == old(Val(X.p)) * radix + d
  {
    MulInt(T, X, radix);
    if X.s == 1 {
      X.AddInt(T, d);
    } else {
      X.SubInt(T, d);
    }
  }

  /** Left to right: multiply by the radix and add or subtract the digit. */
  lemma ParseNext(b: string, i: nat, radix: nat)
    requires i < |b|
    ensures Parse(b[..i + 1], radix) == Parse(b[..i], radix) * radix + DigitOf(b[i])
    ensures AllDigits(b[..i], radix) && DigitOf(b[i]) < radix ==> AllDigits(b[..i + 1], radix)
  {
    assert b[..i + 1][..i] == b[..i];
  }

  method ReadBody(X: Mpi, T: Mpi, radix: nat, b: string) returns (ok: bool)
    requires X != T && X.p != [] && Val(X.p) == 0 && 2 <= radix <= 16
    modifies X, T
    ensures X.s == old(X.s) && (ok <==> AllDigits(b, radix))
    ensures ok ==> Val(X.p) == Parse(b, radix)
  {
    var i := 0;
    assert b[..0] == [];
    while i < |b|
      invariant 0 <= i <= |b| && X.p != [] && X.s == old(X.s)
      invariant Val(X.p) == Parse(b[..i], radix) && AllDigits(b[..i], radix)
    {
      var d := DigitOf(b[i]);
      if d >= radix {
        return false;
      }
      ParseNext(b, i, radix);
      AppendDigit(X, T, radix, d);
      i := i + 1;
    }
    assert b[..|b|] == b;
    ok := true;
  }

  /** A radix below 16: an optional sign, then the digits. */
  method ReadDigits(X: Mpi, radix: nat, s: string) returns (ok: bool)
    requires 2 <= radix <= 16
    modifies X
    ensures ok <==> AllDigits(Body(s), radix)
    ensures ok ==> X.Value() == SignedParse(s, radix)
  {
    X.Lset(0);
    var T := new Mpi();
    if |s| > 0 && s[0] == '-' {
      X.s := -1;
      ok := ReadBody(X, T, radix, s[1..]);
    } else {
      ok := ReadBody(X, T, radix, s);
    }
  }

  lemma {:induction false} ParseCons(c: char, t: string, radix: nat)
    ensures Parse([c] + t, radix) == DigitOf(c) * Power(radix, |t|) + Parse(t, radix)
    decreases |t|
  {
    var s := [c] + t;
    if |t| == 0 {
      assert s[..0] == [];
    } else {
      var n := |t| - 1;
      assert s[..|s| - 1] == [c] + t[..n];
      ParseCons(c, t[..n], radix);
      HornerShift(DigitOf(c), Power(radix, n), Parse(t[..n], radix), radix, DigitOf(t[n]));
    }
  }

  lemma HornerShift(d: int, q: int, r: int, b: int, e: int)
    ensures (d * q + r) * b + e == d * (b * q) + (r * b + e)
  {
    Distribute(b, d * q, r);
    Rotate(d, b, q);
    Rotate(b, d, q);
  }

  lemma HexStep(s: string, i: nat)
    requires i < |s|
    ensures Parse(s[i..], 16) == DigitOf(s[i]) * Pow2(4 * (|s| - i - 1)) + Parse(s[i + 1..], 16)
  {
    assert s[i..] == [s[i]] + s[i + 1..];
    ParseCons(s[i], s[i + 1..], 16);
    HexPower(|s| - i - 1);
  }

  lemma {:induction false} HexPower(j: nat)
    ensures Power(16, j) == Pow2(4 * j)
  {
    if j > 0 {
      HexPower(j - 1);
      Pow2Add(4, 4 * (j - 1));
      assert Pow2(4) == 16;
    }
  }

  lemma NibbleWeight(j: nat)
    ensures Pow2(4 * j) == Pow(j / 16) * Pow2(4 * (j % 16))
  {
    var k, m := j / 16, j % 16;
    assert 4 * j == BITS * k + 4 * m;
    PowIsPow2(k);
    Pow2Add(BITS * k, 4 * m);
  }

  /** Nibble j sits w up in limb k, and everything from there on is still zero. */
  lemma NibbleRoom(p: seq<Limb>, k: nat, w: nat)
    requires k < |p| && Val(p) < Pow(k) * w
    ensures p[k] < w
  {
    ValSplit(p, k);
    HighBelow(Val(p), Val(p[..k]), Pow(k), Val(p[k..]), w);
    LowestLimb(p[k..]);
  }

  lemma HighBelow(v: nat, low: nat, a: nat, high: nat, w: nat)
    requires v == low + a * high && v < a * w
    ensures high < w
  {
    CancelLt(high, w, a);
  }

  lemma LowestLimb(p: seq<Limb>)
    requires |p| > 0
    ensures p[0] <= Val(p)
  {
  }

  lemma NibbleFits(x: nat, d: nat, m: nat)
    requires m < 16 && x < Pow2(4 * m) && d < 16
    ensures x + d * Pow2(4 * m) < BASE && Or(x, d * Pow2(4 * m)) == x + d * Pow2(4 * m)
    ensures x + d * Pow2(4 * m) < Pow2(4 * (m + 1))
  {
    var w, n := Pow2(4 * m), 4 * (m + 1);
    MulMono(0, d, w);
    OrIsAdd(d, x, 4 * m, d * w);
    NextNibble(m);
    NibbleAbove(x, d, w);
    Pow2Mono(n, BITS);
    LimbIs64Bits();
  }

  lemma NextNibble(m: nat)
    ensures Pow2(4 * (m + 1)) == 16 * Pow2(4 * m)
  {
    Pow2Add(4, 4 * m);
    assert Pow2(4) == 16;
  }

  lemma NibbleAbove(x: nat, d: nat, w: nat)
    requires x < w && d < 16
    ensures x + d * w < 16 * w
  {
    MulMono(d + 1, 16, w);
    Plus1(d, w);
  }

  method NibbleWord(x: Limb, d: nat, m: nat) returns (y: Limb)
    requires m < 16 && x < Pow2(4 * m) && d < 16
    ensures y == x + d * Pow2(4 * m)
  {
    MulMono(0, d, Pow2(4 * m));
    NibbleFits(x, d, m);
    y := Or(x, d * Pow2(4 * m));
  }

  /** X->p[j / 16] |= d << (4 (j % 16)). */
  method PutNibble(X: Mpi, j: nat, d: nat)
    requires d < 16 && j / 16 < |X.p| && Val(X.p) < Pow2(4 * j)
    modifies X`p
    ensures |X.p| == old(|X.p|) && Val(X.p) == old(Val(X.p)) + d * Pow2(4 * j) && Val(X.p) < Pow2(4 * (j + 1))
  {
    var k, m := j / 16, j % 16;
    NibbleWeight(j);
    NibbleRoom(X.p, k, Pow2(4 * m));
    var x := NibbleWord(X.p[k], d, m);
    NibbleStored(X.p, k, x, d, Pow2(4 * m), Pow2(4 * j));
    FourMore(j);
    X.p := X.p[k := x];
  }

  lemma NibbleStored(p: seq<Limb>, k: nat, x: Limb, d: nat, w: nat, aw: nat)
    requires d < 16 && k < |p| && Val(p) < aw && aw == Pow(k) * w && x == p[k] + d * w
    ensures Val(p[k := x]) == Val(p) + d * aw && Val(p) + d * aw < 16 * aw
  {
    ValUpdate(p, k, x);
    NibbleValue(Val(p), d, Pow(k), w, aw);
  }

  lemma FourMore(j: nat)
    ensures Pow2(4 * (j + 1)) == 16 * Pow2(4 * j)
  {
    Pow2Add(4, 4 * j);
    assert Pow2(4) == 16;
  }

  lemma NibbleValue(v: nat, d: nat, a: nat, w: nat, aw: nat)
    requires v < aw && aw == a * w && d < 16
    ensures (d * w) * a == d * aw && v + d * aw < 16 * aw
  {
    Assoc(d, w, a);
    MulMono(d + 1, 16, aw);
    Plus1(d, aw);
  }

  lemma EnoughLimbs(n: nat, j: nat)
    requires j < n
    ensures j / 16 < BitsToLimbs(4 * n)
  {
  }

  /** Radix 16, right to left, four bits at a time into limbs sized from the length. */
  method ReadHex(X: Mpi, s: string) returns (ok: bool)
    modifies X
    ensures ok <==> AllDigits(Body(s), 16)
    ensures ok ==> X.Value() == SignedParse(s, 16)
  {
    X.Grow(BitsToLimbs(4 * |s|));
    X.Lset(0);
    var i, j := |s|, 0;
    assert s[i..] == [];
    while i > 0
      invariant 0 <= i <= |s| && j == |s| - i && X.s == 1 && ReadFrom(X.p, s, i)
    {
      if i == 1 && s[0] == '-' {
        X.s := -1;
        break;
      }
      var d := DigitOf(s[i - 1]);
      if d >= 16 {
        BadDigit(s, i - 1);
        return false;
      }
      AddNibble(X, s, i - 1, j, d);
      i, j := i - 1, j + 1;
    }
    assert i == 0 ==> s[i..] == s;
    ok := true;
  }

  /** The limbs hold the digits from i on, with room for all of them. */
  ghost predicate ReadFrom(p: seq<Limb>, s: string, i: nat) {
    && i <= |s| && |p| >= BitsToLimbs(4 * |s|)
    && AllDigits(s[i..], 16) && Val(p) == Parse(s[i..], 16) && Val(p) < Pow2(4 * (|s| - i))
  }

  method AddNibble(X: Mpi, s: string, i: nat, j: nat, d: nat)
    requires i < |s| && j == |s| - i - 1 && ReadFrom(X.p, s, i + 1) && d == DigitOf(s[i]) && d < 16
    modifies X`p
    ensures ReadFrom(X.p, s, i)
  {
    HexStep(s, i);
    EnoughLimbs(|s|, j);
    PutNibble(X, j, d);
    assert s[i..] == [s[i]] + s[i + 1..];
  }

  lemma BadDigit(s: string, i: nat)
    requires i < |s| && !(i == 0 && s[0] == '-') && DigitOf(s[i]) >= 16
    ensures !AllDigits(Body(s), 16)
  {
    if Body(s) != s {
      assert Body(s)[i - 1] == s[i];
    }
  }

  // ----- what is written and what is read, by the character

  /** t is v in the given radix: upper-case digits, and no more of them than needed, whole bytes in radix 16. */
  predicate IsNumeral(t: string, v: nat, radix: nat) {
    && (forall i :: 0 <= i < |t| ==> t[i] in UPPER) && Parse(t, radix) == v
    && if radix == 16 then |t| >= 2 && |t| % 2 == 0 && (|t| == 2 || t[0] != '0' || t[1] != '0')
       else |t| >= 1 && (|t| == 1 || t[0] != '0')
  }

  lemma {:induction false} DigitsAre(v: nat, radix: nat)
    requires 2 <= radix <= 16
    ensures var t := Digits(v, radix);
            (forall i :: 0 <= i < |t| ==> t[i] in UPPER) && (v > 0 ==> t[0] != '0') && (v < radix <==> |t| == 1)
    decreases v
  {
    if v < radix {
      DigitTable(v);
      DigitTable(0);
    } else {
      Shrinks(v, radix);
      QuotientAtLeast(1, radix, v);
      DigitTable(v % radix);
      DigitsAre(v / radix, radix);
    }
  }

  lemma {:induction false} HexPairsAre(v: nat)
    ensures var t := HexPairs(v);
            (forall i :: 0 <= i < |t| ==> t[i] in UPPER) && |t| % 2 == 0 && (v > 0 ==> t[0] != '0' || t[1] != '0')
  {
    if v < 256 {
      HexByteIs(v);
    } else {
      QuotientAtLeast(1, 256, v);
      HexByteIs(v % 256);
      HexPairsAre(v / 256);
      OneMorePair(HexPairs(v / 256), HexByte(v % 256));
    }
  }

  lemma OneMorePair(h: string, b: string)
    requires |h| >= 2 && |h| % 2 == 0 && |b| == 2
    requires (forall i :: 0 <= i < |h| ==> h[i] in UPPER) && b[0] in UPPER && b[1] in UPPER
    ensures var t := h + b;
            (forall i :: 0 <= i < |t| ==> t[i] in UPPER) && |t| % 2 == 0 && t[0] == h[0] && t[1] == h[1]
  {
  }

  lemma HexByteIs(c: nat)
    requires c < 256
    ensures var t := HexByte(c); t[0] in UPPER && t[1] in UPPER && (c > 0 ==> t[0] != '0' || t[1] != '0')
  {
    DigitTable(c / 16);
    DigitTable(c % 16);
    DigitTable(0);
  }

  lemma TextIs(v: nat, radix: nat)
    requires 2 <= radix <= 16
    ensures IsNumeral(Text(v, radix), v, radix)
  {
    if radix == 16 {
      HexPairsAre(v);
      ParseHexPairs(v);
      LongPairs(v);
    } else {
      DigitsAre(v, radix);
      ParseDigits(v, radix);
    }
  }

  lemma LongPairs(v: nat)
    ensures v == 0 ==> |HexPairs(v)| == 2
  {
  }

  /** A minus sign in front, and only there, makes the number negative. */
  lemma SignedParseIs(t: string, radix: nat)
    ensures SignText(-1) == "-" && SignText(1) == ""
    ensures SignedParse("-" + t, radix) == -(Parse(t, radix) as int)
    ensures t == "" || t[0] != '-' ==> SignedParse(t, radix) == Parse(t, radix)
  {
    assert ("-" + t)[1..] == t && |"-" + t| != |t|;
  }

  /** read_string: succeeds exactly on a radix from 2 to 16 and digits of that radix after an optional sign. */
  method ReadString(X: Mpi, radix: int, s: string) returns (st: TextStatus)
    modifies X
    ensures st == if !(2 <= radix <= 16) then TextBadInput
                  else if AllDigits(Body(s), radix) then TextOk else InvalidCharacter
    ensures st == TextOk ==> X.Value() == SignedParse(s, radix)
  {
    if radix < 2 || radix > 16 {
      return TextBadInput;
    }
    var ok;
    if radix == 16 {
      ok := ReadHex(X, s);
    } else {
      ok := ReadDigits(X, radix, s);
    }
    st := if ok then TextOk else InvalidCharacter;
  }

  /** Reading back what was written gives the number, in every radix and for either sign of zero. */
  lemma TextRoundTrip(v: nat, sign: Sign, radix: nat)
    requires 2 <= radix <= 16
    ensures var s := SignText(sign) + Text(v, radix);
            AllDigits(Body(s), radix) && SignedParse(s, radix) == if sign == 1 then v else -(v as int)
  {
    ParseDigits(v, radix);
    ParseHexPairs(v);
    SignedText(Text(v, radix), sign, radix);
  }

  lemma SignedText(t: string, sign: Sign, radix: nat)
    requires |t| >= 1 && AllDigits(t, radix) && radix <= 16
    ensures Body(SignText(sign) + t) == t && (SignText(sign) + t == t <==> sign == 1)
  {
    assert DigitOf(t[0]) < radix;
    assert ("-" + t)[1..] == t && "" + t == t && |"-" + t| != |t|;
  }
}
