/** The signed all-odd comb representation of a scalar (ecp_comb_fixed). */
module CombRecoding {
  import opened Arith
  import opened Limbs
  import opened Bits
  import opened Mpis
  import opened MpiShift
  import opened ByteStrings

  // ----- teeth

  /** The comb value of a digit: tooth j (bit j) stands for 2^(d*j). */
  function Comb(x: nat, d: nat): nat {
    if x == 0 then 0 else x % 2 + Pow2(d) * Comb(x / 2, d)
  }

  lemma CombStep(x: nat, d: nat)
    ensures Comb(x, d) == x % 2 + Pow2(d) * Comb(x / 2, d)
  {
    assert x == 0 ==> Pow2(d) * 0 == 0;
  }

  /** Per-tooth full adder: a + b = (a xor b) + 2 (a and b). */
  lemma {:induction false} CombAdd(a: nat, b: nat, d: nat)
    ensures Comb(a, d) + Comb(b, d) == Comb(Xor(a, b), d) + 2 * Comb(And(a, b), d)
    decreases a + b
  {
    if a > 0 && b > 0 {
      CombAdd(a / 2, b / 2, d);
      AndStep(a, b);
      XorStep(a, b);
      CombStep(a, d);
      CombStep(b, d);
      CombStep(Xor(a, b), d);
      CombStep(And(a, b), d);
      ToothAdd(Pow2(d), a % 2, b % 2, Comb(a / 2, d), Comb(b / 2, d), Comb(Xor(a / 2, b / 2), d),
               Comb(And(a / 2, b / 2), d));
    }
  }

  lemma ToothAdd(w: int, a: int, b: int, p: int, q: int, x: int, c: int)
    requires 0 <= a <= 1 && 0 <= b <= 1 && p + q == x + 2 * c
    ensures a + w * p + (b + w * q)
            == (if a != b then 1 else 0) + w * x + 2 * ((if a == 1 && b == 1 then 1 else 0) + w * c)
  {
    Distribute(w, p, q);
    Distribute(w, x, 2 * c);
    Rotate(2, w, c);
    Assoc(2, w, c);
  }

  /** Teeth that do not overlap add up. */
  lemma CombOr(a: nat, b: nat, d: nat)
    requires And(a, b) == 0
    ensures Comb(Or(a, b), d) == Comb(a, d) + Comb(b, d)
  {
    CombAdd(a, b, d);
    OrIsXor(a, b);
  }

  lemma {:induction false} CombMask(j: nat, d: nat)
    ensures Comb(Pow2(j), d) == Pow2(d * j)
  {
    CombStep(Pow2(j), d);
    if j == 0 {
      assert Pow2(d) * 0 == 0 && d * 0 == 0;
    } else {
      CombMask(j - 1, d);
      Pow2Step(d, j - 1);
    }
  }

  lemma Pow2Step(d: nat, j: nat)
    ensures Pow2(d * (j + 1)) == Pow2(d) * Pow2(d * j)
  {
    Plus1(j, d);
    Pow2Add(d, d * j);
  }

  /** A recoded digit: seven magnitude bits and the sign in the top bit. */
  function DigitValue(x: Byte, d: nat): int {
    if x >= 0x80 then 0 - Comb(x - 0x80, d) else Comb(x, d)
  }

  /** The number a digit string stands for. */
  function SignedSum(x: seq<Byte>, d: nat): int {
    if |x| == 0 then 0 else SignedSum(x[..|x| - 1], d) + Pow2(|x| - 1) * DigitValue(x[|x| - 1], d)
  }

  // ----- the classical comb values

  /** Column i of the scalar: bits i, i + d, i + 2d, ... on their teeth. */
  function Column(m: nat, d: nat, i: nat, w: nat): nat
    decreases w
  {
    if w == 0 then 0 else Bit(m, i) + Pow2(d) * Column(Shr(m, d), d, i, w - 1)
  }

  /** The low i bits of every row of d bits. */
  function Rows(m: nat, d: nat, i: nat, w: nat): nat
    decreases w
  {
    if w == 0 then 0 else m % Pow2(i) + Pow2(d) * Rows(Shr(m, d), d, i, w - 1)
  }

  lemma ModNextBit(y: nat, i: nat)
    ensures y % Pow2(i + 1) == y % Pow2(i) + Pow2(i) * Bit(y, i)
  {
    var p := Pow2(i);
    DivBounds(y, p);
    var q, b := (y / p) / 2, (y / p) % 2;
    assert y / p == 2 * q + b;
    assert y == (2 * p) * q + (p * b + y % p) by {
      Distribute(p, 2 * q, b);
      Assoc(p, 2, q);
    }
    MulMono(b, 1, p);
    MulMono(0, b, p);
    ModUnique(y, q, p * b + y % p, 2 * p);
  }

  lemma {:induction false} NextColumn(m: nat, d: nat, i: nat, w: nat)
    ensures Rows(m, d, i + 1, w) == Rows(m, d, i, w) + Pow2(i) * Column(m, d, i, w)
    decreases w
  {
    if w > 0 {
      var h := Shr(m, d);
      NextColumn(h, d, i, w - 1);
      ModNextBit(m, i);
      Spread(Pow2(d), Pow2(i), Rows(h, d, i, w - 1), Column(h, d, i, w - 1), Bit(m, i));
    } else {
      assert Pow2(i) * 0 == 0;
    }
  }

  lemma Spread(p: nat, q: nat, r: nat, c: nat, b: nat)
    ensures p * (r + q * c) + q * b == p * r + q * (b + p * c)
  {
    Distribute(p, r, q * c);
    Distribute(q, b, p * c);
    Rotate(q, p, c);
    Assoc(q, p, c);
  }

  lemma {:induction false} AllRows(m: nat, d: nat, w: nat)
    ensures Rows(m, d, d, w) == m % Pow2(d * w)
    decreases w
  {
    if w == 0 {
      assert d * 0 == 0 && Pow2(0) == 1;
      assert m % 1 == 0;
    } else {
      AllRows(Shr(m, d), d, w - 1);
      Pow2Step(d, w - 1);
      SplitMod(m, Pow2(d), Pow2(d * (w - 1)));
    }
  }

  lemma SplitMod(m: nat, a: nat, b: nat)
    requires a > 0 && b > 0
    ensures a * b > 0 && m % (a * b) == m % a + a * ((m / a) % b)
  {
    MulMono(1, a, b);
    var q := m / a;
    DivBounds(m, a);
    DivBounds(q, b);
    var r := m % a + a * (q % b);
    MulMono(q % b + 1, b, a);
    Plus1(q % b, a);
    assert m == (a * b) * (q / b) + r by {
      Distribute(a, (q / b) * b, q % b);
      Rotate(q / b, a, b);
      Rotate(b, a, q / b);
    }
    MulMono(0, a, q % b);
    ModUnique(m, q / b, r, a * b);
  }

  lemma {:induction false} RowsZero(m: nat, d: nat, w: nat)
    ensures Rows(m, d, 0, w) == 0
    decreases w
  {
    if w > 0 {
      RowsZero(Shr(m, d), d, w - 1);
      assert m % 1 == 0 && Pow2(d) * 0 == 0;
    }
  }

  // ----- the recoding itself

  function UnsignedSum(x: seq<Byte>, d: nat): int {
    if |x| == 0 then 0 else UnsignedSum(x[..|x| - 1], d) + Pow2(|x| - 1) * Comb(x[|x| - 1], d)
  }

  /** One more tooth of a column. */
  lemma {:induction false} ColumnSnoc(m: nat, d: nat, i: nat, w: nat)
    ensures Column(m, d, i, w + 1) == Column(m, d, i, w) + Bit(m, i + d * w) * Pow2(d * w)
    decreases w
  {
    if w == 0 {
      assert d * 0 == 0 && Pow2(0) == 1 && Pow2(d) * 0 == 0;
    } else {
      ColumnSnoc(Shr(m, d), d, i, w - 1);
      ColumnPush(m, d, i, w, d * (w - 1), d * w);
    }
  }

  lemma ColumnPush(m: nat, d: nat, i: nat, w: nat, k: nat, n: nat)
    requires w > 0 && k == d * (w - 1) && n == d * w
    requires Column(Shr(m, d), d, i, w) == Column(Shr(m, d), d, i, w - 1) + Bit(Shr(m, d), i + k) * Pow2(k)
    ensures Column(m, d, i, w + 1) == Column(m, d, i, w) + Bit(m, i + n) * Pow2(n)
  {
    assert n == k + d by {
      Plus1(w - 1, d);
    }
    Pow2Add(d, k);
    BitShift(m, d, i + k);
    PushTooth(Pow2(d), Column(Shr(m, d), d, i, w - 1), Bit(m, i + n), Pow2(k), Pow2(n));
  }

  lemma PushTooth(p: int, c: int, b: int, q: int, pq: int)
    requires pq == p * q
    ensures p * (c + b * q) == p * c + b * pq
  {
    Distribute(p, c, b * q);
    Rotate(b, p, q);
    Assoc(b, p, q);
  }

  lemma BitShift(m: nat, k: nat, i: nat)
    ensures Bit(Shr(m, k), i) == Bit(m, i + k)
  {
    DivDiv(m, Pow2(k), Pow2(i));
    Pow2Add(k, i);
  }

  /** x |= b << j on a byte whose teeth from j on are still clear. */
  method PutTooth(x: Byte, j: nat, b: nat, d: nat) returns (y: Byte)
    requires j < 7 && x < Pow2(j) && b <= 1
    ensures y < Pow2(j + 1) && Comb(y, d) == Comb(x, d) + b * Pow2(d * j)
    ensures b == 0 ==> y == x
  {
    PutToothValue(x, j, b, d);
    assert b == 0 ==> b * Pow2(j) == 0;
    assert Pow2(7) == 128;
    Pow2Mono(j + 1, 7);
    y := Or(x, b * Pow2(j));
  }

  lemma PutToothValue(x: nat, j: nat, b: nat, d: nat)
    requires x < Pow2(j) && b <= 1
    ensures Or(x, b * Pow2(j)) < Pow2(j + 1) && Comb(Or(x, b * Pow2(j)), d) == Comb(x, d) + b * Pow2(d * j)
  {
    if b == 1 {
      OrIsAdd(1, x, j, Pow2(j));
      AndDisjoint(x, 1, j, Pow2(j));
      CombOr(x, Pow2(j), d);
      CombMask(j, d);
    } else {
      assert 0 * Pow2(j) == 0 && 0 * Pow2(d * j) == 0;
    }
  }

  lemma {:induction false} AndDisjoint(low: nat, high: nat, k: nat, word: nat)
    requires low < Pow2(k) && word == high * Pow2(k)
    ensures And(low, word) == 0
    decreases k
  {
    if k > 0 {
      var q := high * Pow2(k - 1);
      assert word == 2 * q;
      AndDisjoint(low / 2, high, k - 1, q);
      AndStep(low, word);
    }
  }

  /** The classical comb value of column i: bit i + d*j goes to tooth j. */
  method FillColumn(m: Mpi, d: nat, w: nat, i: nat, ghost v: nat) returns (x: Byte)
    requires 1 <= v <= w <= 7 && Val(m.p) < Pow2(d * v)
    ensures x < Pow2(v) && Comb(x, d) == Column(Val(m.p), d, i, w)
  {
    x := 0;
    var j := 0;
    while j < w
      invariant 0 <= j <= w && WithinFirst(x, j, v)
      invariant Comb(x, d) == Column(Val(m.p), d, i, j)
    {
      x := NextTooth(m, d, i, j, x, v);
      j := j + 1;
    }
  }

  /** The j teeth filled so far, of which only the first v can be set. */
  ghost predicate WithinFirst(x: nat, j: nat, v: nat) {
    x < Pow2(j) && (j >= v ==> x < Pow2(v))
  }

  method NextTooth(m: Mpi, d: nat, i: nat, j: nat, x: Byte, ghost v: nat) returns (y: Byte)
    requires j < 7 && Val(m.p) < Pow2(d * v) && WithinFirst(x, j, v)
    requires Comb(x, d) == Column(Val(m.p), d, i, j)
    ensures WithinFirst(y, j + 1, v) && Comb(y, d) == Column(Val(m.p), d, i, j + 1)
  {
    var b := GetBit(m, i + d * j);
    ColumnSnoc(Val(m.p), d, i, j);
    if j >= v {
      EmptyTooth(Val(m.p), d, i, j, v);
    }
    y := PutTooth(x, j, b, d);
  }

  /** A scalar that fits v teeth has nothing in the teeth above. */
  lemma EmptyTooth(m: nat, d: nat, i: nat, j: nat, v: nat)
    requires m < Pow2(d * v) && v <= j
    ensures Bit(m, i + d * j) == 0
  {
    MulMono(v, j, d);
    Pow2Mono(d * v, i + d * j);
    ModUnique(m, 0, m, Pow2(i + d * j));
  }

  lemma UnsignedSnoc(x: seq<Byte>, i: nat, d: nat)
    requires i < |x|
    ensures UnsignedSum(x[..i + 1], d) == UnsignedSum(x[..i], d) + Pow2(i) * Comb(x[i], d)
  {
    assert x[..i + 1][..i] == x[..i];
  }

  lemma SignedSnoc(x: seq<Byte>, i: nat, d: nat)
    requires i < |x|
    ensures SignedSum(x[..i + 1], d) == SignedSum(x[..i], d) + Pow2(i) * DigitValue(x[i], d)
  {
    assert x[..i + 1][..i] == x[..i];
  }

  ghost predicate Small(x: seq<Byte>, w: nat) {
    forall i :: 0 <= i < |x| ==> x[i] < Pow2(w)
  }

  /** First part: the classical comb values, x[d] staying zero. */
  method FillColumns(x: array<Byte>, d: nat, w: nat, m: Mpi, ghost teeth: nat)
    requires x.Length == d + 1 && 1 <= teeth <= w <= 7 && Val(m.p) < Pow2(d * teeth)
    modifies x
    ensures Small(x[..], teeth)
    ensures x[d] == 0 && UnsignedSum(x[..d], d) == Rows(Val(m.p), d, d, w)
    ensures d > 0 ==> Comb(x[0], d) == Column(Val(m.p), d, 0, w)
  {
    x[d] := 0;
    ghost var v := Val(m.p);
    RowsZero(v, d, w);
    assert x[..0] == [];
    var i := 0;
    while i < d
      invariant 0 <= i <= d && x[d] == 0
      invariant Small(x[..i], teeth)
      invariant UnsignedSum(x[..i], d) == Rows(v, d, i, w)
      invariant i > 0 ==> Comb(x[0], d) == Column(v, d, 0, w)
    {
      var y := FillColumn(m, d, w, i, teeth);
      ghost var before := x[..i];
      x[i] := y;
      assert x[..i] == before;
      UnsignedSnoc(x[..], i, d);
      assert x[..][..i + 1] == x[..i + 1] && x[..][..i] == x[..i];
      NextColumn(v, d, i, w);
      i := i + 1;
    }
    SmallZero(x[..], d, teeth);
  }

  lemma SmallZero(x: seq<Byte>, d: nat, w: nat)
    requires |x| == d + 1 && Small(x[..d], w) && x[d] == 0
    ensures Small(x, w)
  {
    forall i | 0 <= i < |x|
      ensures x[i] < Pow2(w)
    {
      if i < d {
        assert x[i] == x[..d][i];
      }
    }
  }

  /** Tooth 0 of column 0 is the scalar's lowest bit. */
  lemma FirstTooth(x: nat, m: nat, d: nat, w: nat)
    requires d > 0 && w >= 1 && Comb(x, d) == Column(m, d, 0, w)
    ensures x % 2 == m % 2
  {
    var u, v := Comb(x / 2, d), Column(Shr(m, d), d, 0, w - 1);
    CombStep(x, d);
    assert Bit(m, 0) == m % 2;
    SameParity(x % 2, m % 2, Pow2(d), Pow2(d - 1), u, v);
  }

  lemma SameParity(a: int, b: int, p: int, h: int, u: int, v: int)
    requires 0 <= a <= 1 && 0 <= b <= 1 && p == 2 * h && a + p * u == b + p * v
    ensures a == b
  {
    assert p * u == 2 * (h * u) && p * v == 2 * (h * v);
  }

  // ----- one recoding step on bits

  /** The carry of the first half adder never meets the carry of the second. */
  lemma {:induction false} CarriesDisjoint(xi: nat, c: nat, t: nat)
    ensures And(And(xi, c), And(Xor(xi, c), t)) == 0
    decreases xi + c + t
  {
    if xi > 0 && c > 0 && t > 0 {
      CarriesDisjoint(xi / 2, c / 2, t / 2);
      AndStep(xi, c);
      XorStep(xi, c);
      AndStep(Xor(xi, c), t);
      AndStep(And(xi, c), And(Xor(xi, c), t));
    }
  }

  /** A carry and the digit it leaves behind never overlap, if the old carry did not meet t. */
  lemma {:induction false} CarryAvoidsDigit(xi: nat, c: nat, t: nat)
    requires And(c, t) == 0
    ensures And(Or(And(xi, c), And(Xor(xi, c), t)), Xor(Xor(xi, c), t)) == 0
    decreases xi + c + t
  {
    if xi + c + t > 0 {
      AndStep(c, t);
      CarryAvoidsDigit(xi / 2, c / 2, t / 2);
      AndStep(xi, c);
      XorStep(xi, c);
      AndStep(Xor(xi, c), t);
      XorStep(Xor(xi, c), t);
      OrStep(And(xi, c), And(Xor(xi, c), t));
      AndStep(Or(And(xi, c), And(Xor(xi, c), t)), Xor(Xor(xi, c), t));
    }
  }

  /** In numbers: full adder for the carry, full adder for the digit moved up from the column before. */
  lemma RecodeValue(xi: nat, c: nat, t: nat, d: nat)
    ensures Comb(Xor(Xor(xi, c), t), d) + 2 * Comb(Or(And(xi, c), And(Xor(xi, c), t)), d)
            == Comb(xi, d) + Comb(c, d) + Comb(t, d)
  {
    CombAdd(xi, c, d);
    CombAdd(Xor(xi, c), t, d);
    CarriesDisjoint(xi, c, t);
    CombOr(And(xi, c), And(Xor(xi, c), t), d);
  }

  lemma LowBit(x: nat)
    ensures And(x, 1) == x % 2
  {
    AndMask(x, 1);
  }

  lemma SevenBits(x: nat)
    ensures And(x, 0x7F) == x % 0x80
  {
    assert Pow2(7) == 0x80;
    AndMask(x, 7);
  }

  lemma SetFlag(x: nat)
    requires x < 0x80
    ensures Or(x, 0x80) == x + 0x80 && Or(x, 0) == x
  {
    assert Pow2(7) == 0x80;
    OrIsAdd(1, x, 7, 0x80);
  }

  /** A digit below 2^7 reads as itself, and flagged as its negative. */
  lemma PlainDigit(x: Byte, d: nat)
    requires x < 0x80
    ensures DigitValue(x, d) == Comb(x, d) && DigitValue(x + 0x80, d) == 0 - Comb(x, d)
  {
  }

  /** State of the recoding before column i: x[..i] holds finished digits except for the sign of x[i-1]. */
  ghost predicate Recoded(x: seq<Byte>, x0: seq<Byte>, c: nat, i: nat, d: nat, w: nat) {
    && 1 <= i <= |x| && |x| == |x0| && 1 <= w <= 7
    && c < Pow2(w) && x[i - 1] < Pow2(w) && And(c, x[i - 1]) == 0
    && x[i..] == x0[i..] && AllGood(x[..i], w) && Balanced(x, x0, c, i, d)
  }

  /** An odd digit of w teeth, signed or not. */
  predicate GoodDigit(x: Byte, w: nat) {
    x % 2 == 1 && (if x >= 0x80 then x - 0x80 else x) < Pow2(w)
  }

  /** The signed digits so far plus the pending carry make the classical value of the same columns. */
  ghost predicate Balanced(x: seq<Byte>, x0: seq<Byte>, c: nat, i: nat, d: nat)
    requires i <= |x| == |x0|
  {
    SignedSum(x[..i], d) + Pow2(i) * Comb(c, d) == UnsignedSum(x0[..i], d)
  }

  predicate AllGood(x: seq<Byte>, w: nat) {
    forall k :: 0 <= k < |x| ==> GoodDigit(x[k], w)
  }

  lemma SumStep(p: int, p1: int, p2: int, dp: int, dz: int, h: int, dy: int, kc': int, ki: int, kc: int)
    requires p1 == 2 * p && p2 == 2 * p1 && dy + 2 * kc' == ki + kc + h && dp - dz == 2 * h
    ensures p1 * dy + p2 * kc' + p * dz == p * dp + p1 * ki + p1 * kc
  {
    assert p2 * kc' == p1 * (2 * kc');
    Distribute(p1, dy, 2 * kc');
    assert p1 * (ki + kc + h) == p1 * ki + p1 * kc + p1 * h;
    assert p1 * h == p * (2 * h);
    Distribute(p, dz, 2 * h);
  }

  lemma RecodeSums(x: seq<Byte>, x0: seq<Byte>, c: nat, i: nat, d: nat, y: Byte, c': nat, flip: bool, x': seq<Byte>)
    requires 1 <= i < |x| && |x| == |x0| && x[i] == x0[i] && y < 0x80 && x[i - 1] < 0x80
    requires Balanced(x, x0, c, i, d)
    requires x' == x[i := y][i - 1 := if flip then x[i - 1] + 0x80 else x[i - 1]]
    requires Comb(y, d) + 2 * Comb(c', d) == Comb(x[i], d) + Comb(c, d) + if flip then Comb(x[i - 1], d) else 0
    ensures Balanced(x', x0, c', i + 1, d)
  {
    var xp, z := x[i - 1], x'[i - 1];
    assert x'[i] == y && z == (if flip then xp + 0x80 else xp) && forall k :: 0 <= k < i - 1 ==> x'[k] == x[k];
    UnsignedSnoc(x0, i, d);
    LastDigits(x, x', i, d);
    RecodeTerms(xp, z, flip, x[i], y, c, c', i, d);
  }

  lemma RecodeTerms(xp: Byte, z: Byte, flip: bool, xi: Byte, y: Byte, c: nat, c': nat, i: nat, d: nat)
    requires i >= 1 && y < 0x80 && xp < 0x80 && z == if flip then xp + 0x80 else xp
    requires Comb(y, d) + 2 * Comb(c', d) == Comb(xi, d) + Comb(c, d) + if flip then Comb(xp, d) else 0
    ensures Pow2(i) * DigitValue(y, d) + Pow2(i + 1) * Comb(c', d) + Pow2(i - 1) * DigitValue(z, d)
            == Pow2(i - 1) * DigitValue(xp, d) + Pow2(i) * Comb(xi, d) + Pow2(i) * Comb(c, d)
  {
    PlainDigit(y, d);
    PlainDigit(xp, d);
    var h := if flip then Comb(xp, d) else 0;
    SumStep(Pow2(i - 1), Pow2(i), Pow2(i + 1), DigitValue(xp, d), DigitValue(z, d), h,
            DigitValue(y, d), Comb(c', d), Comb(xi, d), Comb(c, d));
  }

  lemma LastDigits(x: seq<Byte>, x': seq<Byte>, i: nat, d: nat)
    requires 1 <= i < |x| && |x'| == |x| && forall k :: 0 <= k < i - 1 ==> x'[k] == x[k]
    ensures SignedSum(x'[..i + 1], d) + Pow2(i - 1) * DigitValue(x[i - 1], d)
            == SignedSum(x[..i], d) + Pow2(i - 1) * DigitValue(x'[i - 1], d) + Pow2(i) * DigitValue(x'[i], d)
  {
    assert x'[..i - 1] == x[..i - 1];
    SignedSnoc(x', i, d);
    SignedSnoc(x', i - 1, d);
    SignedSnoc(x, i - 1, d);
  }

  /** The bytes after one step: odd digit, carry apart from it, both within the teeth. */
  lemma RecodeBits(xi: nat, c: nat, xp: nat, t: nat, w: nat)
    requires 1 <= w <= 7 && xi < Pow2(w) && c < Pow2(w) && xp < Pow2(w) && And(c, xp) == 0 && xp % 2 == 1
    requires t == if Xor(xi, c) % 2 == 0 then xp else 0
    ensures Xor(xi, c) < Pow2(w) && And(xi, c) < Pow2(w)
    ensures Xor(Xor(xi, c), t) % 2 == 1 && Xor(Xor(xi, c), t) < Pow2(w)
    ensures Or(And(xi, c), And(Xor(xi, c), t)) < Pow2(w)
    ensures And(Or(And(xi, c), And(Xor(xi, c), t)), Xor(Xor(xi, c), t)) == 0
  {
    XorStep(Xor(xi, c), t);
    assert And(c, 0) == 0;
    CarryAvoidsDigit(xi, c, t);
    RecodeBounds(xi, c, t, w);
  }

  lemma RecodeBounds(xi: nat, c: nat, t: nat, w: nat)
    requires xi < Pow2(w) && c < Pow2(w) && t < Pow2(w)
    ensures Xor(xi, c) < Pow2(w) && And(xi, c) < Pow2(w)
    ensures Xor(Xor(xi, c), t) < Pow2(w) && Or(And(xi, c), And(Xor(xi, c), t)) < Pow2(w)
  {
    BitsBound(xi, c, w);
    BitsBound(Xor(xi, c), t, w);
    BitsBound(And(xi, c), And(Xor(xi, c), t), w);
  }

  /** The byte arithmetic of one column: digit y, flagged predecessor z and carry c'. */
  method RecodeByte(xi: Byte, c: Byte, xp: Byte, d: nat, ghost w: nat)
    returns (y: Byte, z: Byte, c': Byte, ghost flip: bool)
    requires 1 <= w <= 7 && xi < Pow2(w) && c < Pow2(w) && xp < Pow2(w) && And(c, xp) == 0 && xp % 2 == 1
    ensures xp < 0x80 && y < 0x80 && y < Pow2(w) && y % 2 == 1 && c' < Pow2(w) && And(c', y) == 0
    ensures z == if flip then xp + 0x80 else xp
    ensures Comb(y, d) + 2 * Comb(c', d) == Comb(xi, d) + Comb(c, d) + if flip then Comb(xp, d) else 0
    ensures xi == 0 ==> c' == 0
  {
    WithinTeeth(w);
    SetFlag(xp);
    ghost var t := if Xor(xi, c) % 2 == 0 then xp else 0;
    RecodeBits(xi, c, xp, t, w);
    RecodeValue(xi, c, t, d);
    var cc := And(xi, c);
    var x1 := Xor(xi, c);
    LowBit(x1);
    var adjust := 1 - And(x1, 0x01);
    assert xp * adjust == t by {
      assert adjust == if x1 % 2 == 0 then 1 else 0;
    }
    flip := adjust == 1;
    c' := Or(cc, And(x1, xp * adjust));
    y := Xor(x1, xp * adjust);
    z := Or(xp, adjust * 0x80);
  }

  lemma WithinTeeth(w: nat)
    requires w <= 7
    ensures Pow2(w) <= 0x80
  {
    assert Pow2(7) == 0x80;
    Pow2Mono(w, 7);
  }

  // ----- what the accumulator of the multiplication will hold on the way

  /** Digits from i on, weighted from i on. */
  function HighSum(x: seq<Byte>, i: nat, d: nat): int
    requires i <= |x|
    decreases |x| - i
  {
    if i == |x| then 0 else DigitValue(x[i], d) + 2 * HighSum(x, i + 1, d)
  }

  lemma {:induction false} HornerSum(x: seq<Byte>, i: nat, d: nat)
    requires i <= |x|
    ensures SignedSum(x[..i], d) + Pow2(i) * HighSum(x, i, d) == SignedSum(x, d)
    decreases |x| - i
  {
    if i == |x| {
      assert x[..i] == x && Pow2(i) * 0 == 0;
    } else {
      HornerSum(x, i + 1, d);
      SignedSnoc(x, i, d);
      HornerTerm(Pow2(i), DigitValue(x[i], d), HighSum(x, i + 1, d));
    }
  }

  lemma HornerTerm(p: int, v: int, h: int)
    ensures p * v + (2 * p) * h == p * (v + 2 * h)
  {
    Distribute(p, v, 2 * h);
  }

  /** The digits below k leave between 0 and 2^k m of the scalar m to the digits from k on. */
  ghost predicate Near(x: seq<Byte>, k: nat, d: nat, m: nat)
    requires k <= |x|
  {
    SignedSum(x[..k], d) <= m <= SignedSum(x[..k], d) + Pow2(k) * m
  }

  /** Every finished cut is near m, and carry and last digit together do not exceed the columns read so far. */
  ghost predicate Heads(x: seq<Byte>, x0: seq<Byte>, c: nat, i: nat, d: nat, m: nat) {
    && 1 <= i <= |x| && |x| == |x0|
    && Comb(c, d) + Comb(x[i - 1], d) <= UnsignedSum(x0[..i], d)
    && forall k :: 0 <= k < i ==> Near(x, k, d, m)
  }

  lemma NearStep(u: int, p: int, k: int, m: int, s: int)
    requires 0 <= k <= u <= m && p >= 1 && s == u - p * k
    ensures s <= m <= s + p * m
  {
    MulMono(0, k, p);
    MulMono(k, u, p);
    MulMono(u, m, p - 1);
    assert p * m == (p - 1) * m + m && p * u == (p - 1) * u + u;
  }

  /** Column i fixes the sign of digit i - 1, and the cut at i is near m. */
  lemma HeadsNext(x: seq<Byte>, x0: seq<Byte>, c: nat, i: nat, d: nat, m: nat, y: Byte, c': nat, flip: bool,
                  x': seq<Byte>)
    requires 1 <= i < |x| && |x| == |x0| == |x'| && x[i - 1] < 0x80
    requires Balanced(x, x0, c, i, d) && Heads(x, x0, c, i, d, m) && UnsignedSum(x0[..i], d) <= m
    requires x'[..i - 1] == x[..i - 1] && x'[i - 1] == (if flip then x[i - 1] + 0x80 else x[i - 1]) && x'[i] == y
    requires Comb(y, d) + 2 * Comb(c', d) == Comb(x0[i], d) + Comb(c, d) + if flip then Comb(x[i - 1], d) else 0
    ensures Heads(x', x0, c', i + 1, d, m)
  {
    HeadsSum(x0, i, d, Comb(c, d), Comb(x[i - 1], d), Comb(y, d), Comb(c', d), flip);
    NearFlip(x, x0, c, i, d, m, flip, x');
    CutsKept(x, x', i, d, m);
  }

  lemma CutsKept(x: seq<Byte>, x': seq<Byte>, i: nat, d: nat, m: nat)
    requires 1 <= i <= |x| == |x'| && x'[..i - 1] == x[..i - 1] && forall k :: 0 <= k < i ==> Near(x, k, d, m)
    ensures forall k :: 0 <= k < i ==> Near(x', k, d, m)
  {
    forall k | 0 <= k < i
      ensures Near(x', k, d, m)
    {
      assert x'[..k] == x'[..i - 1][..k] && x[..k] == x[..i - 1][..k];
      assert Near(x, k, d, m);
    }
  }

  lemma HeadsSum(x0: seq<Byte>, i: nat, d: nat, c: int, p: int, y: int, c': int, flip: bool)
    requires i < |x0| && c + p <= UnsignedSum(x0[..i], d) && p >= 0 && c' >= 0
    requires y + 2 * c' == Comb(x0[i], d) + c + if flip then p else 0
    ensures c' + y <= UnsignedSum(x0[..i + 1], d)
  {
    UnsignedSnoc(x0, i, d);
    MulMono(1, Pow2(i), Comb(x0[i], d));
  }

  lemma NearFlip(x: seq<Byte>, x0: seq<Byte>, c: nat, i: nat, d: nat, m: nat, flip: bool, x': seq<Byte>)
    requires 1 <= i < |x| && |x| == |x0| == |x'| && x[i - 1] < 0x80
    requires Balanced(x, x0, c, i, d) && Comb(c, d) + Comb(x[i - 1], d) <= UnsignedSum(x0[..i], d) <= m
    requires x'[..i - 1] == x[..i - 1] && x'[i - 1] == if flip then x[i - 1] + 0x80 else x[i - 1]
    ensures Near(x', i, d, m)
  {
    var xp := x[i - 1];
    var h := if flip then Comb(xp, d) else 0;
    SignedSnoc(x, i - 1, d);
    SignedSnoc(x', i - 1, d);
    PlainDigit(xp, d);
    FlipTerm(Pow2(i - 1), DigitValue(xp, d), DigitValue(x'[i - 1], d), h, Comb(c, d));
    NearStep(UnsignedSum(x0[..i], d), Pow2(i), Comb(c, d) + h, m, SignedSum(x'[..i], d));
  }

  lemma FlipTerm(q: int, v: int, v': int, h: int, c: int)
    requires v - v' == 2 * h
    ensures q * v - q * v' + (2 * q) * c == (2 * q) * (c + h)
  {
    Distribute(q, v', 2 * h);
    Distribute(2 * q, c, h);
    Assoc(q, 2, h);
  }

  lemma {:induction false} UnsignedMono(x: seq<Byte>, i: nat, j: nat, d: nat)
    requires i <= j <= |x|
    ensures 0 <= UnsignedSum(x[..i], d) <= UnsignedSum(x[..j], d)
    decreases j
  {
    if i < j {
      UnsignedMono(x, i, j - 1, d);
      UnsignedSnoc(x, j - 1, d);
      MulMono(0, Pow2(j - 1), Comb(x[j - 1], d));
    } else if i > 0 {
      UnsignedMono(x, i - 1, i - 1, d);
      UnsignedSnoc(x, i - 1, d);
      MulMono(0, Pow2(i - 1), Comb(x[i - 1], d));
    }
  }

  lemma OddDigitValue(x: Byte, w: nat, d: nat)
    requires GoodDigit(x, w) && d > 0
    ensures DigitValue(x, d) % 2 == 1
  {
    var a := if x >= 0x80 then x - 0x80 else x;
    CombStep(a, d);
    var q := Pow2(d - 1) * Comb(a / 2, d);
    Assoc(2, Pow2(d - 1), Comb(a / 2, d));
    assert a % 2 == 1 && Comb(a, d) == 2 * q + 1;
    if x >= 0x80 {
      ModUnique(-(2 * q + 1), -q - 1, 1, 2);
    } else {
      ModUnique(2 * q + 1, q, 1, 2);
    }
  }

  /** The digits from k on make an odd number between 1 and the scalar. */
  lemma HighSumInRange(x: seq<Byte>, k: nat, d: nat, w: nat, m: nat)
    requires k < |x| && d > 0 && AllGood(x, w) && SignedSum(x, d) == m && Near(x, k, d, m)
    ensures 1 <= HighSum(x, k, d) <= m
  {
    HornerSum(x, k, d);
    Squeeze(Pow2(k), HighSum(x, k, d), m);
    HighSumOdd(x, k, d, w);
  }

  lemma Squeeze(p: int, h: int, m: int)
    requires p >= 1 && 0 <= p * h <= p * m
    ensures 0 <= h <= m
  {
    if h < 0 {
      MulMono(h, -1, p);
    }
    if h > m {
      MulMono(m + 1, h, p);
      Plus1(m, p);
    }
  }

  lemma HighSumOdd(x: seq<Byte>, k: nat, d: nat, w: nat)
    requires k < |x| && d > 0 && AllGood(x, w)
    ensures HighSum(x, k, d) % 2 == 1
  {
    assert GoodDigit(x[k], w);
    OddDigitValue(x[k], w, d);
  }

  // ----- the second loop

  /** One column of the second loop. */
  method RecodeColumn(x: array<Byte>, c: Byte, i: nat, ghost x0: seq<Byte>, d: nat, ghost w: nat, ghost m: nat)
      returns (c': Byte)
    requires Recoded(x[..], x0, c, i, d, w) && i < x.Length && x0[i] < Pow2(w)
    requires Heads(x[..], x0, c, i, d, m) && UnsignedSum(x0[..i], d) <= m
    modifies x
    ensures Recoded(x[..], x0, c', i + 1, d, w) && Heads(x[..], x0, c', i + 1, d, m)
    ensures x0[i] == 0 ==> c' == 0
  {
    ghost var s: seq<Byte> := x[..];
    LastTwo(s, x0, c, i, d, w);
    var y, z;
    ghost var flip;
    y, z, c', flip := RecodeByte(x[i], c, x[i - 1], d, w);
    x[i] := y;
    x[i - 1] := z;
    RecodeSums(s, x0, c, i, d, y, c', flip, x[..]);
    RecodeDigits(s, x0, i, w, y, z, x[..]);
    assert x[..][..i - 1] == s[..i - 1];
    HeadsNext(s, x0, c, i, d, m, y, c', flip, x[..]);
  }

  lemma LastTwo(x: seq<Byte>, x0: seq<Byte>, c: nat, i: nat, d: nat, w: nat)
    requires Recoded(x, x0, c, i, d, w) && i < |x|
    ensures GoodDigit(x[i - 1], w) && x[i] == x0[i]
  {
    assert x[i - 1] == x[..i][i - 1] && x[i] == x[i..][0] && x0[i] == x0[i..][0];
  }

  /** Flagging the sign leaves an odd digit odd and within its teeth. */
  lemma FlaggedDigit(xp: Byte, z: Byte, w: nat)
    requires xp < 0x80 && GoodDigit(xp, w) && (z == xp || z == xp + 0x80)
    ensures GoodDigit(z, w)
  {
  }

  lemma RecodeDigits(x: seq<Byte>, x0: seq<Byte>, i: nat, w: nat, y: Byte, z: Byte, x': seq<Byte>)
    requires 1 <= i < |x| && |x| == |x0| && x[i..] == x0[i..] && AllGood(x[..i], w)
    requires x' == x[i := y][i - 1 := z] && x[i - 1] < 0x80 && (z == x[i - 1] || z == x[i - 1] + 0x80)
    requires y < 0x80 && y < Pow2(w) && y % 2 == 1
    ensures AllGood(x'[..i + 1], w) && x'[i + 1..] == x0[i + 1..]
  {
    assert x[i - 1] == x[..i][i - 1];
    FlaggedDigit(x[i - 1], z, w);
    assert x'[..i + 1] == x[..i][..i - 1] + [z, y];
    assert x'[i + 1..] == x[i..][1..] && x0[i + 1..] == x0[i..][1..];
  }

  /**
   Recodes an odd scalar of at most w*d bits into d + 1 digits, all odd, whose signed comb sum is exactly the
   scalar.  No digit has more teeth than the scalar needs, and the digits from any k on make a number between
   1 and the scalar.
   */
  method CombFixed(x: array<Byte>, d: nat, w: nat, m: Mpi, ghost teeth: nat)
    requires x.Length == d + 1 && 2 <= w <= 7 && 1 <= teeth <= w
    requires Val(m.p) % 2 == 1 && Val(m.p) < Pow2(d * teeth)
    modifies x
    ensures SignedSum(x[..], d) == Val(m.p)
    ensures AllGood(x[..], teeth)
    ensures forall k :: 0 <= k <= d ==> 1 <= HighSum(x[..], k, d) <= Val(m.p)
  {
    ghost var v := Val(m.p);
    PositiveTeeth(v, d, teeth);
    FillColumns(x, d, w, m, teeth);
    MulMono(teeth, w, d);
    Pow2Mono(d * teeth, d * w);
    AllRows(v, d, w);
    ModUnique(v, 0, v, Pow2(d * w));
    FirstTooth(x[0], v, d, w);
    ghost var x0 := x[..];
    RecodedStart(x0, d, teeth);
    HeadsStart(x0, d, v);
    var c: Byte, i := 0, 1;
    while i <= d
      invariant 1 <= i <= d + 1 && Recoded(x[..], x0, c, i, d, teeth) && Heads(x[..], x0, c, i, d, v)
      invariant i == d + 1 ==> c == 0
    {
      UnsignedMono(x0, i, d, d);
      c := RecodeColumn(x, c, i, x0, d, teeth, v);
      i := i + 1;
    }
    RecodedEnd(x[..], x0, d, teeth);
    AllHighSums(x[..], x0, c, d, teeth, v);
  }

  lemma HeadsStart(x0: seq<Byte>, d: nat, m: nat)
    requires |x0| >= 1
    ensures Heads(x0, x0, 0, 1, d, m)
  {
    UnsignedSnoc(x0, 0, d);
    assert x0[..0] == [];
    assert SignedSum([], d) == 0 && UnsignedSum([], d) == 0 && Pow2(0) == 1;
  }

  lemma AllHighSums(x: seq<Byte>, x0: seq<Byte>, c: nat, d: nat, w: nat, m: nat)
    requires d > 0 && |x| == d + 1 && AllGood(x, w) && SignedSum(x, d) == m && Heads(x, x0, c, d + 1, d, m)
    ensures forall k :: 0 <= k <= d ==> 1 <= HighSum(x, k, d) <= m
  {
    forall k | 0 <= k <= d
      ensures 1 <= HighSum(x, k, d) <= m
    {
      assert Near(x, k, d, m);
      HighSumInRange(x, k, d, w, m);
    }
  }

  lemma PositiveTeeth(v: nat, d: nat, w: nat)
    requires v % 2 == 1 && v < Pow2(d * w)
    ensures d > 0
  {
    assert d == 0 ==> d * w == 0;
  }

  lemma RecodedStart(x0: seq<Byte>, d: nat, w: nat)
    requires 1 <= w <= 7 && |x0| >= 1 && Small(x0, w) && x0[0] % 2 == 1
    ensures Recoded(x0, x0, 0, 1, d, w)
  {
    assert Pow2(7) == 0x80;
    Pow2Mono(w, 7);
    PlainDigit(x0[0], d);
    SignedSnoc(x0, 0, d);
    UnsignedSnoc(x0, 0, d);
    assert x0[..0] == [];
    assert Pow2(1) * 0 == 0;
  }

  lemma RecodedEnd(x: seq<Byte>, x0: seq<Byte>, d: nat, w: nat)
    requires |x| == d + 1 && Recoded(x, x0, 0, d + 1, d, w) && x0[d] == 0
    ensures SignedSum(x, d) == UnsignedSum(x0[..d], d) && AllGood(x, w)
  {
    UnsignedSnoc(x0, d, d);
    assert Pow2(d + 1) * 0 == 0 && Pow2(d) * 0 == 0;
    assert x[..d + 1] == x;
  }
}
