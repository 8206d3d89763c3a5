/**
 The column engine behind the quasi-reductions modulo p224, p256 and p384.

 Each reduction is a little program of ADD, SUB, NEXT and LAST steps over the 32-bit words of N.  The
 programs are data here, one engine runs them in place, and what a program computes is the linear
 form `Sum` of the words it started from.
 */
module NistReduction {
  import opened Arith
  import opened Limbs
  import opened Chunks
  import opened Mpis

  datatype Column = End | Add(j: nat, more: Column) | Sub(j: nat, more: Column)

  /** One column per 32-bit word of p: NEXT between columns, LAST after the final one. */
  type Program = seq<Column>

  function At(a: seq<Word>, j: nat): int {
    if j < |a| then a[j] else 0
  }

  /** What a column adds to its word. */
  function ColumnSum(a: seq<Word>, col: Column): int
    decreases col
  {
    match col
    case End => 0
    case Add(j, more) => At(a, j) + ColumnSum(a, more)
    case Sub(j, more) => ColumnSum(a, more) - At(a, j)
  }

  /** The columns from i on, weighted from column i on. */
  function Sum(a: seq<Word>, prog: Program, i: nat): int
    requires i <= |prog|
    decreases |prog| - i
  {
    if i == |prog| then 0 else At(a, i) + ColumnSum(a, prog[i]) + W * Sum(a, prog, i + 1)
  }

  /** At most 100 steps keep the carry within a signed char. */
  const MAX_STEPS: nat := 100

  /** A column reads only words in [w, n), never one that is written, in at most the given number of steps. */
  predicate Good(col: Column, w: nat, n: nat, steps: nat) {
    match col
    case End => true
    case Add(j, more) => w <= j < n && steps > 0 && Good(more, w, n, steps - 1)
    case Sub(j, more) => w <= j < n && steps > 0 && Good(more, w, n, steps - 1)
  }

  predicate Legal(prog: Program, n: nat) {
    |prog| < n && forall i :: 0 <= i < |prog| ==> Good(prog[i], |prog|, n, MAX_STEPS)
  }

  // ----- steps on one word

  method Add32(dst: Word, src: Word, c: int) returns (d: Word, c': int)
    ensures d + W * c' == dst + src + W * c && c <= c' <= c + 1
  {
    d := (dst + src) % W;
    c' := if d < src then c + 1 else c;
  }

  method Sub32(dst: Word, src: Word, c: int) returns (d: Word, c': int)
    ensures d + W * c' == dst - src + W * c && c - 1 <= c' <= c
  {
    c' := if dst < src then c - 1 else c;
    d := (dst - src) % W;
  }

  lemma {:induction false} ColumnSame(a: seq<Word>, b: seq<Word>, w: nat, col: Column, steps: nat)
    requires |a| == |b| && Good(col, w, |a|, steps) && forall k :: w <= k < |a| ==> a[k] == b[k]
    ensures ColumnSum(a, col) == ColumnSum(b, col)
    decreases col
  {
    if !col.End? {
      ColumnSame(a, b, w, col.more, steps - 1);
    }
  }

  /** The ADD and SUB steps of one column on the loaded word; the signed carry stays a signed char. */
  method RunColumn(N: Mpi, cur0: Word, c0: int, col: Column, ghost w: nat) returns (cur: Word, c: int)
    requires Good(col, w, 2 * |N.p|, MAX_STEPS) && -1 <= c0 <= 1
    ensures cur + W * c == cur0 + W * c0 + ColumnSum(Words(N.p), col)
    ensures -128 < c < 128
  {
    cur, c := cur0, c0;
    var rest := col;
    ghost var left: nat := MAX_STEPS;
    while !rest.End?
      invariant left <= MAX_STEPS && Good(rest, w, 2 * |N.p|, left)
      invariant left - MAX_STEPS - 1 <= c <= 1 + MAX_STEPS - left
      invariant cur + W * c + ColumnSum(Words(N.p), rest) == cur0 + W * c0 + ColumnSum(Words(N.p), col)
      decreases rest
    {
      left := left - 1;
      match rest
      case Add(j, more) =>
        cur, c := Add32(cur, Half(N.p, j), c);
        rest := more;
      case Sub(j, more) =>
        cur, c := Sub32(cur, Half(N.p, j), c);
        rest := more;
    }
  }

  /** LOAD32 of the next word and the carry of the column before it. */
  method LoadWithCarry(N: Mpi, i: nat, cc: int) returns (cur: Word, c: int)
    requires i < 2 * |N.p| && -128 < cc < 128
    ensures cur + W * c == Half(N.p, i) + cc && -1 <= c <= 1
  {
    cur := Half(N.p, i);
    if cc < 0 {
      cur, c := Sub32(cur, -cc, 0);
    } else {
      cur, c := Add32(cur, cc, 0);
    }
  }

  method Store32(N: Mpi, i: nat, cur: Word)
    requires i < 2 * |N.p|
    modifies N`p
    ensures |N.p| == old(|N.p|) && Words(N.p) == old(Words(N.p))[i := cur]
  {
    WordsStore(N.p, i, cur);
    N.p := StoreHalf(N.p, i, cur);
  }

  // ----- the whole program

  lemma StepSum(v: int, p: int, c: int, s: int, t: int, cur: int, c': int)
    requires cur + W * c' == c + s
    ensures v + p * (c + (s + W * t)) == (v + p * cur) + (W * p) * (c' + t)
  {
    assert c + (s + W * t) == cur + W * (c' + t);
    Distribute(p, cur, W * (c' + t));
    Rotate(W, p, c' + t);
  }

  lemma ValFromSnoc(x: seq<Word>, i: nat)
    requires i < |x|
    ensures ValFrom(x, 0, i + 1) == ValFrom(x, 0, i) + Pow32(i) * x[i]
  {
    ValFromSplit(x, 0, i, i + 1);
    assert ValFrom(x, i, i + 1) == x[i] + W * ValFrom(x, i + 1, i + 1);
  }

  /** Words of x from i on are still those of a. */
  ghost predicate Rest(x: seq<Word>, a: seq<Word>, i: nat) {
    |x| == |a| && forall k :: i <= k < |a| ==> x[k] == a[k]
  }

  lemma RestStore(x: seq<Word>, a: seq<Word>, i: nat, cur: Word, x': seq<Word>)
    requires Rest(x, a, i) && i < |x| && x' == x[i := cur]
    ensures Rest(x', a, i + 1) && ValFrom(x', 0, i + 1) == ValFrom(x, 0, i) + Pow32(i) * cur
  {
    ValFromSnoc(x', i);
    ValFromSame(x, x', 0, i);
  }

  /** One column: load with carry, the steps, store. */
  method ColumnStep(N: Mpi, i: nat, c: int, col: Column, ghost a: seq<Word>, ghost w: nat)
    returns (c': int, ghost cur': Word)
    requires Rest(Words(N.p), a, i) && i < w <= |a| && Good(col, w, |a|, MAX_STEPS)
    requires -128 < c < 128
    modifies N`p
    ensures |N.p| == old(|N.p|) && Rest(Words(N.p), a, i + 1) && -128 < c' < 128
    ensures cur' + W * c' == c + (a[i] + ColumnSum(a, col))
    ensures ValFrom(Words(N.p), 0, i + 1) == ValFrom(old(Words(N.p)), 0, i) + Pow32(i) * cur'
  {
    ghost var x := Words(N.p);
    var cur, c1 := LoadWithCarry(N, i, c);
    cur, c' := RunColumn(N, cur, c1, col, w);
    cur' := cur;
    ColumnSame(x, a, w, col, MAX_STEPS);
    Store32(N, i, cur);
    RestStore(x, a, i, cur, Words(N.p));
  }

  ghost function Weighted(v: int, i: nat, h: int): int {
    v + Pow32(i) * h
  }

  lemma Advance(v: int, i: nat, c: int, s: int, t: int, cur: int, c': int, v': int)
    requires cur + W * c' == c + s && v' == v + Pow32(i) * cur
    ensures Weighted(v, i, c + (s + W * t)) == Weighted(v', i + 1, c' + t)
  {
    StepSum(v, Pow32(i), c, s, t, cur, c');
  }

  /** Between columns: stored words, pending carry and remaining columns add up to the total. */
  ghost predicate Running(x: seq<Word>, a: seq<Word>, prog: Program, i: nat, c: int) {
    && Rest(x, a, i) && i <= |prog| && Legal(prog, |a|) && -128 < c < 128
    && Weighted(ValFrom(x, 0, i), i, c + Sum(a, prog, i)) == Sum(a, prog, 0)
  }

  method NextColumn(N: Mpi, prog: Program, i: nat, c: int, ghost a: seq<Word>) returns (c': int)
    requires Running(Words(N.p), a, prog, i, c) && i < |prog|
    modifies N`p
    ensures |N.p| == old(|N.p|) && Running(Words(N.p), a, prog, i + 1, c')
  {
    ghost var v := ValFrom(Words(N.p), 0, i);
    ghost var cur;
    assert Good(prog[i], |prog|, |a|, MAX_STEPS);
    c', cur := ColumnStep(N, i, c, prog[i], a, |prog|);
    Advance(v, i, c, At(a, i) + ColumnSum(a, prog[i]), Sum(a, prog, i + 1), cur, c', ValFrom(Words(N.p), 0, i + 1));
  }

  /** All columns up to the last store: the stored words and the final carry make up the sum. */
  method RunColumns(N: Mpi, prog: Program) returns (c: int)
    requires Legal(prog, 2 * |N.p|)
    modifies N`p
    ensures |N.p| == old(|N.p|) && -128 < c < 128
    ensures Weighted(ValFrom(Words(N.p), 0, |prog|), |prog|, c) == Sum(old(Words(N.p)), prog, 0)
  {
    ghost var a := Words(N.p);
    var i := 0;
    c := 0;
    while i < |prog|
      invariant 0 <= i <= |prog| && |N.p| == old(|N.p|) && Running(Words(N.p), a, prog, i, c)
    {
      c := NextColumn(N, prog, i, c, a);
      i := i + 1;
    }
  }

  /** The top limb of C: k 2^(32w) is k, or k shifted by half a limb when w is odd, on top of w/2 zero limbs. */
  lemma TopLimb(k: int, w: nat)
    ensures (if w % 2 == 1 then k * W else k) * Pow(w / 2) == k * Pow32(w)
  {
    PowIsPow32(w / 2);
    if w % 2 == 1 {
      assert Pow32(w) == W * Pow32(w - 1);
      Assoc(k, W, Pow32(w - 1));
    }
  }

  lemma ValOneLimb(n: nat, top: Limb)
    ensures Val(Zeros(n) + [top]) == top * Pow(n)
  {
    ValConcat(Zeros(n), [top]);
    ValZeros(Zeros(n));
    assert Val([top]) == top + BASE * Val([]);
  }

  /** N = -(C - N) with C = -c 2^bits (not 2^(bits + 32)). */
  method FixNegative(N: Mpi, c: int, bits: nat, ghost w: nat)
    requires -128 < c < 0 && (bits == 224 || bits == 256 || bits == 384) && bits == 32 * w && Val(N.p) < Pow32(w)
    modifies N
    ensures N.s == -1 && Val(N.p) == -c * Pow32(w) - old(Val(N.p))
  {
    var C := CarryNumber(-c, bits, w);
    var _ := N.SubAbs(C, N);
    N.s := -1;
  }

  /** C, a number of bits/64 + 1 limbs with k on top. */
  method CarryNumber(k: int, bits: nat, ghost w: nat) returns (C: Mpi)
    requires 0 < k < 128 && (bits == 224 || bits == 256 || bits == 384) && bits == 32 * w
    ensures fresh(C) && Val(C.p) == k * Pow32(w) >= Pow32(w)
  {
    var n := bits / 8 / 8 + 1;
    C := new Mpi();
    var top: Limb := if bits == 224 then k * W else k;
    C.p := Zeros(n - 1) + [top];
    HalfWords(bits, w);
    NegatedCarry(k, w, n - 1, top);
  }

  lemma HalfWords(bits: nat, w: nat)
    requires (bits == 224 || bits == 256 || bits == 384) && bits == 32 * w
    ensures bits / 8 / 8 == w / 2 && (w % 2 == 1 <==> bits == 224)
  {
  }

  lemma NegatedCarry(k: int, w: nat, n: nat, top: Limb)
    requires k > 0 && n == w / 2 && top == if w % 2 == 1 then k * W else k
    ensures Val(Zeros(n) + [top]) == k * Pow32(w) >= Pow32(w)
  {
    ValOneLimb(n, top);
    TopLimb(k, w);
    MulMono(1, k, Pow32(w));
  }

  method ClearFrom(N: Mpi, i0: nat)
    requires i0 <= 2 * |N.p|
    modifies N`p
    ensures |N.p| == old(|N.p|)
    ensures forall k :: 0 <= k < 2 * |N.p| ==> Words(N.p)[k] == if k < i0 then old(Words(N.p))[k] else 0
  {
    var i := i0;
    while i < 2 * |N.p|
      invariant i0 <= i <= 2 * |N.p| && |N.p| == old(|N.p|)
      invariant forall k :: 0 <= k < 2 * |N.p| ==> Words(N.p)[k] == if i0 <= k < i then 0 else old(Words(N.p))[k]
    {
      Store32(N, i, 0);
      i := i + 1;
    }
  }

  lemma TopWord(x: seq<Word>, y: seq<Word>, w: nat, top: Word)
    requires w < |x| == |y| && y[w] == top && (forall k :: 0 <= k < w ==> y[k] == x[k])
             && forall k :: w < k < |y| ==> y[k] == 0
    ensures ValFrom(y, 0, |y|) == ValFrom(x, 0, w) + Pow32(w) * top
  {
    ValFromSplit(y, 0, w + 1, |y|);
    ValFromZero(y, w + 1, |y|);
    assert Pow32(w + 1) * 0 == 0;
    ValFromSnoc(y, w);
    ValFromSame(x, y, 0, w);
  }

  /** The carry word and the zeros above it. */
  method StoreTop(N: Mpi, w: nat, top: Word)
    requires w < 2 * |N.p|
    modifies N`p
    ensures Val(N.p) == ValFrom(old(Words(N.p)), 0, w) + Pow32(w) * top
  {
    ghost var x := Words(N.p);
    Store32(N, w, top);
    ClearFrom(N, w + 1);
    TopWord(x, Words(N.p), w, top);
    WordsValue(N.p, 0);
    assert N.p[0..] == N.p;
  }

  /** LAST after its first store: the carry goes on top, or the number turns negative. */
  method Finish(N: Mpi, w: nat, c: int, bits: nat, ghost sum: int)
    requires w < 2 * |N.p| && -128 < c < 128 && bits == 32 * w && (bits == 224 || bits == 256 || bits == 384)
    requires sum == Weighted(ValFrom(Words(N.p), 0, w), w, c)
    modifies N
    ensures Val(N.p) == (if sum < 0 then -sum else sum) && N.s == if sum < 0 then -1 else old(N.s)
  {
    ghost var v := ValFrom(Words(N.p), 0, w);
    ValFromBound(Words(N.p), 0, w);
    CarryDecidesSign(v, Pow32(w), c);
    var top: Word := if c > 0 then c else 0;
    StoreTop(N, w, top);
    if c < 0 {
      FixNegative(N, c, bits, w);
    }
  }

  lemma CarryDecidesSign(v: int, p: int, c: int)
    requires 0 <= v < p
    ensures c >= 0 ==> v + p * c >= 0
    ensures c < 0 ==> v + p * c < 0 && -c * p - v == -(v + p * c)
    ensures p * 0 == 0
  {
    if c >= 0 {
      MulMono(0, c, p);
    } else {
      MulMono(c, -1, p);
    }
  }

  /** INIT, the program, LAST: N becomes the program's linear form of its words, sign included. */
  method RunProgram(N: Mpi, bits: nat, prog: Program) returns (ghost low: seq<Word>)
    requires bits == 32 * |prog| && (bits == 224 || bits == 256 || bits == 384) && Legal(prog, 2 * |prog|)
    requires NonNegative(N)
    requires Val(N.p) < Pow32(2 * |prog|)
    modifies N
    ensures |low| == 2 * |prog| && ValFrom(low, 0, |low|) == old(Val(N.p))
    ensures var sum := Sum(low, prog, 0);
            Val(N.p) == (if sum < 0 then -sum else sum) && N.s == if sum < 0 then -1 else old(N.s)
  {
    var w := |prog|;
    N.Grow(bits * 2 / 8 / 8);
    ghost var a := Words(N.p);
    LowWords(N.p, w);
    LegalMore(prog, 2 * w, |a|);
    var c := RunColumns(N, prog);
    Finish(N, w, c, bits, Sum(a, prog, 0));
    low := a[..2 * w];
    SumSame(a, low, prog, 0);
  }

  lemma LowWords(p: seq<Limb>, w: nat)
    requires 2 * w <= 2 * |p| && Val(p) < Pow32(2 * w)
    ensures ValFrom(Words(p)[..2 * w], 0, 2 * w) == Val(p)
  {
    var a := Words(p);
    var m := 2 * w;
    WordsValue(p, 0);
    assert p[0..] == p;
    ValFromSplit(a, 0, m, |a|);
    ValFromSame(a, a[..m], 0, m);
    NoHigh(ValFrom(a, 0, m), Pow32(m), ValFrom(a, m, |a|));
  }

  lemma {:induction false} GoodMore(col: Column, w: nat, n: nat, m: nat, steps: nat)
    requires Good(col, w, n, steps) && n <= m
    ensures Good(col, w, m, steps)
    decreases col
  {
    if !col.End? {
      GoodMore(col.more, w, n, m, steps - 1);
    }
  }

  lemma LegalMore(prog: Program, n: nat, m: nat)
    requires Legal(prog, n) && n <= m
    ensures Legal(prog, m)
  {
    forall i | 0 <= i < |prog|
      ensures Good(prog[i], |prog|, m, MAX_STEPS)
    {
      assert Good(prog[i], |prog|, n, MAX_STEPS);
      GoodMore(prog[i], |prog|, n, m, MAX_STEPS);
    }
  }

  lemma {:induction false} ColumnPrefix(a: seq<Word>, b: seq<Word>, col: Column, w: nat, steps: nat)
    requires b <= a && Good(col, w, |b|, steps)
    ensures ColumnSum(a, col) == ColumnSum(b, col)
    decreases col
  {
    if !col.End? {
      ColumnPrefix(a, b, col.more, w, steps - 1);
    }
  }

  lemma {:induction false} SumSame(a: seq<Word>, b: seq<Word>, prog: Program, i: nat)
    requires b <= a && i <= |prog| && Legal(prog, |b|)
    ensures Sum(a, prog, i) == Sum(b, prog, i)
    decreases |prog| - i
  {
    if i < |prog| {
      assert Good(prog[i], |prog|, |b|, MAX_STEPS);
      ColumnPrefix(a, b, prog[i], |prog|, MAX_STEPS);
      SumSame(a, b, prog, i + 1);
    }
  }
}
