/** Bit lengths, trailing zeros and shifts of limb vectors. */
module MpiShift {
  import opened Arith
  import opened Limbs
  import opened Bits
  import opened Mpis

  /** The reference bit length. */
  function NumBits(v: nat): nat {
    if v == 0 then 0 else 1 + NumBits(v / 2)
  }

  lemma {:induction false} NumBitsBounds(v: nat)
    ensures v < Pow2(NumBits(v))
    ensures v > 0 ==> NumBits(v) > 0 && Pow2(NumBits(v) - 1) <= v
  {
    if v > 0 {
      NumBitsBounds(v / 2);
    }
  }

  lemma {:induction false} BitsAtMost(v: nat, n: nat)
    requires v < Pow2(n)
    ensures NumBits(v) <= n
    decreases n
  {
    if v > 0 {
      BitsAtMost(v / 2, n - 1);
    }
  }

  lemma {:induction false} NumBitsIs(v: nat, n: nat)
    requires v < Pow2(n) && (n > 0 ==> Pow2(n - 1) <= v)
    ensures NumBits(v) == n
  {
    if n == 1 {
      assert v == 1 && NumBits(0) == 0;
    } else if n > 1 {
      NumBitsIs(v / 2, n - 1);
    }
  }

  lemma LimbIs64Bits()
    ensures Pow2(BITS) == BASE
  {
    assert Pow2(8) == 0x100;
    Squared(8, 0x100);
    Squared(16, 0x1_0000);
    Squared(32, 0x1_0000_0000);
  }

  lemma Squared(n: nat, v: nat)
    requires Pow2(n) == v
    ensures Pow2(n + n) == v * v
  {
    Pow2Add(n, n);
  }

  lemma {:induction false} PowIsPow2(n: nat)
    ensures Pow(n) == Pow2(BITS * n)
  {
    if n > 0 {
      PowIsPow2(n - 1);
      Pow2Add(BITS, BITS * (n - 1));
      LimbIs64Bits();
    }
  }

  lemma HalfBase(t: nat)
    requires t <= BITS
    ensures Pow2(t) * Pow2(BITS - t) == BASE
  {
    Pow2Add(t, BITS - t);
    LimbIs64Bits();
  }

  method Clz(x: Limb) returns (j: nat)
    ensures j <= BITS && NumBits(x) == BITS - j
  {
    var mask := Pow2(BITS - 1);
    j := 0;
    assert x < 2 * mask by { HalfBase(BITS - 1); }
    while j < BITS
      invariant j <= BITS
      invariant j < BITS ==> mask == Pow2(BITS - 1 - j)
      invariant x < Pow2(BITS - j)
    {
      if (x / mask) % 2 != 0 {
        assert x >= mask by { SmallDiv(x, mask); }
        assert mask == Pow2(BITS - j - 1);
        break;
      }
      assert x < mask by { OneDiv(x, mask); }
      mask := mask / 2;
      j := j + 1;
    }
    NumBitsIs(x, BITS - j);
  }

  lemma SmallDiv(x: nat, m: nat)
    requires m > 0
    ensures x < m ==> x / m == 0
  {
    if x < m {
      ModUnique(x, 0, x, m);
    }
  }

  lemma OneDiv(x: nat, m: nat)
    requires m > 0 && x < 2 * m && (x / m) % 2 == 0
    ensures x < m
  {
    if x >= m {
      ModUnique(x, 1, x - m, m);
    }
  }

  method BitLen(X: Mpi) returns (n: nat)
    ensures n == NumBits(Val(X.p))
  {
    if |X.p| == 0 {
      return 0;
    }
    var i := |X.p| - 1;
    while i > 0 && X.p[i] == 0
      invariant 0 <= i < |X.p|
      invariant forall k :: i < k < |X.p| ==> X.p[k] == 0
    {
      i := i - 1;
    }
    ValTrim(X.p, i + 1);
    var z := Clz(X.p[i]);
    n := i * BITS + (BITS - z);
    if X.p[i] == 0 {
      ValZeros(X.p);
      NumBitsIs(0, 0);
    } else {
      TopBits(X.p[..i + 1], X.p[i], BITS - z);
    }
  }

  lemma TopBits(s: seq<Limb>, top: Limb, b: nat)
    requires |s| > 0 && s[|s| - 1] == top && top > 0 && NumBits(top) == b
    ensures NumBits(Val(s)) == (|s| - 1) * BITS + b
  {
    var i := |s| - 1;
    NumBitsBounds(top);
    ValTop(s);
    PowIsPow2(i);
    MulMono(Pow2(b - 1), top, Pow(i));
    MulMono(top + 1, Pow2(b), Pow(i));
    Pow2Add(b, i * BITS);
    Pow2Add(b - 1, i * BITS);
    NumBitsIs(Val(s), i * BITS + b);
  }

  /** BITS_TO_LIMBS. */
  function BitsToLimbs(i: nat): nat {
    i / BITS + if i % BITS != 0 then 1 else 0
  }

  /** One limb of a left shift by t bits: the shifted word takes the bits carried in, the top bits go on. */
  method ShlWord(x: Limb, r0: Limb, t: nat) returns (v: Limb, r1: Limb)
    requires 0 < t < BITS && r0 < Pow2(t)
    ensures v + r1 * BASE == x * Pow2(t) + r0
    ensures r1 < Pow2(t)
  {
    HalfBase(t);
    ShlSplit(x, Pow2(t), Pow2(BITS - t));
    r1 := x / Pow2(BITS - t);
    var w := (x * Pow2(t)) % BASE;
    OrIsAdd(x % Pow2(BITS - t), r0, t, w);
    v := Or(w, r0);
  }

  lemma ShlSplit(x: Limb, m: nat, h: nat)
    requires m >= 1 && h >= 1 && m * h == BASE
    ensures (x * m) % BASE == (x % h) * m && x * m == BASE * (x / h) + (x % h) * m
    ensures (x % h) * m + m <= BASE && x / h < m
  {
    var q, r := x / h, x % h;
    assert x == h * q + r;
    assert x * m == (h * q) * m + r * m;
    assert (h * q) * m == (m * h) * q;
    MulMono(r + 1, h, m);
    assert (r + 1) * m == r * m + m && h * m == m * h;
    if q >= m {
      MulMono(m, q, h);
      assert false;
    }
    ModUnique(x * m, q, r * m, BASE);
  }

  /** X <<= count. */
  method ShiftL(X: Mpi, count: nat)
    modifies X`p
    ensures Val(X.p) == old(Val(X.p)) * Pow2(count)
    ensures |X.p| == if old(|X.p|) * BITS < NumBits(old(Val(X.p))) + count
                     then BitsToLimbs(NumBits(old(Val(X.p))) + count) else old(|X.p|)
    ensures |X.p| >= old(|X.p|)
  {
    ghost var x0 := Val(X.p);
    var v0, t1 := count / BITS, count % BITS;
    var i := BitLen(X);
    i := i + count;
    if |X.p| * BITS < i {
      X.Grow(BitsToLimbs(i));
    }
    ShiftLArith(x0, count, |X.p|, v0, t1);
    if v0 > 0 {
      ShiftLimbsUp(X, v0);
    }
    if t1 > 0 {
      ShiftBitsUp(X, v0, t1);
    }
  }

  lemma ShiftLArith(x: nat, count: nat, n: nat, v0: nat, t1: nat)
    requires n * BITS >= NumBits(x) + count && count == BITS * v0 + t1
    ensures v0 <= n && x * Pow(v0) < Pow(n)
    ensures (x * Pow(v0)) * Pow2(t1) == x * Pow2(count) < Pow(n)
    ensures v0 == 0 ==> x * Pow(v0) == x
    ensures t1 == 0 ==> (x * Pow(v0)) * Pow2(t1) == x * Pow(v0)
  {
    Fits(x, count, n);
    SplitShift(x, v0, t1);
    Scale(x, Pow(v0));
    Scale(x * Pow(v0), Pow2(t1));
  }

  lemma SplitShift(x: nat, v0: nat, t1: nat)
    ensures (x * Pow(v0)) * Pow2(t1) == x * Pow2(BITS * v0 + t1)
  {
    PowIsPow2(v0);
    Pow2Add(BITS * v0, t1);
    Assoc(x, Pow(v0), Pow2(t1));
  }

  lemma Scale(y: nat, m: nat)
    requires m >= 1
    ensures y <= y * m && (m == 1 ==> y * m == y)
  {
    MulMono(1, m, y);
  }

  lemma Fits(x: nat, count: nat, n: nat)
    requires n * BITS >= NumBits(x) + count
    ensures x * Pow2(count) < Pow(n)
  {
    var b := NumBits(x);
    NumBitsBounds(x);
    PowIsPow2(n);
    Pow2Add(b, count);
    Pow2Mono(b + count, n * BITS);
    Dominated(x, Pow2(b), Pow2(count));
    assert x * Pow2(count) < Pow2(b + count) <= Pow2(n * BITS);
  }

  lemma Dominated(a: nat, b: nat, w: nat)
    requires a < b && w >= 1
    ensures a * w < b * w
  {
    MulMono(a + 1, b, w);
    Plus1(a, w);
  }

  method ShiftLimbsUp(X: Mpi, v0: nat)
    requires 0 < v0 <= |X.p| && Val(X.p) * Pow(v0) < Pow(|X.p|)
    modifies X`p
    ensures |X.p| == old(|X.p|)
    ensures Val(X.p) == old(Val(X.p)) * Pow(v0)
    ensures forall k :: 0 <= k < v0 ==> X.p[k] == 0
  {
    ghost var q := X.p;
    MoveUp(X, v0);
    TopIsZero(q, v0);
    ValSplit(X.p, v0);
    ValZeros(X.p[..v0]);
  }

  method MoveUp(X: Mpi, v0: nat)
    requires v0 <= |X.p|
    modifies X`p
    ensures |X.p| == old(|X.p|)
    ensures X.p[v0..] == old(X.p)[..|X.p| - v0]
    ensures forall k :: 0 <= k < v0 ==> X.p[k] == 0
  {
    ghost var q := X.p;
    var i := |X.p|;
    while i > v0
      invariant v0 <= i <= |X.p| == |q|
      invariant forall k :: i <= k < |q| ==> X.p[k] == q[k - v0]
      invariant forall k :: 0 <= k < i ==> X.p[k] == q[k]
    {
      X.p := X.p[i - 1 := X.p[i - v0 - 1]];
      i := i - 1;
    }
    assert X.p[v0..] == q[..|q| - v0];
    ClearLow(X, v0);
  }

  method ClearLow(X: Mpi, v0: nat)
    requires v0 <= |X.p|
    modifies X`p
    ensures |X.p| == old(|X.p|) && X.p[v0..] == old(X.p[v0..])
    ensures forall k :: 0 <= k < v0 ==> X.p[k] == 0
  {
    var i := v0;
    while i > 0
      invariant 0 <= i <= v0 && |X.p| == old(|X.p|) && X.p[v0..] == old(X.p[v0..])
      invariant forall k :: i <= k < v0 ==> X.p[k] == 0
    {
      X.p := X.p[i - 1 := 0];
      i := i - 1;
    }
  }

  // Limbs that a fitting shift pushes out of the vector are zero.
  lemma TopIsZero(q: seq<Limb>, v0: nat)
    requires v0 <= |q| && Val(q) * Pow(v0) < Pow(|q|)
    ensures Val(q[..|q| - v0]) == Val(q)
  {
    var k := |q| - v0;
    ValSplit(q, k);
    PowAdd(k, v0);
    ShiftedOut(Val(q), Val(q[..k]), Val(q[k..]), Pow(k), Pow(v0));
  }

  lemma ShiftedOut(x: nat, low: nat, high: nat, w: nat, u: nat)
    requires x == low + w * high && x * u < w * u
    ensures x == low
  {
    if high >= 1 {
      MulMono(1, high, w);
      MulMono(w, x, u);
      assert false;
    }
    assert w * 0 == 0;
  }

  method ShiftBitsUp(X: Mpi, v0: nat, t: nat)
    requires 0 < t < BITS && v0 <= |X.p| && Val(X.p) * Pow2(t) < Pow(|X.p|)
    requires forall k :: 0 <= k < v0 ==> X.p[k] == 0
    modifies X`p
    ensures |X.p| == old(|X.p|)
    ensures Val(X.p) == old(Val(X.p)) * Pow2(t)
  {
    ghost var q, m := X.p, Pow2(t);
    var r0: Limb, i := 0, v0;
    ValZeros(q[..v0]);
    while i < |X.p|
      invariant v0 <= i <= |X.p| == |q| && r0 < m
      invariant forall k :: i <= k < |q| ==> X.p[k] == q[k]
      invariant Val(X.p) + r0 * Pow(i) == Val(q) + (m - 1) * Val(q[..i])
    {
      var v, r1 := ShlWord(X.p[i], r0, t);
      ShlColumn(X.p, q, i, v, r0, r1, m);
      X.p := X.p[i := v];
      r0, i := r1, i + 1;
    }
    assert q[..|q|] == q;
    NoCarryOut(Val(X.p), r0, Pow(|q|), Val(q), m);
  }

  lemma ShlColumn(x: seq<Limb>, q: seq<Limb>, i: nat, v: Limb, r0: Limb, r1: Limb, m: nat)
    requires i < |x| == |q| && x[i] == q[i]
    requires v + r1 * BASE == x[i] * m + r0
    ensures Val(x[i := v]) + r1 * Pow(i + 1) - (m - 1) * Val(q[..i + 1]) == Val(x) + r0 * Pow(i) - (m - 1) * Val(q[..i])
  {
    var a := q[i] * (m - 1);
    assert q[i] * m == q[i] + a;
    CarryStep(x, i, v, a, r0, r1);
    ValPrefix(q, i);
    Distribute(m - 1, Val(q[..i]), q[i] * Pow(i));
    Rotate(q[i], m - 1, Pow(i));
  }

  lemma NoCarryOut(x: nat, r: nat, w: nat, v: nat, m: nat)
    requires x + r * w == v + (m - 1) * v && v * m < w
    ensures x == v * m
  {
    assert v + (m - 1) * v == v * m;
    if r >= 1 {
      MulMono(1, r, w);
      assert false;
    }
    assert 0 * w == 0;
  }

  /** X >>= count: exact floor of the magnitude. */
  method ShiftR(X: Mpi, count: nat)
    modifies X
    ensures Val(X.p) == old(Val(X.p)) / Pow2(count)
    ensures X.s == old(X.s) || Val(X.p) == 0
    ensures |X.p| >= old(|X.p|)
  {
    ghost var x0 := Val(X.p);
    var v0, v1 := count / BITS, count % BITS;
    ValBound(X.p);
    ShiftRArith(x0, count, |X.p|);
    if v0 > |X.p| || (v0 == |X.p| && v1 > 0) {
      X.Lset(0);
      return;
    }
    if v0 > 0 {
      ShiftLimbsDown(X, v0);
    }
    if v1 > 0 {
      ShiftBitsDown(X, v1);
    }
  }

  lemma ShiftRArith(x: nat, count: nat, n: nat)
    requires x < Pow(n)
    ensures count / BITS >= n ==> x / Pow2(count) == 0
    ensures (x / Pow(count / BITS)) / Pow2(count % BITS) == x / Pow2(count)
    ensures count / BITS == 0 ==> x / Pow2(count % BITS) == x / Pow2(count)
    ensures count % BITS == 0 ==> x / Pow(count / BITS) == x / Pow2(count)
    ensures x / Pow2(0) == x
  {
    var v0, v1 := count / BITS, count % BITS;
    PowIsPow2(v0);
    Pow2Add(BITS * v0, v1);
    DivDiv(x, Pow(v0), Pow2(v1));
    if v0 >= n {
      PowMono(n, v0);
      MulMono(1, Pow2(v1), Pow(v0));
      ModUnique(x, 0, x, Pow2(count));
    }
    assert x / 1 == x;
  }

  method ShiftLimbsDown(X: Mpi, v0: nat)
    requires 0 < v0 <= |X.p|
    modifies X`p
    ensures |X.p| == old(|X.p|) && Val(X.p) == old(Val(X.p)) / Pow(v0)
  {
    ghost var q, n := X.p, |X.p|;
    MoveDown(X, v0);
    ValTrim(X.p, n - v0);
    ValSplit(q, v0);
    ValBound(q[..v0]);
    ModUnique(Val(q), Val(q[v0..]), Val(q[..v0]), Pow(v0));
  }

  method MoveDown(X: Mpi, v0: nat)
    requires v0 <= |X.p|
    modifies X`p
    ensures |X.p| == old(|X.p|) && X.p[..|X.p| - v0] == old(X.p)[v0..]
    ensures forall k :: |X.p| - v0 <= k < |X.p| ==> X.p[k] == 0
  {
    ghost var q := X.p;
    var i, n := 0, |X.p|;
    while i < n - v0
      invariant 0 <= i <= n - v0 && |X.p| == n
      invariant forall k :: 0 <= k < i ==> X.p[k] == q[k + v0]
      invariant forall k :: i <= k < n ==> X.p[k] == q[k]
    {
      X.p := X.p[i := X.p[i + v0]];
      i := i + 1;
    }
    assert X.p[..n - v0] == q[v0..];
    while i < n
      invariant n - v0 <= i <= n && |X.p| == n && X.p[..n - v0] == q[v0..]
      invariant forall k :: n - v0 <= k < i ==> X.p[k] == 0
    {
      X.p := X.p[i := 0];
      i := i + 1;
    }
  }

  /** One limb of a right shift: bits carried in from above sit on top. */
  method ShrWord(x: Limb, r0: Limb, ghost rho: nat, t: nat) returns (v: Limb, r1: Limb)
    requires 0 < t < BITS && rho < Pow2(t) && r0 == rho * Pow2(BITS - t)
    ensures v == x / Pow2(t) + r0
    ensures r1 == (x % Pow2(t)) * Pow2(BITS - t)
  {
    ghost var m, h := Pow2(BITS - t), Pow2(t);
    HalfBase(BITS - t);
    ShlSplit(x, m, h);
    r1 := (x * Pow2(BITS - t)) % BASE;
    var low := x / Pow2(t);
    assert 0 <= low < m by {
      QuotientAtLeast(0, h, x);
    }
    OrBelow(rho, low, BITS - t, h, r0);
    v := Or(low, r0);
  }

  lemma OrBelow(high: nat, low: nat, k: nat, m: nat, word: nat)
    requires low < Pow2(k) && high < m && Pow2(k) * m == BASE && word == high * Pow2(k)
    ensures Or(low, word) == low + word && low + word < BASE
  {
    OrIsAdd(high, low, k, word);
    Room(high, low, Pow2(k), m);
  }

  lemma Room(high: nat, low: nat, w: nat, m: nat)
    requires low < w && high < m
    ensures low + high * w < w * m
  {
    MulMono(high + 1, m, w);
    Plus1(high, w);
  }

  method ShiftBitsDown(X: Mpi, t: nat)
    requires 0 < t < BITS
    modifies X`p
    ensures |X.p| == old(|X.p|) && Val(X.p) == old(Val(X.p)) / Pow2(t)
  {
    ghost var q, m, rho: nat := X.p, Pow2(t), 0;
    var r0: Limb, i := 0, |X.p|;
    while i > 0
      invariant 0 <= i <= |X.p| == |q|
      invariant forall k :: 0 <= k < i ==> X.p[k] == q[k]
      invariant rho < m && r0 == rho * Pow2(BITS - t)
      invariant m * Val(X.p[i..]) + rho == Val(q[i..])
    {
      var v, r1 := ShrWord(X.p[i - 1], r0, rho, t);
      ghost var x := X.p;
      X.p := X.p[i - 1 := v];
      assert X.p[i - 1..][1..] == x[i..] && q[i - 1..][1..] == q[i..];
      HalfBase(t);
      ShrColumn(q[i - 1], Val(x[i..]), rho, m, Pow2(BITS - t));
      r0, rho, i := r1, q[i - 1] % m, i - 1;
    }
    assert X.p[0..] == X.p && q[0..] == q;
    ModUnique(Val(q), Val(X.p), rho, m);
  }

  lemma ShrColumn(x: Limb, high: nat, rho: nat, m: nat, h: nat)
    requires m >= 1 && m * h == BASE
    ensures m * (x / m + rho * h + BASE * high) + x % m == x + BASE * (m * high + rho)
  {
    assert x == m * (x / m) + x % m;
    assert m * (rho * h) == rho * (m * h);
    assert m * (BASE * high) == BASE * (m * high);
    assert m * (x / m + rho * h + BASE * high) == m * (x / m) + m * (rho * h) + m * (BASE * high);
  }

  lemma LowBits(x: Limb, high: nat, k: nat)
    requires k < BITS
    ensures ((x + BASE * high) / Pow2(k)) % 2 == (x / Pow2(k)) % 2
  {
    var h := Pow2(BITS - 1 - k);
    HalfBase(k);
    assert Pow2(BITS - k) == 2 * h;
    Assoc(Pow2(k), 2 * h, high);
    Assoc(2, h, high);
    AddEvenMultiple(x, Pow2(k), h * high);
  }

  lemma AddEvenMultiple(x: nat, w: nat, z: nat)
    requires w > 0
    ensures ((x + w * (2 * z)) / w) % 2 == (x / w) % 2
  {
    DivBounds(x, w);
    Distribute(w, x / w, 2 * z);
    ModUnique(x + w * (2 * z), x / w + 2 * z, x % w, w);
  }

  /** Bit `pos` of the magnitude; positions beyond the limbs read as zero. */
  method GetBit(X: Mpi, pos: nat) returns (b: nat)
    ensures b == Bit(Val(X.p), pos)
  {
    if |X.p| * BITS <= pos {
      BeyondTop(X.p, pos);
      return 0;
    }
    var i, k := pos / BITS, pos % BITS;
    BitOfLimb(X.p, i, k);
    b := Bit(X.p[i], k);
  }

  lemma BeyondTop(p: seq<Limb>, pos: nat)
    requires |p| * BITS <= pos
    ensures Bit(Val(p), pos) == 0
  {
    ValBound(p);
    PowIsPow2(|p|);
    Pow2Mono(|p| * BITS, pos);
    ModUnique(Val(p), 0, Val(p), Pow2(pos));
  }

  lemma BitOfLimb(p: seq<Limb>, i: nat, k: nat)
    requires i < |p| && k < BITS
    ensures Bit(Val(p), i * BITS + k) == Bit(p[i], k)
  {
    ValSplit(p, i);
    ValBound(p[..i]);
    ModUnique(Val(p), Val(p[i..]), Val(p[..i]), Pow(i));
    PowIsPow2(i);
    Pow2Add(i * BITS, k);
    DivDiv(Val(p), Pow(i), Pow2(k));
    LowBits(p[i], Val(p[i..][1..]), k);
  }
}
