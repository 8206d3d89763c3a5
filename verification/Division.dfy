/** Multi-limb division (HAC 14.20): A = Q * B + R, truncating like C. */
module Division {
  import opened Arith
  import opened Limbs
  import opened Bits
  import opened Mpis
  import opened MpiMul
  import opened MpiShift
  import opened WordDivision

  // ----- the numbers behind one quotient digit

  /** The two leading limbs of a divisor whose top limb is `t`. */
  function Top2(y: seq<Limb>, t: nat): nat
    requires t < |y|
  {
    y[t] * BASE + if t < 1 then 0 else y[t - 1]
  }

  /** The three leading limbs of a dividend whose top limb is `i`. */
  function Top3(x: seq<Limb>, i: nat): nat
    requires 1 <= i < |x|
  {
    x[i] * (BASE * BASE) + x[i - 1] * BASE + if i < 2 then 0 else x[i - 2]
  }

  /** A value with weight between Pow(t) and Pow(t+1) has its top nonzero limb at t. */
  lemma TopLimbAt(p: seq<Limb>, t: nat)
    requires t < |p| && Val(p) < Pow(t + 1)
    ensures Val(p) == Val(p[..t + 1])
    ensures Pow(t) <= Val(p) ==> p[t] >= 1
  {
    ValSplit(p, t + 1);
    CancelTail(Val(p), Val(p[..t + 1]), Val(p[t + 1..]), Pow(t + 1));
    ValTop(p[..t + 1]);
    if p[t] == 0 {
      assert (p[t] + 1) * Pow(t) == Pow(t);
    }
  }

  lemma CancelTail(x: nat, low: nat, high: nat, w: nat)
    requires x == low + w * high && x < w
    ensures x == low && high == 0
  {
    CancelLt(high, 1, w);
  }

  /** Scaled by one limb, the divisor is its two leading limbs plus less than one unit. */
  lemma Leading2(p: seq<Limb>, t: nat)
    requires t < |p| && Val(p) == Val(p[..t + 1])
    ensures Top2(p, t) * Pow(t) <= Val(p) * BASE < (Top2(p, t) + 1) * Pow(t)
  {
    if t == 0 {
      Leading2Single(p);
    } else {
      var low := TwoPrefixes(p, t);
      assert Top2(p, t) == p[t] * BASE + p[t - 1];
      Lead(p[t], p[t - 1], low, Pow(t - 1), Val(p), Top2(p, t));
      assert Pow(t) == BASE * Pow(t - 1);
    }
  }

  lemma TwoPrefixes(p: seq<Limb>, t: nat) returns (low: nat)
    requires 0 < t < |p|
    ensures low < Pow(t - 1) && Val(p[..t + 1]) == low + p[t - 1] * Pow(t - 1) + p[t] * (BASE * Pow(t - 1))
  {
    ValPrefix(p, t);
    ValPrefix(p, t - 1);
    ValBound(p[..t - 1]);
    low := Val(p[..t - 1]);
  }

  lemma Leading2Single(p: seq<Limb>)
    requires |p| > 0 && Val(p) == Val(p[..1])
    ensures Val(p) * BASE == Top2(p, 0) && Pow(0) == 1
  {
    assert p[..1][1..] == [];
  }

  lemma Lead(a: nat, b: nat, low: nat, w: nat, v: nat, top: nat)
    requires low < w && v == low + b * w + a * (BASE * w) && top == a * BASE + b
    ensures top * (BASE * w) <= v * BASE < (top + 1) * (BASE * w)
  {
    Assoc(a, BASE, w);
    Distribute(w, a * BASE, b);
    assert v == low + top * w;
    Rotate(top, BASE, w);
    Plus1(top, BASE * w);
  }

  lemma Leading3(p: seq<Limb>, i: nat)
    requires 1 <= i < |p| && Val(p) == Val(p[..i + 1])
    ensures Top3(p, i) * Pow(i - 1) <= Val(p) * BASE < (Top3(p, i) + 1) * Pow(i - 1)
  {
    ValPrefix(p, i);
    var low := p[..i];
    assert low[..i] == low;
    Leading2(low, i - 1);
    var x2 := Top2(low, i - 1);
    Lead3(p[i], x2, Pow(i - 1), Val(low), Val(p), Top3(p, i));
  }

  lemma Lead3(a: nat, x2: nat, w: nat, low: nat, v: nat, top: nat)
    requires x2 * w <= low * BASE < (x2 + 1) * w && v == low + a * (BASE * w) && top == a * (BASE * BASE) + x2
    ensures top * w <= v * BASE < (top + 1) * w
  {
    var high := a * (BASE * w);
    assert high * BASE == (a * (BASE * BASE)) * w by {
      Rotate(a, BASE, w);
      Rotate(a, BASE, BASE);
    }
    Distribute(w, a * (BASE * BASE), x2);
    Distribute(w, a * (BASE * BASE), x2 + 1);
  }

  /** The divisor moved up to the digit's position keeps its leading limbs. */
  lemma LeadingShifted(y: nat, y2: nat, wt: nat, w: nat)
    requires y2 * wt <= y * BASE < (y2 + 1) * wt && w >= 1
    ensures y2 * (wt * w) <= (y * w) * BASE < (y2 + 1) * (wt * w)
  {
    MulMono(y2 * wt, y * BASE, w);
    MulMono(y * BASE + 1, (y2 + 1) * wt, w);
    Plus1(y * BASE, w);
    Assoc(y2, wt, w);
    Assoc(y2 + 1, wt, w);
    Rotate(y, BASE, w);
  }

  /** The true digit passes the two-limb test. */
  lemma TrueDigitPasses(x: nat, yw: nat, x3: nat, y2: nat, U: nat, t: nat)
    requires t * yw <= x
    requires x * BASE < (x3 + 1) * U && y2 * U <= yw * BASE
    ensures t * y2 <= x3
  {
    MulMono(y2 * U, yw * BASE, t);
    Assoc(t, y2, U);
    assert (yw * BASE) * t == (t * yw) * BASE;
    CancelLt(t * y2, x3 + 1, U);
  }

  /** A digit that passes the two-limb test is at most one too large, so one add-back is enough. */
  lemma AtMostOneTooLarge(x: nat, yw: nat, x3: nat, y2: nat, U: nat, q: nat)
    requires q < BASE && q * y2 <= x3 && y2 >= BASE && U >= 1
    requires x3 * U <= x * BASE
    requires y2 * U <= yw * BASE < (y2 + 1) * U
    ensures q * yw < x + yw
  {
    MulMono(q * y2, x3, U);
    MulMono(BASE, y2, U);
    if q > 0 {
      ScaledUp(q, yw, y2, U);
      MulMono(q, BASE, U);
      CancelLt(q * yw, x + yw, BASE);
    } else {
      CancelLt(0, yw, BASE);
    }
  }

  lemma ScaledUp(q: nat, yw: nat, y2: nat, U: nat)
    requires q > 0 && yw * BASE < (y2 + 1) * U
    ensures (q * yw) * BASE < (q * y2) * U + q * U
  {
    MulMono(yw * BASE + 1, (y2 + 1) * U, q);
    Plus1(yw * BASE, q);
    Plus1(y2, U);
    Distribute(q, y2 * U, U);
    Assoc(q, y2, U);
    Assoc(q, yw, BASE);
  }

  /** The word quotient of the leading limbs is never below the true digit. */
  lemma FirstGuess(x: nat, yw: nat, x2: nat, yt: nat, U: nat, t: nat)
    requires t * yw <= x < (x2 + 1) * U && yt * U <= yw && yt > 0
    ensures t <= x2 / yt
  {
    MulMono(yt * U, yw, t);
    Assoc(t, yt, U);
    CancelLt(t * yt, x2 + 1, U);
    QuotientAtLeast(t, yt, x2);
  }

  // ----- the division itself

  lemma Val2(p: seq<Limb>)
    requires |p| >= 2 && forall k :: 2 <= k < |p| ==> p[k] == 0
    ensures Val(p) == p[0] + p[1] * BASE
  {
    ValTrim(p, 2);
    assert p[..2][1..][1..] == [];
  }

  lemma Val3(p: seq<Limb>)
    requires |p| >= 3 && forall k :: 3 <= k < |p| ==> p[k] == 0
    ensures Val(p) == p[0] + p[1] * BASE + p[2] * (BASE * BASE)
  {
    ValTrim(p, 3);
    var q1, q2 := p[..3][1..], p[..3][1..][1..];
    assert q2[1..] == [] && Val(q2) == p[2] && Val(q1) == p[1] + BASE * Val(q2);
  }

  /** T1 = (two leading limbs of Y) * z. */
  method LoadDivisor(T1: Mpi, Y: Mpi, t: nat, z: Limb)
    requires T1 != Y && t < |Y.p| && |T1.p| >= 2
    modifies T1
    ensures |T1.p| >= 2 && T1.Value() == Top2(Y.p, t) * z
  {
    T1.Lset(0);
    T1.p := T1.p[0 := if t < 1 then 0 else Y.p[t - 1]][1 := Y.p[t]];
    Val2(T1.p);
    MulInt(T1, T1, z);
  }

  /** T2 = three leading limbs of X. */
  method LoadDividend(T2: Mpi, X: Mpi, i: nat)
    requires T2 != X && 1 <= i < |X.p| && |T2.p| >= 3
    modifies T2
    ensures |T2.p| >= 3 && T2.Value() == Top3(X.p, i)
  {
    T2.Lset(0);
    T2.p := T2.p[0 := if i < 2 then 0 else X.p[i - 2]][1 := X.p[i - 1]][2 := X.p[i]];
    Val3(T2.p);
  }

  /** The do-while loop that lowers the digit until its product with Y's leading limbs fits. */
  method CorrectDigit(X: Mpi, Y: Mpi, T1: Mpi, T2: Mpi, i: nat, t: nat, guess: Limb, ghost qt: nat)
    returns (z: Limb)
    requires T1 != T2 && T1 != X && T1 != Y && T2 != X && T2 != Y
    requires 1 <= i < |X.p| && t < |Y.p| && |T1.p| >= 2 && |T2.p| >= 3
    requires qt <= guess && qt * Top2(Y.p, t) <= Top3(X.p, i)
    modifies T1, T2
    ensures |T1.p| >= 2 && |T2.p| >= 3
    ensures qt <= z && z * Top2(Y.p, t) <= Top3(X.p, i)
  {
    ghost var y2, x3 := Top2(Y.p, t), Top3(X.p, i);
    z := AddW(guess, 1);
    var cmp := 1;
    while cmp > 0
      invariant |T1.p| >= 2 && |T2.p| >= 3
      invariant cmp > 0 ==> qt <= SubW(z, 1)
      invariant cmp <= 0 ==> qt <= z && z * y2 <= x3
      decreases if cmp > 0 then SubW(z, 1) + 1 else 0
    {
      z := SubW(z, 1);
      cmp := TestDigit(X, Y, T1, T2, i, t, z);
      if cmp > 0 {
        assert z != qt;
      }
    }
  }

  method TestDigit(X: Mpi, Y: Mpi, T1: Mpi, T2: Mpi, i: nat, t: nat, z: Limb) returns (cmp: int)
    requires T1 != T2 && T1 != X && T1 != Y && T2 != X && T2 != Y
    requires 1 <= i < |X.p| && t < |Y.p| && |T1.p| >= 2 && |T2.p| >= 3
    modifies T1, T2
    ensures |T1.p| >= 2 && |T2.p| >= 3
    ensures cmp == Cmp(z * Top2(Y.p, t), Top3(X.p, i))
  {
    LoadDivisor(T1, Y, t, z);
    LoadDividend(T2, X, i);
    cmp := T1.CmpMpi(T2);
  }

  /** What the number theory says about one digit: the estimate, the test and the add-back. */
  lemma DigitFacts(x: seq<Limb>, y: seq<Limb>, i: nat, t: nat, w: nat, yw: nat, qt: nat)
    requires t < i < |x| && t < |y| && w == Pow(i - t - 1) && yw == Val(y) * w
    requires Pow(t) <= Val(y) < Pow(t + 1) && Val(x) < yw * BASE && Digit(Val(x), yw, qt)
    ensures y[t] > 0 && qt < BASE && Val(x) < Pow(i + 1)
    ensures x[i] < y[t] ==> qt <= (x[i] * BASE + x[i - 1]) / y[t]
    ensures qt * Top2(y, t) <= Top3(x, i)
    ensures forall q: nat :: q < BASE && q * Top2(y, t) <= Top3(x, i) ==> q * yw < Val(x) + yw
  {
    TopLimbAt(y, t);
    Leading2(y, t);
    LeadingShifted(Val(y), Top2(y, t), Pow(t), w);
    PowAdd(t, i - t - 1);
    DividendBelow(Val(x), Val(y), yw, i, t, w);
    TopLimbAt(x, i);
    Leading3(x, i);
    DigitUpper(Val(x), yw, qt, BASE);
    TrialDigits(Val(x), yw, Top3(x, i), Top2(y, t), Pow(i - 1), qt);
    GuessFacts(x, y, i, t, w, yw, qt);
  }

  /** The true digit passes the test, and no digit that passes it is more than one too large. */
  lemma TrialDigits(x: nat, yw: nat, x3: nat, y2: nat, U: nat, t: nat)
    requires t * yw <= x && y2 >= BASE && U >= 1
    requires x3 * U <= x * BASE < (x3 + 1) * U && y2 * U <= yw * BASE < (y2 + 1) * U
    ensures t * y2 <= x3 && forall q: nat :: q < BASE && q * y2 <= x3 ==> q * yw < x + yw
  {
    TrueDigitPasses(x, yw, x3, y2, U, t);
    forall q: nat | q < BASE && q * y2 <= x3
      ensures q * yw < x + yw
    {
      AtMostOneTooLarge(x, yw, x3, y2, U, q);
    }
  }

  lemma DividendBelow(x: nat, y: nat, yw: nat, i: nat, t: nat, w: nat)
    requires t < i && w == Pow(i - t - 1) && yw == y * w && y < Pow(t + 1) && x < yw * BASE
    ensures x < Pow(i + 1)
  {
    MulMono(y, Pow(t + 1), w);
    PowAdd(t + 1, i - t - 1);
  }

  lemma GuessFacts(x: seq<Limb>, y: seq<Limb>, i: nat, t: nat, w: nat, yw: nat, qt: nat)
    requires t < i < |x| && t < |y| && w == Pow(i - t - 1) && yw == Val(y) * w
    requires y[t] > 0 && Val(y) == Val(y[..t + 1]) && Val(x) == Val(x[..i + 1]) && Digit(Val(x), yw, qt)
    ensures qt <= (x[i] * BASE + x[i - 1]) / y[t]
  {
    ValTop(y[..t + 1]);
    MulMono(y[t] * Pow(t), Val(y), w);
    PowAdd(t, i - t - 1);
    Assoc(y[t], Pow(t), w);
    LeadingPair(x, i);
    FirstGuess(Val(x), yw, x[i] * BASE + x[i - 1], y[t], Pow(i - 1), qt);
  }

  lemma LeadingPair(x: seq<Limb>, i: nat)
    requires 1 <= i < |x|
    ensures Val(x[..i + 1]) < (x[i] * BASE + x[i - 1] + 1) * Pow(i - 1)
  {
    ValPrefix(x, i);
    ValPrefix(x, i - 1);
    ValBound(x[..i - 1]);
    Pair(x[i], x[i - 1], Val(x[..i - 1]), Pow(i - 1));
  }

  lemma Pair(a: nat, b: nat, low: nat, w: nat)
    requires low < w
    ensures low + b * w + a * (BASE * w) < (a * BASE + b + 1) * w
  {
    assert (a * BASE + b + 1) * w == a * (BASE * w) + b * w + w;
  }

  /** T1 = (Y * z) << (64 * j). */
  method ScaledDivisor(T1: Mpi, Y: Mpi, z: Limb, j: nat)
    requires T1 != Y && Y.s == 1 && Y.p != []
    modifies T1
    ensures |T1.p| >= old(|T1.p|) && T1.p != []
    ensures T1.s == 1 && Val(T1.p) == z * (Val(Y.p) * Pow(j))
  {
    MulInt(T1, Y, z);
    ShiftL(T1, BITS * j);
    PowIsPow2(j);
    Rotate(Val(Y.p), z, Pow(j));
  }

  /** X -= z * Y << (64 * j), and the add-back of one Y when that was one too many. */
  method SubtractMultiple(X: Mpi, Y: Mpi, Z: Mpi, T1: Mpi, j: nat, ghost yw: nat) returns (ghost q: Limb)
    requires X != Y && X != Z && X != T1 && Y != Z && Y != T1 && Z != T1
    requires NonNegative(X) && X.p != [] && Y.s == 1 && Y.p != [] && j < |Z.p|
    requires yw == Val(Y.p) * Pow(j) && Z.p[j] * yw < Val(X.p) + yw
    modifies X, Z`p, T1
    ensures NonNegative(X) && |X.p| >= old(|X.p|) && |T1.p| >= old(|T1.p|)
    ensures Z.p == old(Z.p)[j := q] && Val(X.p) == old(Val(X.p)) - q * yw
    ensures q == old(Z.p)[j] || (q + 1 == old(Z.p)[j] && old(Val(X.p)) < (q + 1) * yw)
  {
    q := Z.p[j];
    ScaledDivisor(T1, Y, Z.p[j], j);
    X.SubMpi(X, T1);
    var cmp := X.CmpInt(0);
    if cmp < 0 {
      assert q >= 1;
      q := q - 1;
      Plus1(q, yw);
      T1.Copy(Y);
      ShiftL(T1, BITS * j);
      PowIsPow2(j);
      X.AddMpi(X, T1);
      Z.p := Z.p[j := SubW(Z.p[j], 1)];
    }
  }

  /** The word quotient of the leading limbs, or all ones when it does not fit a word. */
  method GuessDigit(X: Mpi, Y: Mpi, i: nat, t: nat, ghost qt: nat) returns (guess: Limb)
    requires 1 <= i < |X.p| && t < |Y.p| && Y.p[t] > 0 && qt < BASE
    requires X.p[i] < Y.p[t] ==> qt <= (X.p[i] * BASE + X.p[i - 1]) / Y.p[t]
    ensures qt <= guess
  {
    if X.p[i] >= Y.p[t] {
      guess := BASE - 1;
    } else {
      var r;
      guess, r := IntDivInt(X.p[i], X.p[i - 1], Y.p[t]);
    }
  }

  /** The digit the loop tries: not below the true one, and at most one above it. */
  method PickDigit(X: Mpi, Y: Mpi, T1: Mpi, T2: Mpi, i: nat, t: nat, ghost yw: nat, ghost qt: nat) returns (z: Limb)
    requires T1 != T2 && T1 != X && T1 != Y && T2 != X && T2 != Y
    requires t < i < |X.p| && t < |Y.p| && |T1.p| >= 2 && |T2.p| >= 3
    requires Pow(t) <= Val(Y.p) < Pow(t + 1) && yw == Val(Y.p) * Pow(i - t - 1)
    requires Val(X.p) < yw * BASE && Digit(Val(X.p), yw, qt)
    modifies T1, T2
    ensures |T1.p| >= 2 && |T2.p| >= 3
    ensures qt <= z && z * yw < Val(X.p) + yw
  {
    DigitFacts(X.p, Y.p, i, t, Pow(i - t - 1), yw, qt);
    var guess := GuessDigit(X, Y, i, t, qt);
    z := CorrectDigit(X, Y, T1, T2, i, t, guess, qt);
  }

  lemma FindDigit(x: nat, d: nat) returns (t: nat)
    requires d > 0
    ensures Digit(x, d, t)
  {
    t := x / d;
    DigitIsQuotient(x, d, t);
  }

  /** One turn of the main loop: digit i - t - 1 of the quotient. */
  method DivStep(X: Mpi, Y: Mpi, Z: Mpi, T1: Mpi, T2: Mpi, i: nat, t: nat)
    requires X != Y && X != Z && X != T1 && X != T2 && Y != Z && Y != T1 && Y != T2 && Z != T1 && Z != T2 && T1 != T2
    requires NonNegative(X) && Y.s == 1 && t < i < |X.p| && t < |Y.p| && |T1.p| >= 2 && |T2.p| >= 3
    requires Pow(t) <= Val(Y.p) < Pow(t + 1) && Val(X.p) < Val(Y.p) * Pow(i - t)
    requires i - t - 1 < |Z.p| && Z.p[i - t - 1] == 0
    modifies X, Z`p, T1, T2
    ensures NonNegative(X) && |X.p| >= old(|X.p|) && |T1.p| >= 2 && |T2.p| >= 3
    ensures |Z.p| == old(|Z.p|) && forall k :: 0 <= k < |Z.p| && k != i - t - 1 ==> Z.p[k] == old(Z.p)[k]
    ensures Val(X.p) < Val(Y.p) * Pow(i - t - 1)
    ensures Val(Z.p) * Val(Y.p) + Val(X.p) == old(Val(Z.p)) * Val(Y.p) + old(Val(X.p))
  {
    var j := i - t - 1;
    ghost var z0, x0, y := Z.p, Val(X.p), Val(Y.p);
    ghost var yw := y * Pow(j);
    WeightedDivisor(y, j);
    ghost var qt := FindDigit(x0, yw);
    var z := PickDigit(X, Y, T1, T2, i, t, yw, qt);
    Z.p := Z.p[j := z];
    ghost var q := SubtractMultiple(X, Y, Z, T1, j, yw);
    assert Z.p == z0[j := q];
    DigitDone(z0, j, z, q, y, x0, yw, qt);
  }

  lemma WeightedDivisor(y: nat, j: nat)
    requires y > 0
    ensures y * Pow(j) > 0 && (y * Pow(j)) * BASE == y * Pow(j + 1)
  {
    MulMono(1, y, Pow(j));
  }

  lemma DigitDone(z0: seq<Limb>, j: nat, z: Limb, q: Limb, y: nat, x: nat, yw: nat, qt: nat)
    requires j < |z0| && z0[j] == 0 && yw == y * Pow(j)
    requires Digit(x, yw, qt) && qt <= z && q * yw <= x
    requires q == z || (q + 1 == z && x < (q + 1) * yw)
    ensures x - q * yw < yw
    ensures Val(z0[j := q]) * y + (x - q * yw) == Val(z0) * y + x
  {
    DigitFound(x, yw, qt, z, q);
    ValUpdate(z0, j, q);
    QuotientGrows(Val(z0), q, Pow(j), y);
  }

  lemma DigitFound(x: nat, yw: nat, qt: nat, z: nat, q: nat)
    requires Digit(x, yw, qt) && qt <= z && q * yw <= x
    requires q == z || (q + 1 == z && x < (q + 1) * yw)
    ensures q == qt && x - q * yw < yw
  {
    DigitUpper(x, yw, qt, q);
    DigitUpper(x, yw, qt, q + 1);
    Plus1(qt, yw);
  }

  lemma FirstDigitValue(z0: seq<Limb>, j: nat, c: Limb, y: nat)
    requires j < |z0| && forall k :: 0 <= k < |z0| ==> z0[k] == 0
    ensures Val(z0[j := c]) * y == c * (y * Pow(j))
  {
    ValUpdate(z0, j, c);
    ValZeros(z0);
    QuotientGrows(0, c, Pow(j), y);
  }

  lemma QuotientGrows(zv: nat, q: nat, w: nat, y: nat)
    ensures (zv + q * w) * y == zv * y + q * (y * w)
  {
    Distribute(y, zv, q * w);
    Assoc(q, w, y);
  }

  /** X = copy of A shifted left by k, with no zero limb left on top. */
  method CopyShifted(X: Mpi, A: Mpi, k: nat)
    requires X != A && X.p == [] && Val(A.p) > 0 && k < BITS
    modifies X
    ensures X.s == 1 && Val(X.p) == Val(A.p) * Pow2(k)
    ensures 1 <= |X.p| <= |A.p| + 1 && Pow(|X.p| - 1) <= Val(X.p)
  {
    assert A.p != [];
    X.Copy(A);
    X.s := 1;
    ExactLimbs(X.p);
    ghost var n, v := |X.p|, Val(X.p);
    ValBound(X.p);
    if k > 0 {
      ShiftCopy(X, k, n, v);
    }
  }

  method ShiftCopy(X: Mpi, k: nat, ghost n: nat, ghost v: nat)
    requires n == |X.p| >= 1 && v == Val(X.p) && Pow(n - 1) <= v < Pow(n) && k < BITS
    modifies X`p
    ensures Val(X.p) == v * Pow2(k) && 1 <= |X.p| <= n + 1 && Pow(|X.p| - 1) <= v * Pow2(k)
  {
    ShiftL(X, k);
    ShiftedLimbs(v, n, k, |X.p|);
  }

  lemma ExactLimbs(p: seq<Limb>)
    requires |p| >= 1 && Val(p) > 0 && (|p| > 1 ==> p[|p| - 1] != 0)
    ensures Pow(|p| - 1) <= Val(p)
  {
    if |p| > 1 {
      TopLimbWeight(p, |p|);
      assert p[..|p|] == p;
    }
  }

  lemma ShiftedLimbs(v: nat, n: nat, k: nat, m: nat)
    requires n >= 1 && Pow(n - 1) <= v < Pow(n) && k < BITS
    requires m == if n * BITS < NumBits(v) + k then BitsToLimbs(NumBits(v) + k) else n
    ensures 1 <= m <= n + 1 && Pow(m - 1) <= v * Pow2(k)
  {
    Scale(v, Pow2(k));
    NumBitsBounds(v);
    if n * BITS < NumBits(v) + k {
      var b := NumBits(v);
      PowIsPow2(n);
      BitsAtMost(v, BITS * n);
      MulMono(Pow2(b - 1), v, Pow2(k));
      Pow2Add(b - 1, k);
      PowIsPow2(m - 1);
      Pow2Mono(BITS * (m - 1), b - 1 + k);
    }
  }

  /** How far the operands are shifted so that the divisor's top limb has its bit 62 set. */
  method NormalisingShift(B: Mpi) returns (k: nat)
    ensures k < BITS
  {
    k := BitLen(B);
    k := k % BITS;
    k := if k < BITS - 1 then BITS - 1 - k else 0;
  }

  /** The first quotient digit: subtract Y << (64 * j) while it goes. */
  method TopDigit(X: Mpi, Y: Mpi, Z: Mpi, j: nat, ghost y: nat)
    requires X != Y && X != Z && Y != Z && NonNegative(X) && X.p != [] && Y.s == 1 && Y.p != []
    requires Val(Y.p) == y * Pow(j) && y > 0 && j < |Z.p| && forall k :: 0 <= k < |Z.p| ==> Z.p[k] == 0
    requires Val(X.p) < Val(Y.p) * BASE
    modifies X, Z`p
    ensures NonNegative(X) && |X.p| >= old(|X.p|) && |Z.p| == old(|Z.p|)
    ensures forall k :: 0 <= k < |Z.p| && k != j ==> Z.p[k] == 0
    ensures Val(X.p) < Val(Y.p) && Val(Z.p) * y + Val(X.p) == old(Val(X.p))
  {
    ghost var x0, yw, z0 := Val(X.p), Val(Y.p), Z.p;
    ghost var c: nat := 0;
    WeightedDivisor(y, j);
    var cmp := X.CmpMpi(Y);
    assert z0 == z0[j := 0];
    while cmp >= 0
      invariant NonNegative(X) && |X.p| >= old(|X.p|) && cmp == Cmp(Val(X.p), yw) && c < BASE
      invariant Z.p == z0[j := c] && Val(X.p) == x0 - c * yw
      decreases Val(X.p)
    {
      Plus1(c, yw);
      CancelLt(c + 1, BASE, yw);
      Z.p := Z.p[j := AddW(Z.p[j], 1)];
      c := c + 1;
      X.SubMpi(X, Y);
      cmp := X.CmpMpi(Y);
    }
    FirstDigitValue(z0, j, c, y);
  }

  /** The digit loop after the top digit: i runs from n down to t + 1. */
  method Digits(X: Mpi, Y: Mpi, Z: Mpi, T1: Mpi, T2: Mpi, n: nat, t: nat)
    requires X != Y && X != Z && X != T1 && X != T2 && Y != Z && Y != T1 && Y != T2 && Z != T1 && Z != T2 && T1 != T2
    requires NonNegative(X) && Y.s == 1 && t <= n < |X.p| && t < |Y.p| && |T1.p| >= 2 && |T2.p| >= 3
    requires Pow(t) <= Val(Y.p) < Pow(t + 1) && Val(X.p) < Val(Y.p) * Pow(n - t)
    requires n - t < |Z.p| && forall k :: 0 <= k < n - t ==> Z.p[k] == 0
    modifies X, Z`p, T1, T2
    ensures NonNegative(X) && X.p != [] && Z.p != [] && Val(X.p) < Val(Y.p)
    ensures Val(Z.p) * Val(Y.p) + Val(X.p) == old(Val(Z.p)) * Val(Y.p) + old(Val(X.p))
  {
    ghost var y, x0, z0 := Val(Y.p), Val(X.p), Val(Z.p);
    var i := n;
    while i > t
      invariant t <= i <= n < |X.p| && NonNegative(X) && |T1.p| >= 2 && |T2.p| >= 3 && n - t < |Z.p|
      invariant forall k :: 0 <= k < i - t ==> Z.p[k] == 0
      invariant Val(X.p) < y * Pow(i - t)
      invariant Val(Z.p) * y + Val(X.p) == z0 * y + x0
    {
      DivStep(X, Y, Z, T1, T2, i, t);
      i := i - 1;
    }
    assert y * Pow(0) == y;
  }

  /** |A| = Z * |B| + (X >> k) for |A| >= |B| > 0. */
  method DivAbs(A: Mpi, B: Mpi) returns (Z: Mpi, X: Mpi, k: nat)
    requires Val(A.p) >= Val(B.p) > 0
    ensures fresh(Z) && fresh(X) && Z != X && X.p != [] && Z.p != []
    ensures Val(Z.p) == Val(A.p) / Val(B.p) && Z.s == 1
    ensures Val(X.p) / Pow2(k) == Val(A.p) % Val(B.p)
  {
    X := new Mpi();
    var Y := new Mpi();
    var T1, T2;
    Z, T1, T2 := Scratch(|A.p|);
    k := NormalisingShift(B);
    CopyShifted(X, A, k);
    CopyShifted(Y, B, k);
    MulMono(Val(B.p), Val(A.p), Pow2(k));
    var n, t := |X.p| - 1, |Y.p| - 1;
    DivNormalised(X, Y, Z, T1, T2, n, t);
    Unscale(Val(A.p), Val(B.p), Pow2(k), Val(Z.p), Val(X.p));
  }

  /** The quotient, all zero, and the two scratch numbers of the digit loop. */
  method Scratch(n: nat) returns (Z: Mpi, T1: Mpi, T2: Mpi)
    ensures fresh(Z) && fresh(T1) && fresh(T2) && Z != T1 && Z != T2 && T1 != T2
    ensures Z.s == 1 && |Z.p| >= n + 2 && (forall i :: 0 <= i < |Z.p| ==> Z.p[i] == 0) && |T1.p| >= 2 && |T2.p| >= 3
  {
    Z := new Mpi();
    Z.Grow(n + 2);
    Z.Lset(0);
    T1 := new Mpi();
    T1.Grow(2);
    T2 := new Mpi();
    T2.Grow(3);
  }

  lemma Unscale(a: nat, b: nat, m: nat, q: nat, r: nat)
    requires b > 0 && m > 0 && q * (b * m) + r == a * m && r < b * m
    ensures q == a / b && r / m == a % b
  {
    Normalised(a, b, m, q, r);
    DivExact(a % b, m, r);
  }

  method DivNormalised(X: Mpi, Y: Mpi, Z: Mpi, T1: Mpi, T2: Mpi, n: nat, t: nat)
    requires X != Y && X != Z && X != T1 && X != T2 && Y != Z && Y != T1 && Y != T2 && Z != T1 && Z != T2 && T1 != T2
    requires X.s == 1 && Y.s == 1 && |X.p| == n + 1 && |Y.p| == t + 1 && |T1.p| >= 2 && |T2.p| >= 3
    requires Pow(t) <= Val(Y.p) <= Val(X.p)
    requires n < |Z.p| && forall i :: 0 <= i < |Z.p| ==> Z.p[i] == 0
    modifies X, Y, Z`p, T1, T2
    ensures Val(X.p) < old(Val(Y.p)) && Val(Z.p) * old(Val(Y.p)) + Val(X.p) == old(Val(X.p))
    ensures X.p != [] && Z.p != []
  {
    ValBound(X.p);
    ValBound(Y.p);
    NotShorter(Val(X.p), n, Val(Y.p), t);
    TopPhase(X, Y, Z, n, t);
    Digits(X, Y, Z, T1, T2, n, t);
  }

  lemma NotShorter(x: nat, n: nat, y: nat, t: nat)
    requires Pow(t) <= y <= x < Pow(n + 1)
    ensures t <= n
  {
    if n < t {
      PowMono(n + 1, t);
    }
  }

  /** Moves Y up under X, takes the top digit and moves Y back down. */
  method TopPhase(X: Mpi, Y: Mpi, Z: Mpi, n: nat, t: nat)
    requires X != Y && X != Z && Y != Z && X.s == 1 && Y.s == 1 && X.p != [] && Y.p != []
    requires t <= n && Pow(t) <= Val(Y.p) && Val(X.p) < Pow(n + 1)
    requires n - t < |Z.p| && forall i :: 0 <= i < |Z.p| ==> Z.p[i] == 0
    modifies X, Y, Z`p
    ensures NonNegative(X) && |X.p| >= old(|X.p|) && Y.s == 1 && |Y.p| >= old(|Y.p|) && |Z.p| == old(|Z.p|)
    ensures Val(Y.p) == old(Val(Y.p)) && Val(X.p) < Val(Y.p) * Pow(n - t)
    ensures forall i :: 0 <= i < |Z.p| && i != n - t ==> Z.p[i] == 0
    ensures Val(Z.p) * Val(Y.p) + Val(X.p) == old(Val(X.p))
  {
    ghost var y := Val(Y.p);
    PowIsPow2(n - t);
    TopFits(y, Val(X.p), n, t);
    ShiftL(Y, BITS * (n - t));
    TopDigit(X, Y, Z, n - t, y);
    ShiftR(Y, BITS * (n - t));
    DivExact(y, Pow(n - t), y * Pow(n - t));
  }

  lemma TopFits(y: nat, x: nat, n: nat, t: nat)
    requires t <= n && Pow(t) <= y && x < Pow(n + 1)
    ensures x < (y * Pow(n - t)) * BASE
  {
    MulMono(Pow(t), y, Pow(n - t));
    PowAdd(t, n - t);
  }

  datatype Status = Ok | BadInputData | NegativeValue | DivisionByZero | NotAcceptable

  /** C's integer division and remainder: the quotient is truncated towards zero. */
  function TruncDiv(a: int, b: int): int
    requires b != 0
  {
    var q := Magnitude(a) / Magnitude(b);
    if SignOf(a) == SignOf(b) then q else -q
  }

  function TruncRem(a: int, b: int): int
    requires b != 0
  {
    var r := Magnitude(a) % Magnitude(b);
    if a < 0 then -r else r
  }

  /** A = Q * B + R with |R| < |B| and R taking A's sign; these two facts determine Q and R. */
  lemma TruncDivision(a: int, b: int)
    requires b != 0
    ensures a == TruncDiv(a, b) * b + TruncRem(a, b)
    ensures Magnitude(TruncRem(a, b)) < Magnitude(b)
    ensures TruncRem(a, b) == 0 || SignOf(TruncRem(a, b)) == SignOf(a)
  {
    var q, m := Magnitude(a) / Magnitude(b), Magnitude(b);
    DivBounds(Magnitude(a), m);
    NegMul(q, b);
    NegMul(m, q);
  }

  /**
   Division with optional quotient and remainder.  Q must differ from R; Q may overwrite A only when
   no remainder is asked for and A is not negative, and B only when B is not negative: the code reads
   the operands' signs after it has stored Q.
   */
  method DivMpi(Q: Mpi?, R: Mpi?, A: Mpi, B: Mpi) returns (st: Status)
    requires Q != null ==> Q != R
    requires Q == A ==> R == null && A.s == 1
    requires Q == B ==> B.s == 1
    modifies Q, R
    ensures st == if old(B.Value()) == 0 then DivisionByZero else Ok
    ensures st == DivisionByZero ==>
              (Q != null ==> Q.s == old(Q.s) && Q.p == old(Q.p)) && (R != null ==> R.s == old(R.s) && R.p == old(R.p))
    ensures st == Ok && Q != null ==> Q.Value() == TruncDiv(old(A.Value()), old(B.Value())) && Q.p != []
    ensures st == Ok && R != null ==> R.Value() == TruncRem(old(A.Value()), old(B.Value()))
    ensures st == Ok && R != null && old(A.p) != [] ==> |R.p| >= old(|R.p|) && R.p != []
    ensures st == Ok && R != null && old(A.s) == 1 ==> R.s == 1
  {
    var cmp := B.CmpInt(0);
    if cmp == 0 {
      return DivisionByZero;
    }
    cmp := A.CmpAbs(B);
    if cmp < 0 {
      DivSmall(Q, R, A, Val(B.p));
      return Ok;
    }
    var Z, X, k := DivAbs(A, B);
    if Q != null {
      StoreQuotient(Q, Z, A, B);
    }
    if R != null {
      StoreRemainder(R, X, k, A);
    }
    st := Ok;
  }

  /** |A| < |B|: quotient zero, remainder A. */
  method DivSmall(Q: Mpi?, R: Mpi?, A: Mpi, ghost b: nat)
    requires Q != null ==> Q != R
    requires Q == A ==> R == null
    requires Val(A.p) < b
    modifies Q, R
    ensures Q != null ==> Val(Q.p) == 0 == old(Val(A.p)) / b && Q.p != []
    ensures R != null ==> R.Value() == old(A.Value()) && Val(R.p) == old(Val(A.p)) % b
    ensures R != null && old(A.p) != [] ==> |R.p| >= old(|R.p|) && R.p != []
    ensures R != null && old(A.s) == 1 ==> R.s == 1
  {
    ModUnique(Val(A.p), 0, Val(A.p), b);
    if Q != null {
      Q.Lset(0);
    }
    if R != null {
      R.Copy(A);
    }
  }

  method StoreQuotient(Q: Mpi, Z: Mpi, A: Mpi, B: Mpi)
    requires Q != Z && Z != A && Z != B && Z.p != [] && Z.s == 1
    requires Q == A ==> A.s == 1
    requires Q == B ==> B.s == 1
    modifies Q
    ensures Val(Q.p) == Val(Z.p) && Q.p != []
    ensures Q.s == if old(A.s) == old(B.s) then 1 else -1
  {
    Q.Copy(Z);
    Q.s := if A.s == B.s then 1 else -1;
  }

  method StoreRemainder(R: Mpi, X: Mpi, k: nat, A: Mpi)
    requires R != X && X != A && X.p != []
    modifies R, X
    ensures Val(R.p) == old(Val(X.p)) / Pow2(k)
    ensures R.s == if Val(R.p) == 0 then 1 else old(A.s)
    ensures |R.p| >= old(|R.p|) && R.p != []
  {
    ShiftR(X, k);
    X.s := A.s;
    R.Copy(X);
    var cmp := R.CmpInt(0);
    if cmp == 0 {
      R.s := 1;
    }
  }
}
