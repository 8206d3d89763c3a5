/**
 Why a column program keeps the residue: it divides.  For a prime x^w - (s_1 x^e_1 + ... ) with x = 2^32,
 long division of the words of N takes one quotient word per high word, and each quotient word is added back
 at the places of the terms.  A program is right when its columns are the remainder of that division.
 */
module WordFolding {
  import opened Arith
  import opened Chunks
  import opened Congruence
  import opened NistReduction

  // ----- numbers as polynomials in 2^32

  /** The number a sequence of coefficients stands for, from coefficient i on. */
  function Poly(c: seq<int>, i: nat): int
    requires i <= |c|
    decreases |c| - i
  {
    if i == |c| then 0 else c[i] + W * Poly(c, i + 1)
  }

  /** Coefficient k, zero outside. */
  function Coef(c: seq<int>, k: int): int {
    if 0 <= k < |c| then c[k] else 0
  }

  lemma {:induction false} PolyLinear(c: seq<int>, a: seq<int>, s: int, b: seq<int>, i: nat)
    requires |c| == |a| == |b| && i <= |c| && forall k :: 0 <= k < |c| ==> c[k] == a[k] + s * b[k]
    ensures Poly(c, i) == Poly(a, i) + s * Poly(b, i)
    decreases |c| - i
  {
    if i < |c| {
      PolyLinear(c, a, s, b, i + 1);
      Distribute(s, b[i], W * Poly(b, i + 1));
      Rotate(W, s, Poly(b, i + 1));
      Assoc(W, s, Poly(b, i + 1));
    }
  }

  lemma {:induction false} PolyAppend(a: seq<int>, b: seq<int>, i: nat)
    requires i <= |a|
    ensures Poly(a + b, i) == Poly(a, i) + Pow32(|a| - i) * Poly(b, 0)
    decreases |a| - i
  {
    if i == |a| {
      PolySuffix(a, b, 0);
    } else {
      PolyAppend(a, b, i + 1);
      Assoc(W, Pow32(|a| - i - 1), Poly(b, 0));
    }
  }

  lemma {:induction false} PolySuffix(a: seq<int>, b: seq<int>, i: nat)
    requires i <= |b|
    ensures Poly(a + b, |a| + i) == Poly(b, i)
    decreases |b| - i
  {
    if i < |b| {
      PolySuffix(a, b, i + 1);
    }
  }

  lemma {:induction false} PolyZeros(c: seq<int>, i: nat)
    requires i <= |c| && forall k :: i <= k < |c| ==> c[k] == 0
    ensures Poly(c, i) == 0
    decreases |c| - i
  {
    if i < |c| {
      PolyZeros(c, i + 1);
    }
  }

  /** The coefficients moved up by e, n of them. */
  function Shifted(c: seq<int>, e: nat, n: nat): (r: seq<int>)
    ensures |r| == n && forall k :: 0 <= k < n ==> r[k] == Coef(c, k - e)
  {
    seq(n, k requires 0 <= k < n => Coef(c, k - e))
  }

  lemma PolyShifted(c: seq<int>, e: nat, n: nat)
    requires e + |c| <= n
    ensures Poly(Shifted(c, e, n), 0) == Pow32(e) * Poly(c, 0)
  {
    var low, high := seq(e, _ => 0), seq(n - e - |c|, _ => 0);
    var y := low + (c + high);
    assert |y| == n && forall k :: 0 <= k < n ==> y[k] == Coef(c, k - e);
    assert Shifted(c, e, n) == y;
    PolyAppend(low, c + high, 0);
    PolyZeros(low, 0);
    PolyAppend(c, high, 0);
    PolyZeros(high, 0);
    assert Pow32(|c|) * 0 == 0;
  }

  // ----- the terms of a prime

  /** s * x^e and so on. */
  datatype Terms = Done | Term(e: nat, s: int, more: Terms)

  function Value(terms: Terms): int {
    match terms
    case Done => 0
    case Term(e, s, more) => s * Pow32(e) + Value(more)
  }

  predicate Below(terms: Terms, w: nat) {
    match terms
    case Done => true
    case Term(e, s, more) => e < w && Below(more, w)
  }

  /** What the quotient q adds back at place k. */
  function Tap(terms: Terms, q: seq<int>, k: int): int {
    match terms
    case Done => 0
    case Term(e, s, more) => Tap(more, q, k) + s * Coef(q, k - e)
  }

  function Taps(terms: Terms, q: seq<int>, n: nat): (t: seq<int>)
    ensures |t| == n && forall k :: 0 <= k < n ==> t[k] == Tap(terms, q, k)
  {
    seq(n, k requires 0 <= k < n => Tap(terms, q, k))
  }

  /** All taps together are the terms times the quotient. */
  lemma {:induction false} TapsMultiply(terms: Terms, q: seq<int>, n: nat)
    requires Below(terms, |q|) && n == 2 * |q|
    ensures Poly(Taps(terms, q, n), 0) == Value(terms) * Poly(q, 0)
    decreases terms
  {
    if terms.Done? {
      PolyZeros(Taps(terms, q, n), 0);
      assert Value(terms) == 0;
    } else {
      TapsMultiply(terms.more, q, n);
      TapsOne(terms, q, n);
    }
  }

  lemma TapsOne(terms: Terms, q: seq<int>, n: nat)
    requires terms.Term? && terms.e < |q| && n == 2 * |q|
    requires Poly(Taps(terms.more, q, n), 0) == Value(terms.more) * Poly(q, 0)
    ensures Poly(Taps(terms, q, n), 0) == Value(terms) * Poly(q, 0)
  {
    var e, s, u, x := terms.e, terms.s, Value(terms.more), Poly(q, 0);
    PolyShifted(q, e, n);
    PolyLinear(Taps(terms, q, n), Taps(terms.more, q, n), s, Shifted(q, e, n), 0);
    TermTimes(s, Pow32(e), u, x);
  }

  lemma TermTimes(s: int, w: int, u: int, x: int)
    ensures (s * w + u) * x == u * x + s * (w * x)
  {
    Assoc(s, w, x);
    Distribute(x, s * w, u);
  }

  lemma TapStep(e: nat, s: int, more: Terms, q: seq<int>, k: int)
    ensures Tap(Term(e, s, more), q, k) == Tap(more, q, k) + s * Coef(q, k - e)
  {
  }

  /** u is the remainder and q the quotient of v by x^w minus the terms. */
  ghost predicate Divided(v: seq<int>, u: seq<int>, q: seq<int>, terms: Terms) {
    |u| == |q| && |v| == 2 * |q| && forall k :: 0 <= k < |q| ==> DividedAt(v, u, q, terms, k)
  }

  /** At place k. */
  ghost predicate DividedAt(v: seq<int>, u: seq<int>, q: seq<int>, terms: Terms, k: nat)
    requires |u| == |q| && |v| == 2 * |q| && k < |q|
  {
    u[k] == v[k] + Tap(terms, q, k) && q[k] == v[|q| + k] + Tap(terms, q, |q| + k)
  }

  lemma DividedSum(v: seq<int>, u: seq<int>, q: seq<int>, terms: Terms)
    requires Divided(v, u, q, terms)
    ensures Poly(u + q, 0) == Poly(v, 0) + Poly(Taps(terms, q, |v|), 0)
  {
    var t := Taps(terms, q, |v|);
    forall k | 0 <= k < |v|
      ensures (u + q)[k] == v[k] + 1 * t[k]
    {
      if k >= |q| {
        assert (u + q)[k] == q[k - |q|] && DividedAt(v, u, q, terms, k - |q|);
      } else {
        assert DividedAt(v, u, q, terms, k);
      }
    }
    PolyLinear(u + q, v, 1, t, 0);
  }

  lemma DividedCong(v: seq<int>, u: seq<int>, q: seq<int>, terms: Terms, p: nat)
    requires Divided(v, u, q, terms) && Below(terms, |q|) && p > 0 && p == Pow32(|q|) - Value(terms)
    ensures Cong(Poly(u, 0), Poly(v, 0), p)
  {
    DividedSum(v, u, q, terms);
    TapsMultiply(terms, q, |v|);
    PolyAppend(u, q, 0);
    QuotientTimes(Poly(u, 0), Poly(v, 0), Poly(q, 0), Pow32(|q|), Value(terms), p);
  }

  lemma QuotientTimes(u: int, v: int, q: int, x: int, t: int, p: int)
    requires p > 0 && p == x - t && u + x * q == v + t * q
    ensures Cong(u, v, p)
  {
    Distribute(q, p, t);
    CongIntro(u, v, p, -q);
  }

  // ----- programs

  lemma {:induction false} SumIsPoly(a: seq<Word>, prog: Program, u: seq<int>, i: nat)
    requires i <= |u| == |prog| && forall k :: 0 <= k < |u| ==> u[k] == At(a, k) + ColumnSum(a, prog[k])
    ensures Sum(a, prog, i) == Poly(u, i)
    decreases |u| - i
  {
    if i < |u| {
      SumIsPoly(a, prog, u, i + 1);
    }
  }

  lemma {:induction false} ValueIsPoly(a: seq<Word>, v: seq<int>, i: nat)
    requires i <= |a| && v == a
    ensures ValFrom(a, i, |a|) == Poly(v, i)
    decreases |a| - i
  {
    if i < |a| {
      ValueIsPoly(a, v, i + 1);
    }
  }

  /** The columns of the program, for given words. */
  function Columns(a: seq<Word>, prog: Program): (u: seq<int>)
    ensures |u| == |prog|
  {
    seq(|prog|, k requires 0 <= k < |prog| => At(a, k) + ColumnSum(a, prog[k]))
  }

  /** A program whose columns are the remainder of the division keeps the residue of every number it is given. */
  lemma ProgramKeepsResidue(a: seq<Word>, prog: Program, q: seq<int>, terms: Terms, p: nat)
    requires |a| == 2 * |prog| && Divided(a, Columns(a, prog), q, terms)
    requires Below(terms, |prog|) && p > 0 && p == Pow32(|prog|) - Value(terms)
    ensures Cong(Sum(a, prog, 0), ValFrom(a, 0, |a|), p)
  {
    DividedCong(a, Columns(a, prog), q, terms, p);
    SumIsPoly(a, prog, Columns(a, prog), 0);
    ValueIsPoly(a, a, 0);
  }
}
