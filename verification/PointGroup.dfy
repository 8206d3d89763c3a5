/** The group law a curve promises, and integer multiples of a point. */
module PointGroup {
  import opened Divisors

  /**
   Points with the operations of ecp_double_jac / ecp_add_mixed (add) and ecp_safe_invert_jac (neg).
   `misread` is what the X and Y of the neutral point, both 1, stand for when its Z is taken to be 1.
   */
  datatype Group<!G> = Group(zero: G, add: (G, G) -> G, neg: G -> G, misread: G)

  /** The laws of an abelian group for three given points. */
  ghost predicate Law<G>(g: Group<G>, a: G, b: G, c: G) {
    && g.add(a, g.zero) == a
    && g.add(a, g.neg(a)) == g.zero
    && g.add(a, b) == g.add(b, a)
    && g.add(g.add(a, b), c) == g.add(a, g.add(b, c))
  }

  ghost predicate Abelian<G(!new)>(g: Group<G>) {
    forall a, b, c :: Law(g, a, b, c)
  }

  /** P added to itself n times. */
  function Times<G>(g: Group<G>, n: nat, P: G): G {
    if n == 0 then g.zero else g.add(Times(g, n - 1, P), P)
  }

  /** The integer multiple n * P. */
  function Mul<G>(g: Group<G>, n: int, P: G): G {
    if n >= 0 then Times(g, n, P) else g.neg(Times(g, -n, P))
  }

  lemma Cancel<G(!new)>(g: Group<G>, a: G, b: G, c: G)
    requires Abelian(g) && g.add(a, c) == g.add(b, c)
    ensures a == b
  {
    assert Law(g, a, c, g.neg(c)) && Law(g, b, c, g.neg(c)) && Law(g, c, c, c);
  }

  /** One more P, on either side of zero. */
  lemma MulNext<G(!new)>(g: Group<G>, n: int, P: G)
    requires Abelian(g)
    ensures Mul(g, n + 1, P) == g.add(Mul(g, n, P), P)
  {
    if n < 0 {
      var s, t := Times(g, -n, P), Times(g, -n - 1, P);
      assert s == g.add(t, P);
      assert Law(g, g.neg(s), P, t) && Law(g, P, t, t) && Law(g, g.neg(s), s, s) && Law(g, g.neg(t), t, t);
      assert Law(g, s, s, s) && Law(g, t, t, t);
      Cancel(g, g.add(g.neg(s), P), g.neg(t), t);
      NegZero(g);
    }
  }

  lemma NegZero<G(!new)>(g: Group<G>)
    requires Abelian(g)
    ensures g.neg(g.zero) == g.zero
  {
    assert Law(g, g.zero, g.neg(g.zero), g.zero) && Law(g, g.neg(g.zero), g.zero, g.zero);
  }

  lemma {:induction false} MulAddNat<G(!new)>(g: Group<G>, a: int, b: nat, P: G)
    requires Abelian(g)
    ensures Mul(g, a + b, P) == g.add(Mul(g, a, P), Mul(g, b, P))
  {
    if b == 0 {
      assert Law(g, Mul(g, a, P), g.zero, g.zero);
    } else {
      MulAddNat(g, a, b - 1, P);
      MulNext(g, a + b - 1, P);
      MulNext(g, b - 1, P);
      assert Law(g, Mul(g, a, P), Mul(g, b - 1, P), P);
    }
  }

  lemma MulAdd<G(!new)>(g: Group<G>, a: int, b: int, P: G)
    requires Abelian(g)
    ensures Mul(g, a + b, P) == g.add(Mul(g, a, P), Mul(g, b, P))
  {
    if b >= 0 {
      MulAddNat(g, a, b, P);
    } else {
      MulAddNat(g, a + b, -b, P);
      MulAddNat(g, b, -b, P);
      var s, t, v := Mul(g, a + b, P), Mul(g, -b, P), Mul(g, b, P);
      assert Law(g, s, t, v) && Law(g, t, v, v);
      assert Law(g, s, s, s);
    }
  }

  lemma MulNeg<G(!new)>(g: Group<G>, a: int, P: G)
    requires Abelian(g)
    ensures Mul(g, -a, P) == g.neg(Mul(g, a, P))
  {
    MulAdd(g, -a, a, P);
    var v, t := Mul(g, -a, P), Mul(g, a, P);
    assert Law(g, t, g.neg(t), t);
    Cancel(g, v, g.neg(t), t);
  }

  lemma MulDouble<G(!new)>(g: Group<G>, a: int, P: G)
    requires Abelian(g)
    ensures g.add(Mul(g, a, P), Mul(g, a, P)) == Mul(g, 2 * a, P)
  {
    MulAdd(g, a, a, P);
  }

  lemma MulOne<G(!new)>(g: Group<G>, P: G)
    requires Abelian(g)
    ensures Mul(g, 1, P) == P
  {
    assert Law(g, P, g.zero, P);
    assert Times(g, 1, P) == g.add(Times(g, 0, P), P);
  }

  /** m * P = -((n - m) * P) when n * P is the neutral point: the fix-up for even scalars. */
  lemma MulComplement<G(!new)>(g: Group<G>, n: int, m: int, P: G)
    requires Abelian(g) && Mul(g, n, P) == g.zero
    ensures g.neg(Mul(g, n - m, P)) == Mul(g, m, P)
  {
    MulNeg(g, n - m, P);
    MulAdd(g, m - n, n, P);
    assert Law(g, Mul(g, m - n, P), g.zero, g.zero);
  }

  // ----- orders

  lemma {:induction false} TimesZero<G(!new)>(g: Group<G>, n: nat)
    requires Abelian(g)
    ensures Times(g, n, g.zero) == g.zero
  {
    if n > 0 {
      TimesZero(g, n - 1);
      assert Law(g, g.zero, g.zero, g.zero);
    }
  }

  lemma {:induction false} TimesMul<G(!new)>(g: Group<G>, a: nat, b: int, P: G)
    requires Abelian(g)
    ensures Times(g, a, Mul(g, b, P)) == Mul(g, a * b, P)
  {
    if a > 0 {
      TimesMul(g, a - 1, b, P);
      MulAdd(g, (a - 1) * b, b, P);
      assert (a - 1) * b + b == a * b;
    }
  }

  /** A multiple of a number that kills P kills P. */
  lemma MulKilled<G(!new)>(g: Group<G>, x: int, a: int, P: G)
    requires Abelian(g) && Mul(g, a, P) == g.zero
    ensures Mul(g, x * a, P) == g.zero
  {
    var n: nat := if x >= 0 then x else -x;
    TimesMul(g, n, a, P);
    TimesZero(g, n);
    if x < 0 {
      MulNeg(g, n * a, P);
      NegZero(g);
      assert x * a == -(n * a);
    }
  }

  /** So does every combination of two such numbers. */
  lemma CombinationKilled<G(!new)>(g: Group<G>, a: int, b: int, x: int, y: int, P: G)
    requires Abelian(g) && Mul(g, a, P) == g.zero && Mul(g, b, P) == g.zero
    ensures Mul(g, x * a + y * b, P) == g.zero
  {
    MulKilled(g, x, a, P);
    MulKilled(g, y, b, P);
    MulAdd(g, x * a, y * b, P);
    assert Law(g, g.zero, g.zero, g.zero);
  }

  /** Doubling kills no multiple of a point of odd order. */
  lemma OddOrderDouble<G(!new)>(g: Group<G>, n: int, h: int, P: G)
    requires Abelian(g) && n % 2 == 1 && Mul(g, n, P) == g.zero && Mul(g, 2 * h, P) == g.zero
    ensures Mul(g, h, P) == g.zero
  {
    var k := (n - 1) / 2;
    CombinationKilled(g, n, 2 * h, h, -k, P);
    assert h * n + (-k) * (2 * h) == h by {
      assert n == 2 * k + 1;
      assert h * (2 * k + 1) == 2 * (h * k) + h;
    }
  }

  /** n is the order of P. */
  ghost predicate ExactOrder<G>(g: Group<G>, P: G, n: nat) {
    n > 0 && Mul(g, n, P) == g.zero && forall k :: 0 < k < n ==> Mul(g, k, P) != g.zero
  }

  /** Coprime numbers do not both kill a point other than the neutral one. */
  lemma CoprimeKilled<G(!new)>(g: Group<G>, a: nat, b: nat, P: G)
    requires Abelian(g) && Coprime(a, b) && Mul(g, a, P) == g.zero && Mul(g, b, P) == g.zero
    ensures P == g.zero
  {
    var x, y := BezoutPair(a, b);
    CombinationKilled(g, a, b, x, y, P);
    MulOne(g, P);
  }

  /** In a group of prime order every point but the neutral one has that order. */
  lemma PrimeOrder<G(!new)>(g: Group<G>, P: G, n: nat)
    requires Abelian(g) && Prime(n) && Mul(g, n, P) == g.zero && P != g.zero
    ensures ExactOrder(g, P, n)
  {
    forall k | 0 < k < n
      ensures Mul(g, k, P) != g.zero
    {
      PrimeCoprime(k, n);
      if Mul(g, k, P) == g.zero {
        CoprimeKilled(g, k, n, P);
      }
    }
  }
}
