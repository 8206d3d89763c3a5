/** Divisibility and greatest common divisors, independent of any algorithm. */
module Divisors {
  import opened Arith
  import opened Bits
  import opened Congruence

  ghost predicate Divides(d: int, a: int) {
    d > 0 && a % d == 0
  }

  ghost predicate Common(d: int, a: int, b: int) {
    Divides(d, a) && Divides(d, b)
  }

  /** The greatest common divisor by its universal property; zero only for two zeros. */
  ghost predicate IsGcd(g: int, a: int, b: int) {
    if a == 0 && b == 0 then g == 0
    else Common(g, a, b) && forall d :: Common(d, a, b) ==> Divides(d, g)
  }

  ghost predicate Coprime(a: int, b: int) {
    forall d :: Common(d, a, b) ==> d == 1
  }

  lemma DividesIntro(d: int, a: int, k: int)
    requires d > 0 && a == k * d
    ensures Divides(d, a)
  {
    ModUnique(a, k, 0, d);
  }

  lemma DividesElim(d: int, a: int) returns (k: int)
    requires Divides(d, a)
    ensures a == k * d
  {
    k := a / d;
    DivBounds(a, d);
  }

  lemma DividesLinear(d: int, a: int, b: int, x: int, y: int)
    requires Common(d, a, b)
    ensures Divides(d, a * x + b * y)
  {
    var j := DividesElim(d, a);
    var k := DividesElim(d, b);
    assert a * x == (j * x) * d && b * y == (k * y) * d;
    Distribute(d, j * x, k * y);
    DividesIntro(d, a * x + b * y, j * x + k * y);
  }

  lemma DividesMultiple(d: int, a: int, x: int)
    requires Divides(d, a)
    ensures Divides(d, a * x)
  {
    DividesLinear(d, a, a, x, 0);
  }

  lemma DividesLe(d: int, a: int)
    requires Divides(d, a) && a > 0
    ensures d <= a
  {
    var k := DividesElim(d, a);
    CancelLt(0, k, d);
    MulMono(1, k, d);
  }

  lemma Subtraction(d: int, a: int, b: int)
    ensures Common(d, a, b) <==> Common(d, a - b, b)
  {
    if Common(d, a, b) {
      DividesLinear(d, a, b, 1, -1);
    }
    if Common(d, a - b, b) {
      DividesLinear(d, a - b, b, 1, 1);
    }
  }

  /** An odd divisor of 2x divides x. */
  lemma OddDivisor(d: int, x: int)
    requires d % 2 == 1 && Divides(d, 2 * x)
    ensures Divides(d, x)
  {
    var k := DividesElim(d, 2 * x);
    ParityOfProduct(k, d);
    assert 2 * x == (2 * (k / 2)) * d;
    DividesIntro(d, x, k / 2);
  }

  lemma ParityOfProduct(k: int, d: int)
    ensures (k * d) % 2 == (k % 2) * (d % 2)
  {
    var j, r, h, t := k / 2, k % 2, d / 2, d % 2;
    assert (2 * j + r) * (2 * h + t) == 2 * (2 * (j * h) + j * t + h * r) + r * t;
    assert r * t == 0 || r * t == 1;
    ModUnique(k * d, 2 * (j * h) + j * t + h * r, r * t, 2);
  }

  lemma DivisorOfOdd(d: int, y: int)
    requires Divides(d, y) && y % 2 == 1
    ensures d % 2 == 1
  {
    var k := DividesElim(d, y);
    ParityOfProduct(k, d);
  }

  /** Factors of two on one side do not matter when the other side is odd. */
  lemma RemoveTwos(d: int, x: int, y: int, k: nat)
    requires y % 2 == 1
    ensures Common(d, x * Pow2(k), y) <==> Common(d, x, y)
  {
    if k > 0 {
      RemoveTwos(d, x, y, k - 1);
      var z := x * Pow2(k - 1);
      assert x * Pow2(k) == 2 * z;
      if Common(d, 2 * z, y) {
        DivisorOfOdd(d, y);
        OddDivisor(d, z);
      }
      if Common(d, z, y) {
        DividesMultiple(d, z, 2);
      }
    } else {
      assert x * 1 == x;
    }
  }

  /** gcd(2a, 2b) = 2 gcd(a, b). */
  lemma GcdDouble(g: int, a: int, b: int)
    requires IsGcd(g, a, b) && (a != 0 || b != 0)
    ensures IsGcd(2 * g, 2 * a, 2 * b)
  {
    var j := DividesElim(g, a);
    var k := DividesElim(g, b);
    DividesIntro(2 * g, 2 * a, j);
    DividesIntro(2 * g, 2 * b, k);
    forall d | Common(d, 2 * a, 2 * b)
      ensures Divides(d, 2 * g)
    {
      if d % 2 == 1 {
        OddDivisor(d, a);
        OddDivisor(d, b);
        DividesMultiple(d, g, 2);
      } else {
        HalfDivisor(d, a);
        HalfDivisor(d, b);
        var i := DividesElim(d / 2, g);
        DividesIntro(d, 2 * g, i);
      }
    }
  }

  lemma HalfDivisor(d: int, a: int)
    requires d % 2 == 0 && Divides(d, 2 * a)
    ensures Divides(d / 2, a)
  {
    var k := DividesElim(d, 2 * a);
    DividesIntro(d / 2, a, k);
  }

  lemma GcdScale(g: int, a: int, b: int, k: nat)
    requires IsGcd(g, a, b) && (a != 0 || b != 0)
    ensures IsGcd(g * Pow2(k), a * Pow2(k), b * Pow2(k))
  {
    if k == 0 {
      assert g * 1 == g && a * 1 == a && b * 1 == b;
    } else {
      GcdScale(g, a, b, k - 1);
      var w := Pow2(k - 1);
      CancelZero(a, w);
      CancelZero(b, w);
      GcdDouble(g * w, a * w, b * w);
      assert g * Pow2(k) == 2 * (g * w) && a * Pow2(k) == 2 * (a * w) && b * Pow2(k) == 2 * (b * w);
    }
  }

  lemma CancelZero(a: int, w: int)
    requires w > 0
    ensures a * w == 0 <==> a == 0
  {
    if a > 0 {
      MulMono(1, a, w);
    } else if a < 0 {
      MulMono(a, -1, w);
    }
  }

  lemma CoprimeIffGcdOne(g: int, a: int, b: int)
    requires b > 0 && IsGcd(g, a, b)
    ensures g == 1 <==> Coprime(a, b)
  {
    if g == 1 {
      forall d | Common(d, a, b)
        ensures d == 1
      {
        DividesLe(d, 1);
      }
    }
    if Coprime(a, b) {
      assert Common(g, a, b);
    }
  }

  /** An inverse modulo n exists only for numbers coprime to n. */
  lemma InverseOnlyIfCoprime(a: int, x: int, n: int)
    requires n > 1 && Cong(a * x, 1, n)
    ensures Coprime(a, n)
  {
    var k := CongElim(a * x, 1, n);
    NegMul(k, n);
    assert a * x + n * (-k) == 1;
    forall d | Common(d, a, n)
      ensures d == 1
    {
      CommonOfOne(d, a, n, x, -k);
    }
  }

  lemma CommonOfOne(d: int, a: int, n: int, x: int, y: int)
    requires Common(d, a, n) && a * x + n * y == 1
    ensures d == 1
  {
    DividesLinear(d, a, n, x, y);
    DividesLe(d, 1);
  }

  lemma CoprimeSym(x: int, y: int)
    requires Coprime(x, y)
    ensures Coprime(y, x)
  {
    forall d | Common(d, y, x)
      ensures d == 1
    {
      assert Common(d, x, y);
    }
  }

  lemma CoprimeSubtract(x: int, y: int)
    requires Coprime(x, y)
    ensures Coprime(x - y, y)
  {
    var z := x - y;
    forall d | Common(d, z, y)
      ensures d == 1
    {
      Subtraction(d, x, y);
    }
  }

  // ----- Bezout and modular inverses

  /** Bezout coefficients of coprime numbers. */
  lemma BezoutPair(a: nat, b: nat) returns (x: int, y: int)
    requires Coprime(a, b)
    ensures a * x + b * y == 1
    decreases a + b, b
  {
    if a == 0 {
      OnlyOne(b, a);
      x, y := 0, 1;
    } else if b == 0 {
      OnlyOne(a, b);
      x, y := 1, 0;
    } else if a >= b {
      CoprimeSubtract(a, b);
      var u, v := BezoutPair(a - b, b);
      x, y := u, v - u;
      assert a * u + b * (v - u) == (a - b) * u + b * v;
    } else {
      CoprimeSym(a, b);
      var u, v := BezoutPair(b, a);
      x, y := v, u;
    }
  }

  lemma OnlyOne(a: nat, z: nat)
    requires z == 0 && (Coprime(a, z) || Coprime(z, a))
    ensures a == 1
  {
    assert a == 0 ==> Common(2, a, z) && Common(2, z, a);
    if a > 0 {
      ModUnique(a, 1, 0, a);
      ModUnique(0, 0, 0, a);
      assert Common(a, a, z) && Common(a, z, a);
    }
  }

  /** Numbers coprime to n have an inverse modulo n. */
  lemma CoprimeInverse(a: nat, n: nat) returns (x: int)
    requires n > 0 && Coprime(a, n)
    ensures Cong(a * x, 1, n)
  {
    var y;
    x, y := BezoutPair(a, n);
    CongIntro(a * x, 1, n, -y);
  }

  lemma SwapFactors(a: int, b: int, c: int)
    ensures (a * b) * c == a * (b * c) == b * (a * c)
  {
    Assoc(a, b, c);
    Rotate(a, b, c);
  }

  /** A product is coprime to n exactly when both factors are. */
  lemma CoprimeProduct(a: nat, b: nat, n: nat)
    requires n > 1
    ensures Coprime(a * b, n) <==> Coprime(a, n) && Coprime(b, n)
  {
    if Coprime(a * b, n) {
      var x := CoprimeInverse(a * b, n);
      SwapFactors(a, b, x);
      InverseOnlyIfCoprime(a, b * x, n);
      InverseOnlyIfCoprime(b, a * x, n);
    }
    if Coprime(a, n) && Coprime(b, n) {
      var x := CoprimeInverse(a, n);
      var y := CoprimeInverse(b, n);
      CongMul(a * x, 1, b * y, 1, n);
      assert (a * x) * (b * y) == (a * b) * (x * y) by {
        SwapFactors(a, x, b * y);
        SwapFactors(x, b, y);
        SwapFactors(a, b, x * y);
      }
      InverseOnlyIfCoprime(a * b, x * y, n);
    }
  }

  lemma CoprimeCong(a: nat, b: nat, n: nat)
    requires n > 1 && Cong(a, b, n) && Coprime(a, n)
    ensures Coprime(b, n)
  {
    var x := CoprimeInverse(a, n);
    CongSym(a, b, n);
    CongRefl(x, n);
    CongMul(b, a, x, x, n);
    CongTrans(b * x, a * x, 1, n);
    InverseOnlyIfCoprime(b, x, n);
  }

  // ----- primes

  ghost predicate Prime(p: int) {
    p > 1 && forall d :: Divides(d, p) ==> d == 1 || d == p
  }

  /** Below a prime everything but zero is coprime to it. */
  lemma PrimeCoprime(k: int, p: int)
    requires Prime(p) && 0 < k < p
    ensures Coprime(k, p)
  {
    forall d | Common(d, k, p)
      ensures d == 1
    {
      DividesLe(d, k);
    }
  }

  /** A prime divides a number or is coprime to it. */
  lemma PrimeDividesOrCoprime(a: nat, p: nat)
    requires Prime(p)
    ensures Divides(p, a) <==> !Coprime(a, p)
  {
    if Divides(p, a) {
      ModUnique(p, 1, 0, p);
      assert Common(p, a, p);
    } else {
      forall d | Common(d, a, p)
        ensures d == 1
      {
        assert d == 1 || d == p;
      }
    }
  }
}
