/** Congruence modulo n, and powers. */
module Congruence {
  import opened Arith
  import opened Bits

  ghost predicate Cong(a: int, b: int, n: int)
    requires n > 0
  {
    (a - b) % n == 0
  }

  lemma CongIntro(a: int, b: int, n: int, k: int)
    requires n > 0 && a - b == k * n
    ensures Cong(a, b, n)
  {
    ModUnique(a - b, k, 0, n);
  }

  lemma CongElim(a: int, b: int, n: int) returns (k: int)
    requires n > 0 && Cong(a, b, n)
    ensures a - b == k * n
  {
    k := (a - b) / n;
    DivBounds(a - b, n);
  }

  lemma CongRefl(a: int, n: int)
    requires n > 0
    ensures Cong(a, a, n)
  {
    CongIntro(a, a, n, 0);
  }

  lemma CongSym(a: int, b: int, n: int)
    requires n > 0 && Cong(a, b, n)
    ensures Cong(b, a, n)
  {
    var k := CongElim(a, b, n);
    NegMul(k, n);
    CongIntro(b, a, n, -k);
  }

  lemma CongTrans(a: int, b: int, c: int, n: int)
    requires n > 0 && Cong(a, b, n) && Cong(b, c, n)
    ensures Cong(a, c, n)
  {
    var j := CongElim(a, b, n);
    var k := CongElim(b, c, n);
    Distribute(n, j, k);
    CongIntro(a, c, n, j + k);
  }

  lemma CongMul(a: int, b: int, c: int, d: int, n: int)
    requires n > 0 && Cong(a, b, n) && Cong(c, d, n)
    ensures Cong(a * c, b * d, n)
  {
    var j := CongElim(a, b, n);
    var k := CongElim(c, d, n);
    calc {
      a * c - b * d;
      (a - b) * c + b * (c - d);
      (j * n) * c + b * (k * n);
      { Rotate(j, n, c); Rotate(k, b, n); }
      n * (j * c) + (b * k) * n;
      { Distribute(n, j * c, b * k); }
      (j * c + b * k) * n;
    }
    CongIntro(a * c, b * d, n, j * c + b * k);
  }

  lemma CongMod(a: int, n: int)
    requires n > 0
    ensures Cong(a % n, a, n)
  {
    DivBounds(a, n);
    NegMul(a / n, n);
    CongIntro(a % n, a, n, -(a / n));
  }

  /** Congruent numbers have the same residue. */
  lemma CongResidue(a: int, b: int, n: int)
    requires n > 0 && Cong(a, b, n)
    ensures a % n == b % n
  {
    var k := CongElim(a, b, n);
    DivBounds(b, n);
    Distribute(n, b / n, k);
    ModUnique(a, b / n + k, b % n, n);
  }

  /** A representative in [0, n) is the residue. */
  lemma CongCanonical(a: int, b: int, n: int)
    requires n > 0 && Cong(a, b, n) && 0 <= a < n
    ensures a == b % n
  {
    CongResidue(a, b, n);
    ModUnique(a, 0, a, n);
  }


  /** Every power of two is invertible modulo an odd number. */
  lemma InverseOfPow2(k: nat, n: nat) returns (inv: nat)
    requires n % 2 == 1
    ensures Cong(Pow2(k) * inv, 1, n)
  {
    if k == 0 {
      inv := 1;
      CongRefl(1, n);
    } else {
      var i := InverseOfPow2(k - 1, n);
      var h := (n + 1) / 2;
      CongIntro(2 * h, 1, n, 1);
      CongMul(2 * h, 1, Pow2(k - 1) * i, 1, n);
      inv := h * i;
      assert (2 * h) * (Pow2(k - 1) * i) == (2 * Pow2(k - 1)) * (h * i);
    }
  }

  /** A factor with an inverse cancels. */
  lemma CongCancel(x: int, y: int, r: int, inv: int, n: int)
    requires n > 0 && Cong(r * inv, 1, n) && Cong(x * r, y * r, n)
    ensures Cong(x, y, n)
  {
    CongRefl(inv, n);
    CongMul(x * r, y * r, inv, inv, n);
    Assoc(x, r, inv);
    Assoc(y, r, inv);
    CongRefl(x, n);
    CongRefl(y, n);
    CongMul(x, x, r * inv, 1, n);
    CongMul(y, y, r * inv, 1, n);
    CongSym(x * (r * inv), x, n);
    CongTrans(x, x * (r * inv), y * (r * inv), n);
    CongTrans(x, y * (r * inv), y, n);
  }
}
