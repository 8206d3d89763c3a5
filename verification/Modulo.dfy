/** Residues: mod_mpi by an arbitrary modulus, mod_int by a half-word one, and division by an integer. */
module Modulo {
  import opened Arith
  import opened Limbs
  import opened Bits
  import opened Mpis
  import opened MpiShift
  import opened WordDivision
  import opened Division

  /** The truncated remainder has the residue of the dividend. */
  lemma RemainderResidue(a: int, b: int)
    requires b > 0
    ensures TruncRem(a, b) % b == a % b
  {
    TruncDivision(a, b);
    var r := TruncRem(a, b);
    DivBounds(r, b);
    Distribute(b, TruncDiv(a, b), r / b);
    ModUnique(a, TruncDiv(a, b) + r / b, r % b, b);
  }

  /** R = A mod B in [0, B).  R may be A but not B. */
  method ModMpi(R: Mpi, A: Mpi, B: Mpi) returns (st: Status)
    requires R != B
    modifies R
    ensures st == if B.Value() < 0 then NegativeValue else if B.Value() == 0 then DivisionByZero else Ok
    ensures st == Ok ==> R.Value() == old(A.Value()) % B.Value()
    ensures st == Ok && old(A.p) != [] ==> |R.p| >= old(|R.p|) && R.p != []
    ensures st == Ok && old(A.s) == 1 ==> R.s == 1
    ensures st != Ok ==> R.s == old(R.s) && R.p == old(R.p)
  {
    var cmp := B.CmpInt(0);
    if cmp < 0 {
      return NegativeValue;
    }
    st := DivMpi(null, R, A, B);
    if st != Ok {
      return;
    }
    RemainderResidue(old(A.Value()), B.Value());
    TruncDivision(old(A.Value()), B.Value());
    BringIntoRange(R, B);
  }

  /** The two correction loops: add B while negative, subtract it while not below B. */
  method BringIntoRange(R: Mpi, B: Mpi)
    requires R != B && B.Value() > 0
    modifies R
    ensures R.Value() == old(R.Value()) % B.Value()
    ensures old(R.p) != [] ==> |R.p| >= old(|R.p|)
    ensures 0 <= old(R.Value()) < B.Value() ==> R.s == old(R.s)
  {
    ghost var r0, b := R.Value(), B.Value();
    var cmp := R.CmpInt(0);
    while cmp < 0
      invariant cmp == Cmp(R.Value(), 0) && SameResidue(R.Value(), r0, b)
      invariant old(R.p) != [] ==> |R.p| >= old(|R.p|)
      invariant 0 <= r0 ==> R.s == old(R.s) && R.Value() == r0
      decreases b - R.Value()
    {
      SameResidueStep(R.Value(), r0, b, 1);
      R.AddMpi(R, B);
      cmp := R.CmpInt(0);
    }
    cmp := R.CmpMpi(B);
    while cmp >= 0
      invariant cmp == Cmp(R.Value(), b) && SameResidue(R.Value(), r0, b) && R.Value() >= 0
      invariant old(R.p) != [] ==> |R.p| >= old(|R.p|)
      invariant 0 <= r0 < b ==> R.s == old(R.s) && R.Value() == r0
      decreases R.Value()
    {
      SameResidueStep(R.Value(), r0, b, -1);
      R.SubMpi(R, B);
      cmp := R.CmpMpi(B);
    }
    ModUnique(R.Value(), 0, R.Value(), b);
  }

  ghost predicate SameResidue(x: int, y: int, b: int)
    requires b > 0
  {
    x % b == y % b
  }

  lemma SameResidueStep(x: int, y: int, b: int, k: int)
    requires b > 0 && SameResidue(x, y, b)
    ensures SameResidue(x + k * b, y, b)
  {
    DivBounds(x, b);
    Distribute(b, x / b, k);
    ModUnique(x + k * b, x / b + k, x % b, b);
  }

  lemma HalfIsPow2()
    ensures Pow2(32) == HALF
  {
    assert Pow2(8) == 0x100;
    Squared(8, 0x100);
    Squared(16, 0x1_0000);
  }

  /** y = (y << 32 | half) mod b, the step the loop performs twice per limb. */
  method ModHalf(y: Limb, half: Limb, b: Limb) returns (y': Limb)
    requires 0 < b <= HALF && y < b && half < HALF
    ensures y' == (y * HALF + half) % b
  {
    HalfIsPow2();
    OrIsAdd(y, half, 32, y * HALF);
    var t := Or(y * HALF, half);
    DivBounds(t, b);
    var z := t / b;
    y' := t - z * b;
  }

  /** Reducing before appending the next half word changes nothing. */
  lemma ModAppend(v: nat, h: nat, x: nat, b: nat)
    requires b > 0
    ensures ((v % b) * h + x) % b == (v * h + x) % b
  {
    var q, r := v / b, v % b;
    DivBounds(v, b);
    var t := r * h + x;
    DivBounds(t, b);
    assert v * h + x == b * (q * h + t / b) + t % b by {
      assert v * h == (q * b) * h + r * h;
      assert (q * b) * h == b * (q * h);
      Distribute(b, q * h, t / b);
    }
    ModUnique(v * h + x, q * h + t / b, t % b, b);
  }

  /**
   r = A mod b.  The half-word division keeps its running remainder in half a limb, so b must fit
   half a limb too; b = 2 is answered from the lowest limb, which must exist.
   */
  method ModInt(A: Mpi, b: int) returns (st: Status, r: Limb)
    requires b <= HALF
    requires b == 2 ==> A.p != []
    ensures st == if b == 0 then DivisionByZero else if b < 0 then NegativeValue else Ok
    ensures st == Ok ==> r == A.Value() % b
  {
    r := 0;
    if b == 0 {
      return DivisionByZero, 0;
    }
    if b < 0 {
      return NegativeValue, 0;
    }
    if b == 1 {
      return Ok, 0;
    }
    if b == 2 {
      assert Val(A.p) % 2 == A.p[0] % 2;
      return Ok, A.p[0] % 2;
    }
    var y := ModLoop(A, b);
    NegResidue(Val(A.p), b);
    if A.s < 0 && y != 0 {
      y := b - y;
    }
    return Ok, y;
  }

  /** Long division by a half word, two half words per limb, from the top. */
  method ModLoop(A: Mpi, b: Limb) returns (y: Limb)
    requires 0 < b <= HALF
    ensures y == Val(A.p) % b
  {
    y := 0;
    var i := |A.p|;
    assert A.p[i..] == [];
    while i > 0
      invariant 0 <= i <= |A.p| && y == Val(A.p[i..]) % b
    {
      var x := A.p[i - 1];
      ModLimb(Val(A.p[i..]), x / HALF, x % HALF, b);
      y := ModHalf(y, x / HALF, b);
      y := ModHalf(y, x % HALF, b);
      assert A.p[i - 1..][1..] == A.p[i..];
      i := i - 1;
    }
    assert A.p[0..] == A.p;
  }

  lemma ModLimb(v: nat, xh: nat, xl: nat, b: nat)
    requires b > 0
    ensures ((((v % b) * HALF + xh) % b) * HALF + xl) % b == (xh * HALF + xl + BASE * v) % b
  {
    ModAppend(v, HALF, xh, b);
    ModAppend(v * HALF + xh, HALF, xl, b);
    assert (v * HALF + xh) * HALF + xl == xh * HALF + xl + BASE * v;
  }

  lemma NegResidue(v: int, b: int)
    requires b > 0
    ensures (-v) % b == if v % b == 0 then 0 else b - v % b
  {
    var q, r := v / b, v % b;
    DivBounds(v, b);
    NegMul(q, b);
    Plus1(-q - 1, b);
    if r == 0 {
      ModUnique(-v, -q, 0, b);
    } else {
      ModUnique(-v, -q - 1, b - r, b);
    }
  }

  /** Division by a machine integer. */
  method DivInt(Q: Mpi?, R: Mpi?, A: Mpi, b: int) returns (st: Status)
    requires Magnitude(b) < BASE
    requires Q != null ==> Q != R
    requires Q == A ==> R == null && A.s == 1
    modifies Q, R
    ensures st == if b == 0 then DivisionByZero else Ok
    ensures st == Ok && Q != null ==> Q.Value() == TruncDiv(old(A.Value()), b) && Q.p != []
    ensures st == Ok && R != null ==> R.Value() == TruncRem(old(A.Value()), b)
  {
    var B := new Mpi.OfInt(b);
    st := DivMpi(Q, R, A, B);
  }
}
