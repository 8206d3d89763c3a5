/** Reduction modulo the field prime: p192 in 64-bit chunks, and ecp_modp on top of every quasi-reduction. */
module FieldReduction {
  import opened Arith
  import opened Limbs
  import opened Bits
  import opened Chunks
  import opened Mpis
  import opened MpiShift
  import opened Division
  import opened Modulo
  import opened Congruence
  import opened NistPrimes
  import opened SpecialPrimes

  // ----- p192 = 2^192 - 2^64 - 1

  const P192: nat := BASE * BASE * BASE - BASE - 1

  /** dst += src, counting the overflow. */
  method Add64(dst: Limb, src: Limb, carry: Limb) returns (d: Limb, c: Limb)
    requires carry < 10
    ensures d + BASE * c == dst + src + BASE * carry && carry <= c <= carry + 1
  {
    d := AddW(dst, src);
    c := if d < src then carry + 1 else carry;
  }

  /** dst += carry; the carry becomes the overflow. */
  method Carry64(dst: Limb, carry: Limb) returns (d: Limb, c: Limb)
    ensures d + BASE * c == dst + carry && c <= 1
  {
    d := AddW(dst, carry);
    c := if d < carry then 1 else 0;
  }

  function Six(a: seq<int>): int
    requires |a| >= 6
  {
    a[0] + BASE * (a[1] + BASE * (a[2] + BASE * (a[3] + BASE * (a[4] + BASE * a[5]))))
  }

  /** The three columns A0 + A3 + A5, A1 + A3 + A4 + A5 and A2 + A4 + A5. */
  function Folded(a: seq<int>): int
    requires |a| >= 6
  {
    (a[0] + a[3] + a[5]) + BASE * ((a[1] + a[3] + a[4] + a[5]) + BASE * (a[2] + a[4] + a[5]))
  }

  /** The six limbs of a number below 2^384. */
  lemma SixLimbs(p: seq<Limb>)
    requires |p| >= 6 && Val(p) < Pow(6)
    ensures Val(p) == Six(p)
  {
    HighLimbs(p, 0, 6);
    assert p[0..] == p;
    var q := p[0..6];
    assert Val(q) == q[0] + BASE * Val(q[1..]);
    assert q[1..][1..] == q[2..] && q[2..][1..] == q[3..] && q[3..][1..] == q[4..] && q[4..][1..] == q[5..]
        && q[5..][1..] == [];
    assert Val(q[1..]) == q[1] + BASE * Val(q[2..]);
    assert Val(q[2..]) == q[2] + BASE * Val(q[3..]);
    assert Val(q[3..]) == q[3] + BASE * Val(q[4..]);
    assert Val(q[4..]) == q[4] + BASE * Val(q[5..]);
    assert Val(q[5..]) == q[5] + BASE * Val([]);
  }

  lemma FourLimbs(p: seq<Limb>)
    requires |p| >= 4 && forall k :: 4 <= k < |p| ==> p[k] == 0
    ensures Val(p) == p[0] + BASE * (p[1] + BASE * (p[2] + BASE * p[3]))
  {
    ValTrim(p, 4);
    var q := p[..4];
    assert q[1..][1..] == q[2..] && q[2..][1..] == q[3..] && q[3..][1..] == [];
    assert Val(q) == q[0] + BASE * Val(q[1..]);
    assert Val(q[1..]) == q[1] + BASE * Val(q[2..]);
    assert Val(q[2..]) == q[2] + BASE * Val(q[3..]);
    assert Val(q[3..]) == q[3] + BASE * Val([]);
  }

  method Columns192(a: seq<Limb>) returns (x0: Limb, x1: Limb, x2: Limb, c: Limb)
    requires |a| >= 6
    ensures Four(x0, x1, x2, c) == Folded(a)
  {
    c := 0;
    x0, c := Add64(a[0], a[3], c);
    x0, c := Add64(x0, a[5], c);
    x1, c := Carry64(a[1], c);
    x1, c := Add64(x1, a[3], c);
    x1, c := Add64(x1, a[4], c);
    x1, c := Add64(x1, a[5], c);
    x2, c := Carry64(a[2], c);
    x2, c := Add64(x2, a[4], c);
    x2, c := Add64(x2, a[5], c);
  }

  function Four(x0: Limb, x1: Limb, x2: Limb, x3: Limb): int {
    x0 + BASE * (x1 + BASE * (x2 + BASE * x3))
  }

  lemma Fold192(a: seq<Limb>)
    requires |a| >= 6 && Val(a) < Pow(6)
    ensures Cong(Folded(a), Val(a), P192)
  {
    SixLimbs(a);
    CongIntro(Folded(a), Six(a), P192, -(a[3] + BASE * a[4] + (BASE * BASE + 1) * a[5]));
  }

  /** ecp_mod_p192, in place. */
  method ModP192(N: Mpi)
    requires NonNegative(N) && Val(N.p) < Pow(6)
    modifies N
    ensures N.s == old(N.s) && Cong(N.Value(), old(N.Value()), P192)
  {
    ghost var v := Val(N.p);
    N.Grow(6);
    Fold192(N.p);
    var x0, x1, x2, c := Columns192(N.p);
    StoreFour(N, x0, x1, x2, c);
    SignedResult(Val(N.p), v, N.s, N.s, Val(N.p), P192);
  }

  /** The three chunks, the carry after them, and zeros above. */
  method StoreFour(N: Mpi, x0: Limb, x1: Limb, x2: Limb, c: Limb)
    requires |N.p| >= 4
    modifies N`p
    ensures Val(N.p) == Four(x0, x1, x2, c)
  {
    N.p := N.p[0 := x0][1 := x1][2 := x2][3 := c];
    var i := 4;
    while i < |N.p|
      invariant 4 <= i <= |N.p| && N.p[..4] == [x0, x1, x2, c]
      invariant forall k :: 4 <= k < i ==> N.p[k] == 0
    {
      N.p := N.p[i := 0];
      i := i + 1;
    }
    ghost var q := N.p[..4];
    assert N.p[0] == q[0] && N.p[1] == q[1] && N.p[2] == q[2] && N.p[3] == q[3];
    FourLimbs(N.p);
  }

  // ----- ecp_modp

  /** Which quasi-reduction the group uses; Plain stands for a null modp pointer. */
  datatype Reduction =
    | Plain
    | Nist192 | Nist224 | Nist256 | Nist384
    | Mersenne(width: nat, shift: nat, cap: nat)
    | Fold(R: Limb, width: nat, shift: nat)
    | Golden(w: nat, u: nat, t: nat)
    | Koblitz(R: Limb, limbs: nat, adjust: nat, shift: nat)

  /** The prime a reduction is for. */
  ghost predicate ReducesModulo(r: Reduction, p: nat) {
    p > 0 &&
    match r
    case Plain => true
    case Nist192 => p == P192
    case Nist224 => p == P224
    case Nist256 => p == P256
    case Nist384 => p == P384
    case Mersenne(width, shift, cap) => width > 0 && shift < BITS && p == Cut(width - 1, shift) - 1
    case Fold(R, width, shift) => width > 0 && shift < BITS && p == Cut(width - 1, shift) - R
    case Golden(w, u, t) => t < BITS && Cut(w, 0) == Cut(u, t) * Cut(u, t) && p == Cut(w, 0) - Cut(u, t) - 1
    case Koblitz(R, limbs, adjust, shift) =>
      R > 1 && shift < BITS && adjust <= limbs && adjust <= 1 && (adjust == 1 <==> shift > 0)
      && p == Cut(limbs - adjust, shift) - R
  }

  /** The numbers a reduction has room for, when it does not check that itself. */
  ghost predicate HasRoom(r: Reduction, v: nat) {
    match r
    case Nist192 => v < Pow(6)
    case Nist224 => v < Pow32(14)
    case Nist256 => v < Pow32(16)
    case Nist384 => v < Pow32(24)
    case Mersenne(width, shift, cap) => width > 0 && v < Pow(width - 1 + cap)
    case Koblitz(_, limbs, _, _) => v < Pow(2 * limbs)
    case _ => true
  }

  /** The limb counts that p255 and p448 turn away. */
  function TooManyLimbs(r: Reduction, n: nat): bool {
    match r
    case Fold(_, width, _) => n > 2 * width
    case Golden(w, _, _) => n > 2 * w
    case _ => false
  }

  /** grp->modp: every quasi-reduction that succeeds keeps the residue. */
  method QuasiModp(N: Mpi, r: Reduction, ghost p: nat) returns (st: Status)
    requires !r.Plain? && ReducesModulo(r, p) && NonNegative(N) && HasRoom(r, Val(N.p))
    modifies N
    ensures st == if TooManyLimbs(r, old(|N.p|)) then BadInputData else Ok
    ensures st == Ok ==> Cong(N.Value(), old(N.Value()), p)
    ensures st != Ok ==> N.p == old(N.p) && N.s == old(N.s)
  {
    st := Ok;
    match r
    case Nist192 => ModP192(N);
    case Nist224 => ModP224(N);
    case Nist256 => ModP256(N);
    case Nist384 => ModP384(N);
    case Mersenne(width, shift, cap) => ModMersenne(N, width, shift, cap, p);
    case Fold(R, width, shift) => st := ModFold(N, R, width, shift, p);
    case Golden(w, u, t) => st := ModGolden(N, w, u, t, p);
    case Koblitz(R, limbs, adjust, shift) => ModKoblitz(N, R, limbs, adjust, shift, p);
  }

  /** The final loops: up while negative, down while not below P. */
  method IntoField(N: Mpi, P: Mpi)
    requires N != P && P.Value() > 0
    modifies N
    ensures N.Value() == old(N.Value()) % P.Value()
  {
    ghost var n, p := N.Value(), P.Value();
    CongRefl(n, p);
    var cmp := N.CmpInt(0);
    while N.s < 0 && cmp != 0
      invariant P.Value() == p && cmp == Cmp(N.Value(), 0) && Cong(N.Value(), n, p)
      decreases if N.Value() < 0 then -N.Value() else 0
    {
      Nudge(N.Value(), n, 1, p);
      N.AddMpi(N, P);
      cmp := N.CmpInt(0);
    }
    cmp := N.CmpMpi(P);
    while cmp >= 0
      invariant P.Value() == p && cmp == Cmp(N.Value(), p) && Cong(N.Value(), n, p) && N.Value() >= 0
      decreases N.Value()
    {
      Nudge(N.Value(), n, -1, p);
      var _ := N.SubAbs(N, P);
      cmp := N.CmpMpi(P);
    }
    CongCanonical(N.Value(), n, p);
  }

  lemma Nudge(x: int, n: int, k: int, p: nat)
    requires p > 0 && Cong(x, n, p)
    ensures Cong(x + k * p, n, p)
  {
    var q := CongElim(x, n, p);
    Distribute(p, q, k);
    CongIntro(x + k * p, n, p, q + k);
  }

  /**
   Reduction modulo the field prime P.  Succeeds on every nonnegative number of at most 2 pbits bits
   (p255 and p448 also want it in few enough limbs) and leaves exactly N mod P.
   */
  method EcpModp(N: Mpi, P: Mpi, pbits: nat, r: Reduction) returns (st: Status)
    requires N != P && P.Value() > 0 && ReducesModulo(r, P.Value())
    requires forall v: nat :: NumBits(v) <= 2 * pbits ==> HasRoom(r, v)
    modifies N
    ensures st == if !r.Plain? && (old(N.Value()) < 0 || NumBits(old(Val(N.p))) > 2 * pbits
                                   || TooManyLimbs(r, old(|N.p|))) then BadInputData else Ok
    ensures st == Ok ==> N.Value() == old(N.Value()) % P.Value()
    ensures st != Ok ==> N.p == old(N.p) && N.s == old(N.s)
  {
    if r.Plain? {
      st := ModMpi(N, N, P);
      return;
    }
    var cmp := N.CmpInt(0);
    var bits := BitLen(N);
    if (N.s < 0 && cmp != 0) || bits > 2 * pbits {
      return BadInputData;
    }
    ghost var n, p := N.Value(), P.Value();
    st := QuasiModp(N, r, p);
    if st != Ok {
      return;
    }
    ghost var m := N.Value();
    IntoField(N, P);
    CongResidue(m, n, p);
  }

  // ----- the curves that come with a fast reduction

  datatype Curve =
    | Secp192r1 | Secp224r1 | Secp256r1 | Secp384r1 | Secp521r1
    | Secp192k1 | Secp224k1 | Secp256k1 | Curve25519 | Curve448

  /** What ecp_group_load installs as modp. */
  function ReductionOf(c: Curve): Reduction {
    match c
    case Secp192r1 => Nist192
    case Secp224r1 => Nist224
    case Secp256r1 => Nist256
    case Secp384r1 => Nist384
    case Secp521r1 => Mersenne(9, 9, 10)
    case Secp192k1 => Koblitz(R192, 3, 0, 0)
    case Secp224k1 => Koblitz(R224, 4, 1, 32)
    case Secp256k1 => Koblitz(R256, 4, 0, 0)
    case Curve25519 => Fold(19, 4, 63)
    case Curve448 => Golden(7, 3, 32)
  }

  function FieldBits(c: Curve): nat {
    match c
    case Secp192r1 => 192
    case Secp224r1 => 224
    case Secp256r1 => 256
    case Secp384r1 => 384
    case Secp521r1 => 521
    case Secp192k1 => 192
    case Secp224k1 => 224
    case Secp256k1 => 256
    case Curve25519 => 255
    case Curve448 => 448
  }

  /** 2^448 - 2^224 - 1 is a prime ModGolden serves: 2^448 is the square of 2^224. */
  lemma GoldenPrime(p: nat)
    requires p > 0 && p == Cut(7, 0) - Cut(3, 32) - 1
    ensures ReducesModulo(ReductionOf(Curve448), p)
  {
    CutTwice();
  }

  const ONES_256: nat := 0xffffffff_ffffffff_ffffffff_ffffffff_ffffffff_ffffffff_ffffffff_ffffffff

  /** The primes as the curve parameters spell them. */
  function PrimeOf(c: Curve): nat {
    match c
    case Secp192r1 => 0xffffffff_ffffffff_ffffffff_fffffffe_ffffffff_ffffffff
    case Secp224r1 => P224
    case Secp256r1 => P256
    case Secp384r1 => P384
    case Secp521r1 =>
      (0x1ff * (ONES_256 + 1) + ONES_256) * (ONES_256 + 1) + ONES_256
    case Secp192k1 => 0xffffffff_ffffffff_ffffffff_ffffffff_fffffffe_ffffee37
    case Secp224k1 => 0xffffffff_ffffffff_ffffffff_ffffffff_ffffffff_fffffffe_ffffe56d
    case Secp256k1 => 0xffffffff_ffffffff_ffffffff_ffffffff_ffffffff_ffffffff_fffffffe_fffffc2f
    case Curve25519 => 0x7fffffff_ffffffff_ffffffff_ffffffff_ffffffff_ffffffff_ffffffff_ffffffed
    case Curve448 =>
      0xfffffffffffffffffffffffffffffffffffffffffffffffffffffffeffffffffffffffffffffffffffffffffffffffffffffffffffffffff
  }

  lemma RoomInLimbs(v: nat, bits: nat, limbs: nat)
    requires NumBits(v) <= bits <= BITS * limbs
    ensures v < Pow(limbs)
  {
    NumBitsBounds(v);
    Pow2Mono(NumBits(v), BITS * limbs);
    PowIsPow2(limbs);
  }

  lemma RoomInWords(v: nat, bits: nat, limbs: nat)
    requires NumBits(v) <= bits <= BITS * limbs
    ensures v < Pow32(2 * limbs)
  {
    RoomInLimbs(v, bits, limbs);
    PowIsPow32(limbs);
  }

  /** The bits the size test of ecp_modp allows are bits the reduction of the curve has room for. */
  lemma RoomForBits(c: Curve, v: nat)
    requires NumBits(v) <= 2 * FieldBits(c)
    ensures HasRoom(ReductionOf(c), v)
  {
    match c
    case Secp521r1 => RoomInLimbs(v, 1042, 18);
    case Secp192k1 => RoomInLimbs(v, 384, 6);
    case Secp224k1 => RoomInLimbs(v, 448, 8);
    case Secp256k1 => RoomInLimbs(v, 512, 8);
    case Curve25519 =>
    case Curve448 =>
    case _ => NistRoom(c, v);
  }

  lemma NistRoom(c: Curve, v: nat)
    requires c.Secp192r1? || c.Secp224r1? || c.Secp256r1? || c.Secp384r1?
    requires NumBits(v) <= 2 * FieldBits(c)
    ensures HasRoom(ReductionOf(c), v)
  {
    match c
    case Secp192r1 => RoomInLimbs(v, 384, 6);
    case Secp224r1 => RoomInWords(v, 448, 7);
    case Secp256r1 => RoomInWords(v, 512, 8);
    case Secp384r1 => RoomInWords(v, 768, 12);
  }

  lemma BitsOf(p: nat, from: nat, shift: nat)
    requires p < Cut(from, shift) <= 2 * p
    ensures NumBits(p) == BITS * from + shift
  {
    CutWeight(from, shift);
    var n := BITS * from + shift;
    assert n > 0 by {
      assert Pow2(0) == 1;
    }
    assert Pow2(n) == 2 * Pow2(n - 1);
    NumBitsIs(p, n);
  }

  lemma SmallPows()
    ensures Pow(3) == BASE * BASE * BASE && Pow(4) == Pow(3) * BASE && Pow(6) == Pow(4) * (BASE * BASE)
    ensures Pow2(0) == 1 && Pow2(32) == 0x1_0000_0000
  {
    assert Pow(1) == BASE && Pow(2) == BASE * BASE;
    assert Pow2(8) == 256 && Pow2(16) == 65536 && Pow2(24) == 0x100_0000;
  }

  /** A power of two well above a limb, less a limb. */
  lemma CutLarge(from: nat, shift: nat)
    requires from >= 2
    ensures Cut(from, shift) >= 2 * BASE
  {
    PowAdd(2, from - 2);
    assert Pow(1) == BASE && Pow(2) == BASE * BASE;
    MulMono(1, Pow(from - 2), BASE * BASE);
    MulMono(1, Pow2(shift), Pow(from));
  }

  lemma NistBits(c: Curve, p: nat)
    requires c.Secp192r1? || c.Secp224r1? || c.Secp256r1? || c.Secp384r1?
    requires ReducesModulo(ReductionOf(c), p)
    ensures NumBits(p) == FieldBits(c)
  {
    SmallPows();
    match c
    case Secp192r1 => BitsOf(p, 3, 0);
    case Secp224r1 => BitsOf(p, 3, 32);
    case Secp256r1 => BitsOf(p, 4, 0);
    case Secp384r1 => BitsOf(p, 6, 0);
  }

  lemma GoldenBits(p: nat)
    requires ReducesModulo(ReductionOf(Curve448), p)
    ensures NumBits(p) == FieldBits(Curve448)
  {
    var g := Cut(3, 32);
    CutLarge(3, 32);
    MulMono(BASE, g, g);
    BitsOf(p, 7, 0);
  }

  /** The prime has as many bits as the size test assumes. */
  lemma PrimeBits(c: Curve, p: nat)
    requires ReducesModulo(ReductionOf(c), p)
    ensures NumBits(p) == FieldBits(c)
  {
    match c
    case Secp521r1 => CutLarge(8, 9); BitsOf(p, 8, 9);
    case Secp192k1 => CutLarge(3, 0); BitsOf(p, 3, 0);
    case Secp224k1 => CutLarge(3, 32); BitsOf(p, 3, 32);
    case Secp256k1 => CutLarge(4, 0); BitsOf(p, 4, 0);
    case Curve25519 => CutLarge(3, 63); BitsOf(p, 3, 63);
    case Curve448 => GoldenBits(p);
    case _ => NistBits(c, p);
  }

  lemma ProductBits(a: nat, b: nat, product: nat, p: nat)
    requires a < p && b < p && product == a * b
    ensures NumBits(product) <= 2 * NumBits(p)
  {
    var n := NumBits(p);
    NumBitsBounds(p);
    MulStrict(a, b, Pow2(n), Pow2(n));
    Pow2Add(n, n);
    BitsAtMost(product, 2 * n);
  }

  /** Every product of two field elements passes the size test and fits the reduction of its curve. */
  lemma RoomForProducts(c: Curve, p: nat, a: nat, b: nat, product: nat)
    requires ReducesModulo(ReductionOf(c), p) && a < p && b < p && product == a * b
    ensures NumBits(product) <= 2 * FieldBits(c) && HasRoom(ReductionOf(c), product)
  {
    PrimeBits(c, p);
    ProductBits(a, b, product, p);
    RoomForBits(c, product);
  }

  lemma EighthPow()
    ensures Pow(8) == Pow(4) * Pow(4) && Pow2(9) == 512
  {
    PowAdd(4, 4);
  }

  /** The reduction of a curve serves the prime of that curve and no other number. */
  lemma CurvePrime(c: Curve, p: nat)
    ensures ReducesModulo(ReductionOf(c), p) <==> p == PrimeOf(c)
  {
    match c
    case Secp521r1 => WidePrime(p);
    case Secp192k1 => KoblitzPrime(c, p);
    case Secp224k1 => KoblitzPrime(c, p);
    case Secp256k1 => KoblitzPrime(c, p);
    case Curve25519 => MontgomeryPrime(p);
    case Curve448 => SquarePrime(p);
    case _ =>
  }

  lemma WidePrime(p: nat)
    ensures ReducesModulo(ReductionOf(Secp521r1), p) <==> p == PrimeOf(Secp521r1)
  {
    SmallPows();
    EighthPow();
  }

  lemma KoblitzPrime(c: Curve, p: nat)
    requires c.Secp192k1? || c.Secp224k1? || c.Secp256k1?
    ensures ReducesModulo(ReductionOf(c), p) <==> p == PrimeOf(c)
  {
    SmallPows();
  }

  lemma MontgomeryPrime(p: nat)
    ensures ReducesModulo(ReductionOf(Curve25519), p) <==> p == PrimeOf(Curve25519)
  {
    SmallPows();
    HalfBase(63);
    assert Pow2(1) == 2;
  }

  lemma SquarePrime(p: nat)
    ensures ReducesModulo(ReductionOf(Curve448), p) <==> p == PrimeOf(Curve448)
  {
    SmallPows();
    CutTwice();
  }

  /** Fast reduction refines slow reduction, for every curve with its own modp. */
  method CurveModp(N: Mpi, P: Mpi, c: Curve) returns (st: Status)
    requires N != P && P.Value() == PrimeOf(c)
    modifies N
    ensures st == Ok <==>
              && old(N.Value()) >= 0 && NumBits(old(Val(N.p))) <= 2 * FieldBits(c)
              && !TooManyLimbs(ReductionOf(c), old(|N.p|))
    ensures st == Ok ==> N.Value() == old(N.Value()) % P.Value()
    ensures st != Ok ==> st == BadInputData && N.p == old(N.p) && N.s == old(N.s)
  {
    CurvePrime(c, P.Value());
    forall v: nat | NumBits(v) <= 2 * FieldBits(c)
      ensures HasRoom(ReductionOf(c), v)
    {
      RoomForBits(c, v);
    }
    st := EcpModp(N, P, FieldBits(c), ReductionOf(c));
  }
}
