/** Scalar multiplication by the signed comb: selection, Horner loop, parity fix-up and the cached table. */
module CombMul {
  import opened Arith
  import opened Limbs
  import opened Bits
  import opened Mpis
  import opened MpiShift
  import opened ByteStrings
  import opened CombRecoding
  import opened PointGroup
  import opened CombTable

  // ----- selection

  /** What a slot reads as when only its X and Y are copied. */
  function Read<G(==)>(g: Group<G>, t: G): G {
    if t == g.zero then g.misread else t
  }

  /** Reads every slot and keeps X and Y of one; R stays as it was if no slot has that number. */
  method ReadSlot<G(==)>(g: Group<G>, T: array<G>, R0: G, ii: nat) returns (R: G)
    ensures R == if ii < T.Length then Read(g, T[ii]) else R0
  {
    R := R0;
    var j := 0;
    while j < T.Length
      invariant 0 <= j <= T.Length && R == if ii < j then Read(g, T[ii]) else R0
    {
      if j == ii {
        R := Read(g, T[j]);
      }
      j := j + 1;
    }
  }

  /** The magnitude of a digit. */
  function Size(x: Byte): nat {
    if x >= 0x80 then x - 0x80 else x
  }

  /** The slot of an odd digit exists and stands for its magnitude. */
  lemma SlotOfDigit(x: Byte, w: nat)
    requires 1 <= w <= 7 && GoodDigit(x, w)
    ensures Size(x) == 2 * (Size(x) / 2) + 1 && Size(x) / 2 < Pow2(w - 1)
  {
    assert Size(x) < Pow2(w) == 2 * Pow2(w - 1);
  }

  lemma MaskedDigit(x: Byte)
    ensures And(x, 0x7F) == Size(x)
  {
    SevenBits(x);
    ModUnique(x, if x >= 0x80 then 1 else 0, Size(x), 0x80);
  }

  /** The digit's magnitude has a slot in a table of n entries. */
  predicate InTable(x: Byte, n: nat) {
    Size(x) / 2 < n
  }

  /** sign(x) * T[abs(x) / 2], as far as X and Y tell. */
  function Picked<G(==)>(g: Group<G>, T: seq<G>, x: Byte): G
    requires InTable(x, |T|)
  {
    var t := Read(g, T[Size(x) / 2]);
    if x >= 0x80 then g.neg(t) else t
  }

  method SelectComb<G(==)>(g: Group<G>, T: array<G>, R0: G, x: Byte) returns (R: G)
    requires InTable(x, T.Length)
    ensures R == Picked(g, T[..], x)
  {
    MaskedDigit(x);
    var ii := And(x, 0x7F) / 2;
    R := ReadSlot(g, T, R0, ii);
    if x / 0x80 != 0 {
      R := g.neg(R);
    }
  }

  /** A table without neutral entries is read correctly. */
  ghost predicate GoodTable<G>(g: Group<G>, T: seq<G>, P: G, d: nat) {
    IsTable(g, T, P, d) && P != g.zero && NoNeutral(g, P, d, |T|)
  }

  lemma PickedIsDigit<G(!new)>(g: Group<G>, T: seq<G>, x: Byte, P: G, d: nat, w: nat)
    requires Abelian(g) && 1 <= w <= 7 && |T| == Pow2(w - 1) && GoodTable(g, T, P, d) && GoodDigit(x, w)
    ensures InTable(x, |T|) && Picked(g, T, x) == Mul(g, DigitValue(x, d), P)
  {
    SlotOfDigit(x, w);
    var k := Size(x) / 2;
    assert T[k] == Entry(g, k, P, d);
    FirstValues(g, P, d);
    assert k > 0 ==> Entry(g, k, P, d) != g.zero;
    MulNeg(g, Comb(Size(x), d), P);
  }

  // ----- the Horner loop

  /** What the double-and-add loop has accumulated when it has consumed digits i and up. */
  function Horner<G(==)>(g: Group<G>, T: seq<G>, x: seq<Byte>, i: nat): G
    requires i < |x| && forall k :: 0 <= k < |x| ==> InTable(x[k], |T|)
    decreases |x| - i
  {
    if i == |x| - 1 then Picked(g, T, x[i])
    else var h := Horner(g, T, x, i + 1); AddMixed(g, g.add(h, h), Picked(g, T, x[i]))
  }

  /** The accumulator of digits k and up, doubled, is the neutral point. */
  ghost predicate NeutralAt<G>(g: Group<G>, x: seq<Byte>, k: nat, P: G, d: nat)
    requires k <= |x|
  {
    Mul(g, 2 * HighSum(x, k, d), P) == g.zero
  }

  /** On the way to digit i some doubled accumulator is the neutral point. */
  ghost predicate Passes<G>(g: Group<G>, x: seq<Byte>, i: nat, P: G, d: nat)
    requires i < |x|
    decreases |x| - i
  {
    i + 1 < |x| && (NeutralAt(g, x, i + 1, P, d) || Passes(g, x, i + 1, P, d))
  }

  /**
   The accumulator is the weighted digit sum times P until it passes through the neutral point; from
   there on its Z reads as zero.
   */
  lemma {:induction false} HornerIsMul<G(!new)>(g: Group<G>, T: seq<G>, x: seq<Byte>, i: nat, P: G, d: nat, w: nat)
    requires Abelian(g) && 1 <= w <= 7 && |T| == Pow2(w - 1) && GoodTable(g, T, P, d) && AllGood(x, w)
    requires i < |x| && forall k :: 0 <= k < |x| ==> InTable(x[k], |T|)
    ensures Horner(g, T, x, i) == if Passes(g, x, i, P, d) then g.zero else Mul(g, HighSum(x, i, d), P)
    decreases |x| - i
  {
    PickedIsDigit(g, T, x[i], P, d, w);
    if i < |x| - 1 {
      HornerIsMul(g, T, x, i + 1, P, d, w);
      DoubleAndAdd(g, HighSum(x, i + 1, d), DigitValue(x[i], d), P);
      var h := Horner(g, T, x, i + 1);
      assert Horner(g, T, x, i) == AddMixed(g, g.add(h, h), Picked(g, T, x[i]));
    } else {
      assert HighSum(x, i + 1, d) == 0;
    }
  }

  lemma DoubleAndAdd<G(!new)>(g: Group<G>, v: int, t: int, P: G)
    requires Abelian(g)
    ensures g.add(g.add(Mul(g, v, P), Mul(g, v, P)), Mul(g, t, P)) == Mul(g, t + 2 * v, P)
    ensures g.add(Mul(g, v, P), Mul(g, v, P)) == Mul(g, 2 * v, P) && g.add(g.zero, g.zero) == g.zero
  {
    MulDouble(g, v, P);
    MulAdd(g, 2 * v, t, P);
    assert Law(g, g.zero, g.zero, g.zero);
  }

  lemma {:induction false} PassesIff<G>(g: Group<G>, x: seq<Byte>, i: nat, P: G, d: nat)
    requires i < |x|
    ensures Passes(g, x, i, P, d) <==> exists k :: i < k < |x| && NeutralAt(g, x, k, P, d)
    decreases |x| - i
  {
    if i + 1 < |x| {
      PassesIff(g, x, i + 1, P, d);
    }
  }

  lemma DigitsInTable(x: seq<Byte>, w: nat)
    requires 1 <= w <= 7 && AllGood(x, w)
    ensures forall k :: 0 <= k < |x| ==> InTable(x[k], Pow2(w - 1))
  {
    forall k | 0 <= k < |x|
      ensures InTable(x[k], Pow2(w - 1))
    {
      assert GoodDigit(x[k], w);
      SlotOfDigit(x[k], w);
    }
  }

  /** Double and add from the top digit down. */
  method MulCombCore<G(==)>(g: Group<G>, T: array<G>, R0: G, x: array<Byte>, d: nat) returns (R: G)
    requires x.Length == d + 1 && forall k :: 0 <= k < x.Length ==> InTable(x[k], T.Length)
    ensures R == Horner(g, T[..], x[..], 0)
  {
    var i := d;
    R := SelectComb(g, T, R0, x[i]);
    while i != 0
      invariant 0 <= i <= d && R == Horner(g, T[..], x[..], i)
    {
      i := i - 1;
      R := g.add(R, R);
      var Txi := SelectComb(g, T, g.zero, x[i]);
      R := AddMixed(g, R, Txi);
    }
  }

  /** The loop computes the signed comb sum times P unless it passes through the neutral point. */
  lemma CombCoreIsMul<G(!new)>(g: Group<G>, T: seq<G>, x: seq<Byte>, P: G, d: nat, w: nat)
    requires Abelian(g) && 1 <= w <= 7 && |T| == Pow2(w - 1) && GoodTable(g, T, P, d) && AllGood(x, w) && |x| > 0
    ensures forall k :: 0 <= k < |x| ==> InTable(x[k], |T|)
    ensures Horner(g, T, x, 0) == if Passes(g, x, 0, P, d) then g.zero else Mul(g, SignedSum(x, d), P)
  {
    DigitsInTable(x, w);
    HornerIsMul(g, T, x, 0, P, d, w);
    HornerSum(x, 0, d);
    assert x[..0] == [];
  }

  /** For a point of exact order n no accumulator on the way is neutral. */
  lemma NeverPasses<G(!new)>(g: Group<G>, x: seq<Byte>, P: G, d: nat, n: nat)
    requires Abelian(g) && ExactOrder(g, P, n) && n % 2 == 1 && |x| > 0
    requires forall k :: 0 <= k < |x| ==> 1 <= HighSum(x, k, d) < n
    ensures !Passes(g, x, 0, P, d)
  {
    forall k | 0 < k < |x|
      ensures !NeutralAt(g, x, k, P, d)
    {
      var h := HighSum(x, k, d);
      if NeutralAt(g, x, k, P, d) {
        OddOrderDouble(g, n, h, P);
      }
    }
    PassesIff(g, x, 0, P, d);
  }

  // ----- the whole multiplication

  datatype EcpStatus = EcpOk | EcpBadInput | EcpInvalidKey | EcpNotAcceptable

  /** Number of teeth, from the size of the group order and whether the point is the generator. */
  function Teeth(nbits: nat, isGenerator: bool, window: nat): (w: nat)
    requires 2 <= window <= 7
    ensures 2 <= w <= 7
  {
    var base := (if nbits >= 384 then 5 else 4) + (if isGenerator then 1 else 0);
    var capped := if base > window then window else base;
    if capped >= nbits then 2 else capped
  }

  /** Digits per tooth: ceil(nbits / w). */
  function Spacing(nbits: nat, w: nat): (d: nat)
    requires w > 0
    ensures nbits <= d * w && (nbits > 0 ==> (d - 1) * w < nbits)
  {
    RoundUp(nbits, w);
    (nbits + w - 1) / w
  }

  lemma RoundUp(n: nat, w: nat)
    requires w > 0
    ensures var d := (n + w - 1) / w; d >= 0 && n <= d * w && (n > 0 ==> (d - 1) * w < n)
  {
    var d := (n + w - 1) / w;
    DivBounds(n + w - 1, w);
    QuotientAtLeast(0, w, n + w - 1);
    Plus1(d, w);
    Plus1(d - 1, w);
  }

  /** The group record: order, generator and the table kept for the generator. */
  class EcpGroup<G(==,!new)> {
    const ops: Group<G>
    const N: Mpi
    const nbits: nat
    const base: G
    const window: nat
    const fixedPoint: bool
    var T: array?<G>

    /** The comb of a point: its teeth and their spacing. */
    function TeethOf(P: G): (w: nat)
      requires 2 <= window <= 7
      ensures 2 <= w <= 7
    {
      Teeth(nbits, fixedPoint && P == base, window)
    }

    function SpacingOf(P: G): nat
      requires 2 <= window <= 7
    {
      Spacing(nbits, TeethOf(P))
    }

    /** No entry of the table for P is neutral. */
    ghost predicate CleanTable(P: G)
      requires 2 <= window <= 7
    {
      NoNeutral(ops, P, SpacingOf(P), Pow2(TeethOf(P) - 1))
    }

    ghost predicate TableOf(t: array<G>, P: G)
      requires 2 <= window <= 7
      reads t
    {
      && t.Length == Pow2(TeethOf(P) - 1) && IsTable(ops, t[..], P, SpacingOf(P))
      && (TeethOf(P) == 2 || CleanTable(P))
    }

    ghost predicate Valid()
      reads this, T, N
    {
      && Abelian(ops) && N.s == 1 && nbits == NumBits(Val(N.p)) && 2 <= window <= 7
      && (T != null ==> fixedPoint && TableOf(T, base))
    }

    /** The group as loaded: no table yet. */
    constructor (ops: Group<G>, N: Mpi, base: G, window: nat, fixedPoint: bool)
      requires Abelian(ops) && N.s == 1 && 2 <= window <= 7
      ensures Valid() && T == null && this.ops == ops && this.N == N && this.base == base
    {
      this.ops, this.N, this.base, this.window, this.fixedPoint := ops, N, base, window, fixedPoint;
      nbits := NumBits(Val(N.p));
      T := null;
    }

    /**
     The table for P: the cached one for the generator once it is there, else a fresh one.  A fresh one
     is refused exactly when it has more than two slots and one of them is neutral; nothing is cached then.
     */
    method TableFor(P: G) returns (ok: bool, t: array<G>)
      requires Valid() && P != ops.zero && Val(N.p) % 2 == 1 && Mul(ops, Val(N.p), P) == ops.zero
      modifies this`T
      ensures Valid() && (ok <==> TeethOf(P) == 2 || CleanTable(P))
      ensures ok ==> TableOf(t, P)
      ensures T == old(T) || (ok && P == base && old(T) == null)
    {
      var w := TeethOf(P);
      if fixedPoint && P == base && T != null {
        return true, T;
      }
      AcceptsIff(ops, Val(N.p), P, w, SpacingOf(P));
      t := new G[Pow2(w - 1)](_ => ops.zero);
      ok := PrecomputeComb(ops, t, P, w, SpacingOf(P));
      if ok && fixedPoint && P == base {
        T := t;
      }
    }

    /** Makes the scalar odd: m itself, or N - m. */
    method OddScalar(m: Mpi) returns (M: Mpi, odd: bool)
      requires Val(N.p) % 2 == 1 && N.s == 1 && m.s == 1 && 1 <= Val(m.p) < Val(N.p)
      ensures fresh(M) && odd == (Val(m.p) % 2 == 1) && Val(M.p) % 2 == 1
      ensures Val(M.p) == if odd then Val(m.p) else Val(N.p) - Val(m.p)
    {
      var b := GetBit(m, 0);
      LowestBit(Val(m.p));
      odd := b == 1;
      M := new Mpi();
      M.Copy(m);
      var mm := new Mpi();
      mm.SubMpi(N, m);
      if !odd {
        M.Copy(mm);
      }
    }

    /** The scalar that is recoded for m. */
    function Odd(m: nat): int
      reads N
    {
      if m % 2 == 1 then m else Val(N.p) - m
    }

    /** x is a recoding of m, or of N - m for an even m, for the comb of P; small scalars use the first tooth only. */
    ghost predicate Recodes(x: seq<Byte>, m: nat, P: G)
      requires 2 <= window <= 7
      reads N
    {
      && |x| == SpacingOf(P) + 1 && AllGood(x, TeethOf(P)) && SignedSum(x, SpacingOf(P)) == Odd(m)
      && (Odd(m) < Pow2(SpacingOf(P)) ==> AllGood(x, 1))
      && forall k :: 0 <= k < |x| ==> 1 <= HighSum(x, k, SpacingOf(P)) < Val(N.p)
    }

    /** What the loop makes of digits x with the finished table, and the change of sign for an even m. */
    ghost function Outcome(x: seq<Byte>, m: nat, P: G): G
      requires 2 <= window <= 7 && |x| > 0 && AllGood(x, TeethOf(P))
    {
      DigitsInTable(x, TeethOf(P));
      var h := Horner(ops, FullTable(ops, Pow2(TeethOf(P) - 1), P, SpacingOf(P)), x, 0);
      if m % 2 == 1 then h else ops.neg(h)
    }

    /**
     Refused exactly when N is even or the table build fails.  With a clean table the result is m * P,
     unless the accumulator passes through the neutral point on the way: then it is the neutral point.
     */
    method MulComb(m: Mpi, P: G) returns (ret: EcpStatus, R: G, ghost x: seq<Byte>)
      requires Valid() && m.s == 1 && 1 <= Val(m.p) < Val(N.p) && P != ops.zero && Mul(ops, Val(N.p), P) == ops.zero
      modifies this`T
      ensures Valid()
      ensures ret == if Val(N.p) % 2 == 0 then EcpBadInput
                     else if TeethOf(P) == 2 || CleanTable(P) then EcpOk else EcpNotAcceptable
      ensures ret == EcpOk ==> Recodes(x, Val(m.p), P) && R == Outcome(x, Val(m.p), P)
      ensures ret == EcpOk && CleanTable(P) ==>
                R == if Passes(ops, x, 0, P, SpacingOf(P)) then ops.zero else Mul(ops, Val(m.p), P)
    {
      R, x := ops.zero, [];
      var b := GetBit(N, 0);
      LowestBit(Val(N.p));
      if b != 1 {
        return EcpBadInput, R, x;
      }
      var ok, t := TableFor(P);
      if !ok {
        return EcpNotAcceptable, R, x;
      }
      R, x := Evaluate(m, P, t);
      ret := EcpOk;
    }

    /** The multiplication once the table is there. */
    method Evaluate(m: Mpi, P: G, t: array<G>) returns (R: G, ghost x: seq<Byte>)
      requires Valid() && m.s == 1 && 1 <= Val(m.p) < Val(N.p) && P != ops.zero && Mul(ops, Val(N.p), P) == ops.zero
      requires Val(N.p) % 2 == 1 && TableOf(t, P)
      ensures Recodes(x, Val(m.p), P) && R == Outcome(x, Val(m.p), P)
      ensures CleanTable(P) ==>
                R == if Passes(ops, x, 0, P, SpacingOf(P)) then ops.zero else Mul(ops, Val(m.p), P)
    {
      var w, d := TeethOf(P), SpacingOf(P);
      var M, odd := OddScalar(m);
      var k := Recode(M, P);
      x := k[..];
      DigitsInTable(x, w);
      R := MulCombCore(ops, t, ops.zero, k, d);
      TableUnique(ops, t[..], P, d);
      if CleanTable(P) {
        CleanResult(t[..], x, m, P);
      }
      if !odd {
        R := ops.neg(R);
      }
    }

    lemma CleanResult(t: seq<G>, x: seq<Byte>, m: Mpi, P: G)
      requires Valid() && 1 <= Val(m.p) < Val(N.p) && P != ops.zero && Mul(ops, Val(N.p), P) == ops.zero
      requires |t| == Pow2(TeethOf(P) - 1) && IsTable(ops, t, P, SpacingOf(P)) && CleanTable(P)
      requires |x| > 0 && AllGood(x, TeethOf(P)) && SignedSum(x, SpacingOf(P)) == Odd(Val(m.p))
      ensures forall k :: 0 <= k < |x| ==> InTable(x[k], |t|)
      ensures var h := Horner(ops, t, x, 0);
              (if Val(m.p) % 2 == 1 then h else ops.neg(h))
              == if Passes(ops, x, 0, P, SpacingOf(P)) then ops.zero else Mul(ops, Val(m.p), P)
    {
      CombCoreIsMul(ops, t, x, P, SpacingOf(P), TeethOf(P));
      FixUp(ops, Val(N.p), Val(m.p), Odd(Val(m.p)), Val(m.p) % 2 == 1, P);
    }

    /** The digits of an odd scalar; one tooth is enough for a scalar of at most d bits. */
    method Recode(M: Mpi, P: G) returns (k: array<Byte>)
      requires Valid() && Val(M.p) % 2 == 1 && Val(M.p) < Val(N.p)
      ensures fresh(k) && k.Length == SpacingOf(P) + 1 && AllGood(k[..], TeethOf(P))
      ensures SignedSum(k[..], SpacingOf(P)) == Val(M.p)
      ensures Val(M.p) < Pow2(SpacingOf(P)) ==> AllGood(k[..], 1)
      ensures forall j :: 0 <= j < k.Length ==> 1 <= HighSum(k[..], j, SpacingOf(P)) <= Val(M.p)
    {
      var w, d := TeethOf(P), SpacingOf(P);
      FitsTeeth(Val(M.p), Val(N.p), d * w);
      k := new Byte[d + 1];
      ghost var teeth := if Val(M.p) < Pow2(d) then 1 else w;
      CombFixed(k, d, w, M, teeth);
      MoreTeeth(k[..], teeth, w);
    }

    /** The public entry: the neutral point and scalars outside [1, N) are refused. */
    method EcpMul(m: Mpi, P: G) returns (ret: EcpStatus, R: G, ghost x: seq<Byte>)
      requires Valid() && Mul(ops, Val(N.p), P) == ops.zero
      modifies this`T
      ensures Valid()
      ensures ret == if P == ops.zero then EcpBadInput
                     else if !(1 <= m.Value() < Val(N.p)) then EcpInvalidKey
                     else if Val(N.p) % 2 == 0 then EcpBadInput
                     else if TeethOf(P) == 2 || CleanTable(P) then EcpOk else EcpNotAcceptable
      ensures ret == EcpOk ==> Recodes(x, m.Value(), P) && R == Outcome(x, m.Value(), P)
      ensures ret == EcpOk && CleanTable(P) ==>
                R == if Passes(ops, x, 0, P, SpacingOf(P)) then ops.zero else Mul(ops, m.Value(), P)
    {
      R, x := ops.zero, [];
      if P == ops.zero {
        return EcpBadInput, R, x;
      }
      var low := m.CmpInt(1);
      var high := m.CmpMpi(N);
      if low < 0 || high >= 0 {
        return EcpInvalidKey, R, x;
      }
      ret, R, x := MulComb(m, P);
    }
  }

  /** Undoing the choice of N - m for m. */
  lemma FixUp<G(!new)>(g: Group<G>, n: nat, m: nat, M: nat, odd: bool, P: G)
    requires Abelian(g) && m <= n && Mul(g, n, P) == g.zero && M == if odd then m else n - m
    ensures Mul(g, m, P) == (if odd then Mul(g, M, P) else g.neg(Mul(g, M, P))) && g.neg(g.zero) == g.zero
  {
    MulComplement(g, n, m, P);
    NegZero(g);
  }

  lemma MoreTeeth(x: seq<Byte>, v: nat, w: nat)
    requires v <= w && AllGood(x, v)
    ensures AllGood(x, w)
  {
    Pow2Mono(v, w);
    forall k | 0 <= k < |x|
      ensures GoodDigit(x[k], w)
    {
      assert GoodDigit(x[k], v);
    }
  }

  lemma LowestBit(v: nat)
    ensures Bit(v, 0) == v % 2
  {
    assert Pow2(0) == 1 && v / 1 == v;
  }

  lemma FitsTeeth(v: nat, n: nat, bits: nat)
    requires v < n && NumBits(n) <= bits
    ensures v < Pow2(bits)
  {
    NumBitsBounds(n);
    Pow2Mono(NumBits(n), bits);
  }
}
