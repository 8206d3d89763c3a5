/** The NIST primes and their reduction programs (FIPS 186-3, section D.2). */
module NistPrimes {
  import opened Arith
  import opened Limbs
  import opened Chunks
  import opened Mpis
  import opened Congruence
  import opened NistReduction
  import opened WordFolding

  /** A program for a prime p of the given bits: its columns are the remainder of the division by p. */
  ghost predicate Folds(prog: Program, terms: Terms, bits: nat, p: nat) {
    && bits == 32 * |prog| && (bits == 224 || bits == 256 || bits == 384) && Legal(prog, 2 * |prog|)
    && Below(terms, |prog|) && p > 0 && p == Pow32(|prog|) - Value(terms)
    && forall a: seq<Word> | |a| == 2 * |prog| :: Divisible(a, prog, terms)
  }

  ghost predicate Divisible(a: seq<Word>, prog: Program, terms: Terms) {
    exists q :: Divided(a, Columns(a, prog), q, terms)
  }

  method QuasiReduce(N: Mpi, bits: nat, prog: Program, ghost terms: Terms, ghost p: nat)
    requires Folds(prog, terms, bits, p) && NonNegative(N) && Val(N.p) < Pow32(2 * |prog|)
    modifies N
    ensures Cong(N.Value(), old(N.Value()), p)
  {
    ghost var a := RunProgram(N, bits, prog);
    assert Divisible(a, prog, terms);
    ghost var q :| Divided(a, Columns(a, prog), q, terms);
    ProgramKeepsResidue(a, prog, q, terms, p);
    SignedResult(Sum(a, prog, 0), old(Val(N.p)), old(N.s), N.s, Val(N.p), p);
  }

  lemma SignedResult(sum: int, v: int, s0: Sign, s1: Sign, v1: int, p: nat)
    requires p > 0 && (s0 == 1 || v == 0) && Cong(sum, v, p)
    requires v1 == (if sum < 0 then -sum else sum) && s1 == if sum < 0 then -1 else s0
    ensures Cong(if s1 == 1 then v1 else -v1, if s0 == 1 then v else -v, p)
  {
    if s0 != 1 {
      var k := CongElim(sum, 0, p);
      NegMul(k, p);
      CongIntro(-sum, 0, p, -k);
    }
  }

  // ----- p224

  const P224: nat := 0xffffffff_ffffffff_ffffffff_ffffffff_00000000_00000000_00000001

  function Program224(): Program {
    [
      Sub(7, Sub(11, End)),
      Sub(8, Sub(12, End)),
      Sub(9, Sub(13, End)),
      Sub(10, Add(7, Add(11, End))),
      Sub(11, Add(8, Add(12, End))),
      Sub(12, Add(9, Add(13, End))),
      Sub(13, Add(10, End))
    ]
  }

  /** p224 = x^7 - (x^3 - 1). */
  function Terms224(): Terms {
    Term(3, 1, Term(0, -1, Done))
  }

  lemma Value224(terms: Terms, w: nat)
    requires terms == Terms224() && w == 7
    ensures Below(terms, w) && P224 == Pow32(w) - Value(terms)
  {
    assert Pow32(4) == 0x1_00000000_00000000_00000000_00000000;
  }

  lemma Tap224(q: seq<int>, k: int)
    ensures Tap(Terms224(), q, k) == Coef(q, k - 3) - Coef(q, k)
  {
    TapStep(0, -1, Done, q, k);
    TapStep(3, 1, Term(0, -1, Done), q, k);
  }

  /** One quotient word per high word, from the top. */
  function Quotient224(v: seq<int>): (q: seq<int>)
    requires |v| == 14
    ensures |q| == 7
  {
    var q6 := v[13];
    var q5 := v[12];
    var q4 := v[11];
    var q3 := v[10];
    var q2 := v[9] + q6;
    var q1 := v[8] + q5;
    var q0 := v[7] + q4;
    [q0, q1, q2, q3, q4, q5, q6]
  }

  lemma Divided224From0(a: seq<Word>, u: seq<int>)
    requires |a| == 14 && u == Columns(a, Program224())
    ensures DividedAt(a, u, Quotient224(a), Terms224(), 0)
    ensures DividedAt(a, u, Quotient224(a), Terms224(), 1)
    ensures DividedAt(a, u, Quotient224(a), Terms224(), 2)
    ensures DividedAt(a, u, Quotient224(a), Terms224(), 3)
  {
    var q := Quotient224(a);
    Tap224(q, 0);
    Tap224(q, 7);
    Tap224(q, 1);
    Tap224(q, 8);
    Tap224(q, 2);
    Tap224(q, 9);
    Tap224(q, 3);
    Tap224(q, 10);
  }

  lemma Divided224From4(a: seq<Word>, u: seq<int>)
    requires |a| == 14 && u == Columns(a, Program224())
    ensures DividedAt(a, u, Quotient224(a), Terms224(), 4)
    ensures DividedAt(a, u, Quotient224(a), Terms224(), 5)
    ensures DividedAt(a, u, Quotient224(a), Terms224(), 6)
  {
    var q := Quotient224(a);
    Tap224(q, 4);
    Tap224(q, 11);
    Tap224(q, 5);
    Tap224(q, 12);
    Tap224(q, 6);
    Tap224(q, 13);
  }

  lemma Divided224(a: seq<Word>, u: seq<int>)
    requires |a| == 14 && u == Columns(a, Program224())
    ensures Divided(a, u, Quotient224(a), Terms224())
  {
    Divided224From0(a, u);
    Divided224From4(a, u);
  }

  lemma Legal224(prog: Program)
    requires prog == Program224()
    ensures Legal(prog, 14)
  {
  }

  lemma All224(prog: Program, terms: Terms)
    requires prog == Program224() && terms == Terms224()
    ensures forall a: seq<Word> | |a| == 14 :: Divisible(a, prog, terms)
  {
    forall a: seq<Word> | |a| == 14
      ensures Divisible(a, prog, terms)
    {
      Divided224(a, Columns(a, prog));
    }
  }

  method Load224() returns (prog: Program, ghost terms: Terms)
    ensures |prog| == 7 && Folds(prog, terms, 224, P224)
  {
    prog, terms := Program224(), Terms224();
    Legal224(prog);
    Value224(terms, |prog|);
    All224(prog, terms);
  }

  /** Quasi-reduction modulo p224: any N of at most 448 bits keeps its residue. */
  method ModP224(N: Mpi)
    requires NonNegative(N) && Val(N.p) < Pow32(14)
    modifies N
    ensures Cong(N.Value(), old(N.Value()), P224)
  {
    var prog;
    ghost var terms;
    prog, terms := Load224();
    QuasiReduce(N, 224, prog, terms, P224);
  }

  // ----- p256

  const P256: nat := 0xffffffff_00000001_00000000_00000000_00000000_ffffffff_ffffffff_ffffffff

  function Program256(): Program {
    [
      Add(8, Add(9, Sub(11, Sub(12, Sub(13, Sub(14, End)))))),
      Add(9, Add(10, Sub(12, Sub(13, Sub(14, Sub(15, End)))))),
      Add(10, Add(11, Sub(13, Sub(14, Sub(15, End))))),
      Add(11, Add(11, Add(12, Add(12, Add(13, Sub(15, Sub(8, Sub(9, End)))))))),
      Add(12, Add(12, Add(13, Add(13, Add(14, Sub(9, Sub(10, End))))))),
      Add(13, Add(13, Add(14, Add(14, Add(15, Sub(10, Sub(11, End))))))),
      Add(14, Add(14, Add(15, Add(15, Add(14, Add(13, Sub(8, Sub(9, End)))))))),
      Add(15, Add(15, Add(15, Add(8, Sub(10, Sub(11, Sub(12, Sub(13, End))))))))
    ]
  }

  /** p256 = x^8 - (x^7 - x^6 - x^3 + 1). */
  function Terms256(): Terms {
    Term(7, 1, Term(6, -1, Term(3, -1, Term(0, 1, Done))))
  }

  lemma Value256(terms: Terms, w: nat)
    requires terms == Terms256() && w == 8
    ensures Below(terms, w) && P256 == Pow32(w) - Value(terms)
  {
    assert Pow32(4) == 0x1_00000000_00000000_00000000_00000000;
  }

  lemma Tap256(q: seq<int>, k: int)
    ensures Tap(Terms256(), q, k) == Coef(q, k) + Coef(q, k - 7) - Coef(q, k - 3) - Coef(q, k - 6)
  {
    TapStep(0, 1, Done, q, k);
    TapStep(3, -1, Term(0, 1, Done), q, k);
    TapStep(6, -1, Term(3, -1, Term(0, 1, Done)), q, k);
    TapStep(7, 1, Term(6, -1, Term(3, -1, Term(0, 1, Done))), q, k);
  }

  /** One quotient word per high word, from the top. */
  function Quotient256(v: seq<int>): (q: seq<int>)
    requires |v| == 16
    ensures |q| == 8
  {
    var q7 := v[15];
    var q6 := v[14] + q7;
    var q5 := v[13] + q6 - q7;
    var q4 := v[12] + q5 - q6;
    var q3 := v[11] + q4 - q5;
    var q2 := v[10] + q3 - q4 - q7;
    var q1 := v[9] + q2 - q3 - q6;
    var q0 := v[8] + q1 - q2 - q5;
    [q0, q1, q2, q3, q4, q5, q6, q7]
  }

  lemma Divided256From0(a: seq<Word>, u: seq<int>)
    requires |a| == 16 && u == Columns(a, Program256())
    ensures DividedAt(a, u, Quotient256(a), Terms256(), 0)
    ensures DividedAt(a, u, Quotient256(a), Terms256(), 1)
    ensures DividedAt(a, u, Quotient256(a), Terms256(), 2)
    ensures DividedAt(a, u, Quotient256(a), Terms256(), 3)
  {
    var q := Quotient256(a);
    Tap256(q, 0);
    Tap256(q, 8);
    Tap256(q, 1);
    Tap256(q, 9);
    Tap256(q, 2);
    Tap256(q, 10);
    Tap256(q, 3);
    Tap256(q, 11);
  }

  lemma Divided256From4(a: seq<Word>, u: seq<int>)
    requires |a| == 16 && u == Columns(a, Program256())
    ensures DividedAt(a, u, Quotient256(a), Terms256(), 4)
    ensures DividedAt(a, u, Quotient256(a), Terms256(), 5)
    ensures DividedAt(a, u, Quotient256(a), Terms256(), 6)
    ensures DividedAt(a, u, Quotient256(a), Terms256(), 7)
  {
    var q := Quotient256(a);
    Tap256(q, 4);
    Tap256(q, 12);
    Tap256(q, 5);
    Tap256(q, 13);
    Tap256(q, 6);
    Tap256(q, 14);
    Tap256(q, 7);
    Tap256(q, 15);
  }

  lemma Divided256(a: seq<Word>, u: seq<int>)
    requires |a| == 16 && u == Columns(a, Program256())
    ensures Divided(a, u, Quotient256(a), Terms256())
  {
    Divided256From0(a, u);
    Divided256From4(a, u);
  }

  lemma Legal256(prog: Program)
    requires prog == Program256()
    ensures Legal(prog, 16)
  {
  }

  lemma All256(prog: Program, terms: Terms)
    requires prog == Program256() && terms == Terms256()
    ensures forall a: seq<Word> | |a| == 16 :: Divisible(a, prog, terms)
  {
    forall a: seq<Word> | |a| == 16
      ensures Divisible(a, prog, terms)
    {
      Divided256(a, Columns(a, prog));
    }
  }

  method Load256() returns (prog: Program, ghost terms: Terms)
    ensures |prog| == 8 && Folds(prog, terms, 256, P256)
  {
    prog, terms := Program256(), Terms256();
    Legal256(prog);
    Value256(terms, |prog|);
    All256(prog, terms);
  }

  /** Quasi-reduction modulo p256: any N of at most 512 bits keeps its residue. */
  method ModP256(N: Mpi)
    requires NonNegative(N) && Val(N.p) < Pow32(16)
    modifies N
    ensures Cong(N.Value(), old(N.Value()), P256)
  {
    var prog;
    ghost var terms;
    prog, terms := Load256();
    QuasiReduce(N, 256, prog, terms, P256);
  }

  // ----- p384

  const P384: nat :=
    0xffffffff_ffffffff_ffffffff_ffffffff_ffffffff_ffffffff_ffffffff_fffffffe_ffffffff_00000000_00000000_ffffffff

  function Program384(): Program {
    [
      Add(12, Add(21, Add(20, Sub(23, End)))),
      Add(13, Add(22, Add(23, Sub(12, Sub(20, End))))),
      Add(14, Add(23, Sub(13, Sub(21, End)))),
      Add(15, Add(12, Add(20, Add(21, Sub(14, Sub(22, Sub(23, End))))))),
      Add(21, Add(21, Add(16, Add(13, Add(12, Add(20, Add(22, Sub(15, Sub(23, Sub(23, End)))))))))),
      Add(22, Add(22, Add(17, Add(14, Add(13, Add(21, Add(23, Sub(16, End)))))))),
      Add(23, Add(23, Add(18, Add(15, Add(14, Add(22, Sub(17, End))))))),
      Add(19, Add(16, Add(15, Add(23, Sub(18, End))))),
      Add(20, Add(17, Add(16, Sub(19, End)))),
      Add(21, Add(18, Add(17, Sub(20, End)))),
      Add(22, Add(19, Add(18, Sub(21, End)))),
      Add(23, Add(20, Add(19, Sub(22, End))))
    ]
  }

  /** p384 = x^12 - (x^4 + x^3 - x^1 + 1). */
  function Terms384(): Terms {
    Term(4, 1, Term(3, 1, Term(1, -1, Term(0, 1, Done))))
  }

  lemma Value384(terms: Terms, w: nat)
    requires terms == Terms384() && w == 12
    ensures Below(terms, w) && P384 == Pow32(w) - Value(terms)
  {
    assert Pow32(4) == 0x1_00000000_00000000_00000000_00000000;
    assert Pow32(8) == 0x1_00000000_00000000_00000000_00000000_00000000_00000000_00000000_00000000;
  }

  lemma Tap384(q: seq<int>, k: int)
    ensures Tap(Terms384(), q, k) == Coef(q, k) + Coef(q, k - 3) + Coef(q, k - 4) - Coef(q, k - 1)
  {
    TapStep(0, 1, Done, q, k);
    TapStep(1, -1, Term(0, 1, Done), q, k);
    TapStep(3, 1, Term(1, -1, Term(0, 1, Done)), q, k);
    TapStep(4, 1, Term(3, 1, Term(1, -1, Term(0, 1, Done))), q, k);
  }

  /** One quotient word per high word, from the top. */
  function Quotient384(v: seq<int>): (q: seq<int>)
    requires |v| == 24
    ensures |q| == 12
  {
    var q11 := v[23];
    var q10 := v[22];
    var q9 := v[21];
    var q8 := v[20];
    var q7 := v[19];
    var q6 := v[18];
    var q5 := v[17];
    var q4 := v[16];
    var q3 := v[15] + q11;
    var q2 := v[14] + q10 + q11;
    var q1 := v[13] + q9 + q10;
    var q0 := v[12] + q8 + q9 - q11;
    [q0, q1, q2, q3, q4, q5, q6, q7, q8, q9, q10, q11]
  }

  lemma Divided384From0(a: seq<Word>, u: seq<int>)
    requires |a| == 24 && u == Columns(a, Program384())
    ensures DividedAt(a, u, Quotient384(a), Terms384(), 0)
    ensures DividedAt(a, u, Quotient384(a), Terms384(), 1)
    ensures DividedAt(a, u, Quotient384(a), Terms384(), 2)
  {
    var q := Quotient384(a);
    Tap384(q, 0);
    Tap384(q, 12);
    Tap384(q, 1);
    Tap384(q, 13);
    Tap384(q, 2);
    Tap384(q, 14);
  }

  lemma Divided384From3(a: seq<Word>, u: seq<int>)
    requires |a| == 24 && u == Columns(a, Program384())
    ensures DividedAt(a, u, Quotient384(a), Terms384(), 3)
    ensures DividedAt(a, u, Quotient384(a), Terms384(), 4)
    ensures DividedAt(a, u, Quotient384(a), Terms384(), 5)
  {
    var q := Quotient384(a);
    Tap384(q, 3);
    Tap384(q, 15);
    Tap384(q, 4);
    Tap384(q, 16);
    Tap384(q, 5);
    Tap384(q, 17);
  }

  lemma Divided384From6(a: seq<Word>, u: seq<int>)
    requires |a| == 24 && u == Columns(a, Program384())
    ensures DividedAt(a, u, Quotient384(a), Terms384(), 6)
    ensures DividedAt(a, u, Quotient384(a), Terms384(), 7)
    ensures DividedAt(a, u, Quotient384(a), Terms384(), 8)
  {
    var q := Quotient384(a);
    Tap384(q, 6);
    Tap384(q, 18);
    Tap384(q, 7);
    Tap384(q, 19);
    Tap384(q, 8);
    Tap384(q, 20);
  }

  lemma Divided384From9(a: seq<Word>, u: seq<int>)
    requires |a| == 24 && u == Columns(a, Program384())
    ensures DividedAt(a, u, Quotient384(a), Terms384(), 9)
    ensures DividedAt(a, u, Quotient384(a), Terms384(), 10)
    ensures DividedAt(a, u, Quotient384(a), Terms384(), 11)
  {
    var q := Quotient384(a);
    Tap384(q, 9);
    Tap384(q, 21);
    Tap384(q, 10);
    Tap384(q, 22);
    Tap384(q, 11);
    Tap384(q, 23);
  }

  lemma Divided384(a: seq<Word>, u: seq<int>)
    requires |a| == 24 && u == Columns(a, Program384())
    ensures Divided(a, u, Quotient384(a), Terms384())
  {
    Divided384From0(a, u);
    Divided384From3(a, u);
    Divided384From6(a, u);
    Divided384From9(a, u);
  }

  lemma Legal384(prog: Program)
    requires prog == Program384()
    ensures Legal(prog, 24)
  {
  }

  lemma All384(prog: Program, terms: Terms)
    requires prog == Program384() && terms == Terms384()
    ensures forall a: seq<Word> | |a| == 24 :: Divisible(a, prog, terms)
  {
    forall a: seq<Word> | |a| == 24
      ensures Divisible(a, prog, terms)
    {
      Divided384(a, Columns(a, prog));
    }
  }

  method Load384() returns (prog: Program, ghost terms: Terms)
    ensures |prog| == 12 && Folds(prog, terms, 384, P384)
  {
    prog, terms := Program384(), Terms384();
    Legal384(prog);
    Value384(terms, |prog|);
    All384(prog, terms);
  }

  /** Quasi-reduction modulo p384: any N of at most 768 bits keeps its residue. */
  method ModP384(N: Mpi)
    requires NonNegative(N) && Val(N.p) < Pow32(24)
    modifies N
    ensures Cong(N.Value(), old(N.Value()), P384)
  {
    var prog;
    ghost var terms;
    prog, terms := Load384();
    QuasiReduce(N, 384, prog, terms, P384);
  }
}
