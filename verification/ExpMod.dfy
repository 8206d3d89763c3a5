/** Sliding-window exponentiation (HAC 14.85): X = A^E mod N for odd N. */
module ExpMod {
  import opened Arith
  import opened Limbs
  import opened Bits
  import opened Congruence
  import opened Divisors
  import opened Mpis
  import opened MpiShift
  import opened Division
  import opened Modulo
  import opened Montgomery

  /** A limb vector holding a^e in Montgomery form, reduced, with room for one more limb. */
  ghost predicate Form(p: seq<Limb>, e: nat, a: nat, n: nat, nv: nat) {
    |p| > n && 0 < nv && Val(p) < nv && Cong(Val(p), Power(a, e) * Pow(n), nv)
  }

  /** What every Montgomery operation of one exponentiation shares: modulus, its word inverse, scratch. */
  ghost predicate Ready(N: Mpi, mm: Limb, T: Mpi)
    reads N, T
  {
    && N != T && N.p != [] && N.p[0] % 2 == 1 && Val(N.p) > 0
    && (N.p[0] * mm + 1) % BASE == 0 && |T.p| >= 2 * |N.p| + 2
  }

  lemma OddModulus(p: seq<Limb>)
    requires p != []
    ensures Val(p) % 2 == p[0] % 2
  {
    var z := p[0] / 2 + (BASE / 2) * Val(p[1..]);
    ModUnique(Val(p), z, p[0] % 2, 2);
  }

  /** R = Pow(n) cancels modulo an odd number. */
  lemma CancelR(x: int, y: int, n: nat, nv: nat)
    requires nv % 2 == 1 && Cong(x * Pow(n), y * Pow(n), nv)
    ensures Cong(x, y, nv)
  {
    var inv := InverseOfPow2(BITS * n, nv);
    PowIsPow2(n);
    CongCancel(x, y, Pow(n), inv, nv);
  }

  lemma ProductForm(x: nat, u: int, y: nat, v: int, z: nat, n: nat, nv: nat)
    requires nv % 2 == 1 && Cong(x, u * Pow(n), nv) && Cong(y, v * Pow(n), nv)
    requires Cong(z * Pow(n), x * y, nv)
    ensures Cong(z, (u * v) * Pow(n), nv)
  {
    var R := Pow(n);
    CongMul(x, u * R, y, v * R, nv);
    CongTrans(z * R, x * y, (u * R) * (v * R), nv);
    assert (u * R) * (v * R) == ((u * v) * R) * R;
    CancelR(z, (u * v) * R, n, nv);
  }

  /** X = X * Y in Montgomery form: exponents add. */
  method MulForm(X: Mpi, Y: Mpi, N: Mpi, mm: Limb, T: Mpi, ghost a: nat, ghost e: nat, ghost f: nat)
    requires Ready(N, mm, T) && X != N && X != T && Y != T
    requires Form(X.p, e, a, |N.p|, Val(N.p)) && Form(Y.p, f, a, |N.p|, Val(N.p))
    modifies X`p, T`p
    ensures |X.p| == old(|X.p|) && |T.p| == old(|T.p|)
    ensures Form(X.p, e + f, a, |N.p|, Val(N.p))
  {
    ghost var x, y, n, nv := Val(X.p), Val(Y.p), |N.p|, Val(N.p);
    ValBound(N.p);
    OddModulus(N.p);
    MontMul(X, Y, N, mm, T);
    ProductForm(x, Power(a, e), y, Power(a, f), Val(X.p), n, nv);
    PowerAdd(a, e, f);
  }

  /** X squared `count` times. */
  method SquareForm(X: Mpi, N: Mpi, mm: Limb, T: Mpi, count: nat, ghost a: nat, ghost e: nat)
    requires Ready(N, mm, T) && X != N && X != T && Form(X.p, e, a, |N.p|, Val(N.p))
    modifies X`p, T`p
    ensures |X.p| == old(|X.p|) && |T.p| == old(|T.p|)
    ensures Form(X.p, e * Pow2(count), a, |N.p|, Val(N.p))
  {
    var i := 0;
    ghost var f := e;
    while i < count
      invariant 0 <= i <= count && |X.p| == old(|X.p|) && |T.p| == old(|T.p|)
      invariant f == e * Pow2(i) && Form(X.p, f, a, |N.p|, Val(N.p))
    {
      MulForm(X, X, N, mm, T, a, f, f);
      Twice(e, i);
      f := f + f;
      i := i + 1;
    }
  }

  lemma Twice(e: nat, i: nat)
    ensures e * Pow2(i) + e * Pow2(i) == e * Pow2(i + 1)
  {
    Rotate(e, 2, Pow2(i));
    Assoc(e, 2, Pow2(i));
  }

  // ----- the exponent, bit by bit from the top

  /** The part of the exponent already read: limbs from nb up, without the low `buf` bits of limb nb. */
  function Consumed(p: seq<Limb>, nb: nat, buf: nat): int
    requires nb <= |p|
  {
    Val(p[nb..]) / Pow2(buf)
  }

  lemma LimbSwitch(p: seq<Limb>, nb: nat)
    requires 0 < nb <= |p|
    ensures Consumed(p, nb - 1, BITS) == Consumed(p, nb, 0)
  {
    LimbIs64Bits();
    assert p[nb - 1..][1..] == p[nb..];
    ModUnique(Val(p[nb - 1..]), Val(p[nb..]), p[nb - 1], BASE);
  }

  lemma NextBit(p: seq<Limb>, nb: nat, buf: nat)
    requires nb < |p| && 0 < buf <= BITS
    ensures Consumed(p, nb, buf - 1) == 2 * Consumed(p, nb, buf) + Bit(p[nb], buf - 1)
  {
    var v := Val(p[nb..]);
    DivDiv(v, Pow2(buf - 1), 2);
    assert Pow2(buf - 1) * 2 == Pow2(buf);
    LowBits(p[nb], Val(p[nb..][1..]), buf - 1);
  }

  // ----- the window state machine

  /**
   X holds a^e, the window collects the bits w read since, and together they make up the exponent
   read so far: h = e * 2^nbits + w.  State 0: only zeros so far; 1: between windows; 2: inside one.
   */
  ghost predicate Window(state: nat, nbits: nat, wbits: nat, wsize: nat, w: nat, e: nat, h: int) {
    && state <= 2 && nbits < wsize
    && h == e * Pow2(nbits) + w && wbits == w * Pow2(wsize - nbits)
    && (state < 2 ==> nbits == 0 && w == 0)
    && (state == 0 ==> e == 0)
    && (state == 2 ==> nbits >= 1 && Pow2(nbits - 1) <= w < Pow2(nbits))
  }

  /** Putting one more bit into the window; a window always starts with a one. */
  lemma WindowAdd(state: nat, nbits: nat, wbits: nat, wsize: nat, w: nat, e: nat, h: int, ei: nat)
    requires Window(state, nbits, wbits, wsize, w, e, h) && ei <= 1 && (ei == 1 || state == 2)
    ensures Or(wbits, ei * Pow2(wsize - nbits - 1)) == (2 * w + ei) * Pow2(wsize - nbits - 1)
    ensures Pow2(nbits) <= 2 * w + ei < Pow2(nbits + 1)
    ensures 2 * h + ei == e * Pow2(nbits + 1) + (2 * w + ei)
  {
    var k := wsize - nbits - 1;
    WindowOr(wbits, w, k, ei);
    Twice(e, nbits);
  }

  lemma WindowOr(wbits: nat, w: nat, k: nat, ei: nat)
    requires wbits == w * Pow2(k + 1) && ei <= 1
    ensures Or(wbits, ei * Pow2(k)) == (2 * w + ei) * Pow2(k)
  {
    assert ei * Pow2(k) == if ei == 0 then 0 else Pow2(k);
    OrIsAdd(w, if ei == 0 then 0 else Pow2(k), k + 1, wbits);
    Twice(w, k);
    Distribute(Pow2(k), 2 * w, ei);
    Assoc(2, w, Pow2(k));
  }

  lemma WindowEnd(state: nat, nbits: nat, wbits: nat, wsize: nat, w: nat, e: nat, h: int)
    requires Window(state, nbits, wbits, wsize, w, e, h)
    ensures w < Pow2(nbits)
  {
  }

  /** The window entries that exist: a itself, and every exponent with wsize bits. */
  ghost predicate Table(W: seq<Mpi>, wsize: nat, a: nat, n: nat, nv: nat)
    requires wsize >= 1
    reads W
  {
    && |W| >= Pow2(wsize)
    && Form(W[1].p, 1, a, n, nv)
    && forall k :: Pow2(wsize - 1) <= k < Pow2(wsize) ==> Form(W[k].p, k, a, n, nv)
  }

  /** A full window: square wsize times and multiply by the table entry. */
  method FlushWindow(X: Mpi, N: Mpi, W: seq<Mpi>, mm: Limb, T: Mpi, wsize: nat, wbits: nat, ghost a: nat, ghost e: nat)
    returns (ghost e': nat)
    requires Ready(N, mm, T) && X != N && X != T && X !in W && T !in W && wsize >= 1
    requires Table(W, wsize, a, |N.p|, Val(N.p)) && Pow2(wsize - 1) <= wbits < Pow2(wsize)
    requires Form(X.p, e, a, |N.p|, Val(N.p))
    modifies X`p, T`p
    ensures |X.p| == old(|X.p|) && |T.p| == old(|T.p|)
    ensures e' == e * Pow2(wsize) + wbits && Form(X.p, e', a, |N.p|, Val(N.p))
  {
    SquareForm(X, N, mm, T, wsize, a, e);
    MulForm(X, W[wbits], N, mm, T, a, e * Pow2(wsize), wbits);
    e' := e * Pow2(wsize) + wbits;
  }

  /** One exponent bit. */
  method ExpBit(X: Mpi, N: Mpi, W: seq<Mpi>, mm: Limb, T: Mpi, wsize: nat, ei: nat,
                state: nat, nbits: nat, wbits: nat, ghost a: nat, ghost w: nat, ghost e: nat, ghost h: int)
    returns (state': nat, nbits': nat, wbits': nat, ghost w': nat, ghost e': nat)
    requires Ready(N, mm, T) && X != N && X != T && X !in W && T !in W && wsize >= 1 && ei <= 1
    requires Table(W, wsize, a, |N.p|, Val(N.p)) && Form(X.p, e, a, |N.p|, Val(N.p))
    requires Window(state, nbits, wbits, wsize, w, e, h)
    modifies X`p, T`p
    ensures |X.p| == old(|X.p|) && |T.p| == old(|T.p|)
    ensures Window(state', nbits', wbits', wsize, w', e', 2 * h + ei)
    ensures Form(X.p, e', a, |N.p|, Val(N.p))
  {
    state', nbits', wbits', w', e' := state, nbits, wbits, w, e;
    if ei == 0 && state == 0 {
      return;
    }
    if ei == 0 && state == 1 {
      MulForm(X, X, N, mm, T, a, e, e);
      e' := e + e;
      return;
    }
    WindowNext(state, nbits, wbits, wsize, w, e, h, ei);
    state', nbits', wbits', w', e' := IntoWindow(X, N, W, mm, T, wsize, ei, nbits, wbits, a, w, e);
  }

  /** The bit joins the window; a full window is worked into X at once. */
  method IntoWindow(X: Mpi, N: Mpi, W: seq<Mpi>, mm: Limb, T: Mpi, wsize: nat, ei: nat,
                    nbits: nat, wbits: nat, ghost a: nat, ghost w: nat, ghost e: nat)
    returns (state': nat, nbits': nat, wbits': nat, ghost w': nat, ghost e': nat)
    requires Ready(N, mm, T) && X != N && X != T && X !in W && T !in W && nbits < wsize && ei <= 1
    requires Table(W, wsize, a, |N.p|, Val(N.p)) && Form(X.p, e, a, |N.p|, Val(N.p))
    requires nbits + 1 == wsize ==> Pow2(wsize - 1) <= Or(wbits, ei * Pow2(wsize - nbits - 1)) < Pow2(wsize)
    modifies X`p, T`p
    ensures |X.p| == old(|X.p|) && |T.p| == old(|T.p|)
    ensures Form(X.p, e', a, |N.p|, Val(N.p))
    ensures var b := Or(wbits, ei * Pow2(wsize - nbits - 1));
            if nbits + 1 < wsize
            then state' == 2 && nbits' == nbits + 1 && wbits' == b && w' == 2 * w + ei && e' == e
            else state' == 1 && nbits' == 0 && wbits' == 0 && w' == 0 && e' == e * Pow2(wsize) + b
  {
    state', nbits' := 2, nbits + 1;
    wbits' := Or(wbits, ei * Pow2(wsize - nbits'));
    w', e' := 2 * w + ei, e;
    if nbits' == wsize {
      e' := FlushWindow(X, N, W, mm, T, wsize, wbits', a, e);
      state', nbits', wbits', w' := state' - 1, 0, 0, 0;
    }
  }

  lemma WindowNext(state: nat, nbits: nat, wbits: nat, wsize: nat, w: nat, e: nat, h: int, ei: nat)
    requires Window(state, nbits, wbits, wsize, w, e, h) && ei <= 1 && (ei == 1 || state == 2)
    ensures var b := Or(wbits, ei * Pow2(wsize - nbits - 1));
            if nbits + 1 < wsize
            then Window(2, nbits + 1, b, wsize, 2 * w + ei, e, 2 * h + ei)
            else Pow2(wsize - 1) <= b < Pow2(wsize) && Window(1, 0, 0, wsize, 0, e * Pow2(wsize) + b, 2 * h + ei)
  {
    WindowAdd(state, nbits, wbits, wsize, w, e, h, ei);
    if nbits + 1 == wsize {
      assert Pow2(0) == 1 && (2 * w + ei) * 1 == 2 * w + ei;
    }
  }

  /** Bit `bufsize` of limb nblimbs of the exponent p. */
  method TakeBit(X: Mpi, limb: Limb, N: Mpi, W: seq<Mpi>, mm: Limb, T: Mpi, wsize: nat, bufsize: nat,
                 state: nat, nbits: nat, wbits: nat, ghost a: nat, ghost w: nat, ghost e: nat,
                 ghost p: seq<Limb>, ghost nblimbs: nat)
    returns (state': nat, nbits': nat, wbits': nat, ghost w': nat, ghost e': nat)
    requires Ready(N, mm, T) && X != N && X != T && X !in W && T !in W && wsize >= 1
    requires Table(W, wsize, a, |N.p|, Val(N.p)) && Form(X.p, e, a, |N.p|, Val(N.p))
    requires nblimbs < |p| && limb == p[nblimbs] && bufsize < BITS
    requires Window(state, nbits, wbits, wsize, w, e, Consumed(p, nblimbs, bufsize + 1))
    modifies X`p, T`p
    ensures |X.p| == old(|X.p|) && |T.p| == old(|T.p|)
    ensures Window(state', nbits', wbits', wsize, w', e', Consumed(p, nblimbs, bufsize))
    ensures Form(X.p, e', a, |N.p|, Val(N.p))
  {
    NextBit(p, nblimbs, bufsize + 1);
    ghost var h := Consumed(p, nblimbs, bufsize + 1);
    var ei := Bit(limb, bufsize);
    state', nbits', wbits', w', e' := ExpBit(X, N, W, mm, T, wsize, ei, state, nbits, wbits, a, w, e, h);
  }

  lemma AllConsumed(p: seq<Limb>)
    ensures Consumed(p, 0, 0) == Val(p)
  {
    assert p[0..] == p && Pow2(0) == 1 && Val(p) / 1 == Val(p);
  }

  lemma NoneConsumed(p: seq<Limb>)
    ensures Consumed(p, |p|, 0) == 0
  {
    assert p[|p|..] == [] && Pow2(0) == 1;
  }

  /** The main loop over all bits of E, then the leftover bits of an unfinished window. */
  method ExpBits(X: Mpi, E: Mpi, N: Mpi, W: seq<Mpi>, mm: Limb, T: Mpi, wsize: nat, ghost a: nat)
    requires Ready(N, mm, T) && X != N && X != T && X !in W && T !in W && wsize >= 1 && E != X && E != T
    requires Table(W, wsize, a, |N.p|, Val(N.p)) && Form(X.p, 0, a, |N.p|, Val(N.p))
    modifies X`p, T`p
    ensures |X.p| == old(|X.p|) && |T.p| == old(|T.p|)
    ensures Form(X.p, Val(E.p), a, |N.p|, Val(N.p))
  {
    var state, nbits, wbits;
    ghost var w, e;
    state, nbits, wbits, w, e := ExpLoop(X, E, N, W, mm, T, wsize, a);
    WindowEnd(state, nbits, wbits, wsize, w, e, Val(E.p));
    ExpTail(X, N, W, mm, T, wsize, nbits, wbits, a, w, e);
  }

  /** All bits from the top; a window may be left unfinished. */
  method ExpLoop(X: Mpi, E: Mpi, N: Mpi, W: seq<Mpi>, mm: Limb, T: Mpi, wsize: nat, ghost a: nat)
    returns (state: nat, nbits: nat, wbits: nat, ghost w: nat, ghost e: nat)
    requires Ready(N, mm, T) && X != N && X != T && X !in W && T !in W && wsize >= 1 && E != X && E != T
    requires Table(W, wsize, a, |N.p|, Val(N.p)) && Form(X.p, 0, a, |N.p|, Val(N.p))
    modifies X`p, T`p
    ensures |X.p| == old(|X.p|) && |T.p| == old(|T.p|)
    ensures Window(state, nbits, wbits, wsize, w, e, Val(E.p)) && Form(X.p, e, a, |N.p|, Val(N.p))
  {
    var nblimbs: nat, bufsize: nat := |E.p|, 0;
    state, nbits, wbits, w, e := 0, 0, 0, 0, 0;
    ghost var p := E.p;
    NoneConsumed(p);
    while true
      invariant E.p == p && nblimbs <= |p| && bufsize <= BITS && (bufsize > 0 ==> nblimbs < |p|)
      invariant |X.p| == old(|X.p|) && |T.p| == old(|T.p|)
      invariant Window(state, nbits, wbits, wsize, w, e, Consumed(p, nblimbs, bufsize))
      invariant Form(X.p, e, a, |N.p|, Val(N.p))
      decreases nblimbs, bufsize
    {
      if bufsize == 0 {
        if nblimbs == 0 {
          break;
        }
        LimbSwitch(p, nblimbs);
        nblimbs := nblimbs - 1;
        bufsize := BITS;
      }
      bufsize := bufsize - 1;
      state, nbits, wbits, w, e :=
        TakeBit(X, E.p[nblimbs], N, W, mm, T, wsize, bufsize, state, nbits, wbits, a, w, e, p, nblimbs);
    }
    AllConsumed(p);
  }

  /** The bits of a window that never filled up, one square and maybe one multiplication each. */
  method ExpTail(X: Mpi, N: Mpi, W: seq<Mpi>, mm: Limb, T: Mpi, wsize: nat, nbits: nat, wbits0: nat,
                 ghost a: nat, ghost w: nat, ghost e: nat)
    requires Ready(N, mm, T) && X != N && X != T && X !in W && T !in W && wsize >= 1
    requires Table(W, wsize, a, |N.p|, Val(N.p)) && Form(X.p, e, a, |N.p|, Val(N.p))
    requires nbits < wsize && w < Pow2(nbits) && wbits0 == w * Pow2(wsize - nbits)
    modifies X`p, T`p
    ensures |X.p| == old(|X.p|) && |T.p| == old(|T.p|)
    ensures Form(X.p, e * Pow2(nbits) + w, a, |N.p|, Val(N.p))
  {
    var wbits, i := wbits0, 0;
    ghost var f := e;
    TailStart(e, w, nbits);
    while i < nbits
      invariant 0 <= i <= nbits && |X.p| == old(|X.p|) && |T.p| == old(|T.p|)
      invariant wbits == w * Pow2(wsize - nbits + i)
      invariant Tail(f, e, w, nbits, i)
      invariant Form(X.p, f, a, |N.p|, Val(N.p))
    {
      Twice(w, wsize - nbits + i);
      wbits := wbits * 2;
      TailStep(f, e, w, nbits, i, wsize, wbits);
      f := TailBit(X, N, W, mm, T, wsize, wbits, a, f);
      i := i + 1;
    }
    assert w / 1 == w;
  }

  method TailBit(X: Mpi, N: Mpi, W: seq<Mpi>, mm: Limb, T: Mpi, wsize: nat, wbits: nat, ghost a: nat, ghost f: nat)
    returns (ghost f': nat)
    requires Ready(N, mm, T) && X != N && X != T && T !in W && X !in W && wsize >= 1
    requires Table(W, wsize, a, |N.p|, Val(N.p)) && Form(X.p, f, a, |N.p|, Val(N.p))
    modifies X`p, T`p
    ensures |X.p| == old(|X.p|) && |T.p| == old(|T.p|)
    ensures f' == 2 * f + Bit(wbits, wsize) && Form(X.p, f', a, |N.p|, Val(N.p))
  {
    MulForm(X, X, N, mm, T, a, f, f);
    f' := f + f;
    if Bit(wbits, wsize) != 0 {
      MulForm(X, W[1], N, mm, T, a, f', 1);
      f' := f' + 1;
    }
  }

  /** After i leftover bits X's exponent is e followed by the top i bits of w. */
  ghost predicate Tail(f: nat, e: nat, w: nat, nbits: nat, i: nat)
    requires i <= nbits
  {
    f == e * Pow2(i) + w / Pow2(nbits - i)
  }

  lemma TailStart(e: nat, w: nat, nbits: nat)
    requires w < Pow2(nbits)
    ensures Tail(e, e, w, nbits, 0)
  {
    ModUnique(w, 0, w, Pow2(nbits));
  }

  lemma TailStep(f: nat, e: nat, w: nat, nbits: nat, i: nat, wsize: nat, wbits: nat)
    requires i < nbits <= wsize && Tail(f, e, w, nbits, i) && wbits == w * Pow2(wsize - nbits + i + 1)
    ensures Tail(2 * f + Bit(wbits, wsize), e, w, nbits, i + 1)
  {
    var k := nbits - i - 1;
    DivDiv(w, Pow2(k), 2);
    assert Pow2(k) * 2 == Pow2(k + 1);
    var m := Pow2(wsize - k);
    Pow2Add(wsize - k, k);
    Pow2Scaled(w, m, Pow2(k));
    assert e * Pow2(i + 1) == 2 * (e * Pow2(i));
  }

  lemma Pow2Scaled(w: nat, m: nat, d: nat)
    requires m > 0 && d > 0
    ensures (w * m) / (m * d) == w / d
  {
    ModUnique(w * m, w, 0, m);
    DivDiv(w * m, m, d);
  }

  // ----- setting up

  /** `count` fresh, distinct, empty numbers. */
  method NewTable(count: nat) returns (W: seq<Mpi>)
    ensures |W| == count && fresh(W)
    ensures forall i, j :: 0 <= i < j < count ==> W[i] != W[j]
  {
    W := [];
    while |W| < count
      invariant |W| <= count && fresh(W)
      invariant forall i, j :: 0 <= i < j < |W| ==> W[i] != W[j]
    {
      var w := new Mpi();
      W := W + [w];
    }
  }

  /** Copies a form into a table slot with room for one more limb than N. */
  method CopyForm(D: Mpi, S: Mpi, n: nat, ghost e: nat, ghost a: nat, ghost nv: nat)
    requires D != S && Form(S.p, e, a, n, nv)
    modifies D
    ensures Form(D.p, e, a, n, nv)
  {
    D.Grow(n + 1);
    D.Copy(S);
  }

  /** W[2^(wsize-1) .. 2^wsize) from W[1]: squarings for the first, one multiplication for each other. */
  method BuildTable(W: seq<Mpi>, N: Mpi, mm: Limb, T: Mpi, wsize: nat, ghost a: nat)
    requires Ready(N, mm, T) && N !in W && T !in W && wsize >= 1 && |W| >= Pow2(wsize)
    requires forall i, j :: 0 <= i < j < |W| ==> W[i] != W[j]
    requires Form(W[1].p, 1, a, |N.p|, Val(N.p))
    modifies W, T`p
    ensures |T.p| == old(|T.p|) && Table(W, wsize, a, |N.p|, Val(N.p))
  {
    if wsize == 1 {
      assert Pow2(0) == 1 && Pow2(1) == 2;
      return;
    }
    var n := |N.p|;
    var j := Pow2(wsize - 1);
    Pow2Mono(1, wsize - 1);
    assert Pow2(1) == 2 && Pow2(wsize) == 2 * j;
    CopyForm(W[j], W[1], n, 1, a, Val(N.p));
    SquareForm(W[j], N, mm, T, wsize - 1, a, 1);
    FillPowers(W, N, mm, T, j, Pow2(wsize), a);
  }

  /** W[i] = W[i - 1] * W[1], for i from j + 1 on. */
  method FillPowers(W: seq<Mpi>, N: Mpi, mm: Limb, T: Mpi, j: nat, end: nat, ghost a: nat)
    requires Ready(N, mm, T) && N !in W && T !in W && 2 <= j < end <= |W|
    requires forall i, k :: 0 <= i < k < |W| ==> W[i] != W[k]
    requires Form(W[1].p, 1, a, |N.p|, Val(N.p)) && Form(W[j].p, j, a, |N.p|, Val(N.p))
    modifies W, T`p
    ensures |T.p| == old(|T.p|) && Form(W[1].p, 1, a, |N.p|, Val(N.p))
    ensures forall k :: j <= k < end ==> Form(W[k].p, k, a, |N.p|, Val(N.p))
  {
    var i := j + 1;
    while i < end
      invariant j < i <= end && |T.p| == old(|T.p|)
      invariant Form(W[1].p, 1, a, |N.p|, Val(N.p))
      invariant forall k :: j <= k < i ==> Form(W[k].p, k, a, |N.p|, Val(N.p))
    {
      NextPower(W[i], W[i - 1], W[1], N, mm, T, i, a);
      i := i + 1;
    }
  }

  method NextPower(D: Mpi, S: Mpi, One: Mpi, N: Mpi, mm: Limb, T: Mpi, i: nat, ghost a: nat)
    requires Ready(N, mm, T) && D != S && D != One && D != N && D != T && One != T && i > 0
    requires Form(S.p, i - 1, a, |N.p|, Val(N.p)) && Form(One.p, 1, a, |N.p|, Val(N.p))
    modifies D, T`p
    ensures |T.p| == old(|T.p|) && Form(D.p, i, a, |N.p|, Val(N.p))
  {
    CopyForm(D, S, |N.p|, i - 1, a, Val(N.p));
    MulForm(D, One, N, mm, T, a, i - 1, 1);
  }

  /** The value the cached helper number must have: R^2 mod N. */
  function SquareOfR(n: nat, nv: nat): int
    requires nv > 0
  {
    (Pow(n) * Pow(n)) % nv
  }

  /** RR = R^2 mod N, computed, or taken from the caller's cache; an empty cache is filled. */
  method PrepareRR(N: Mpi, cache: Mpi?) returns (RR: Mpi)
    requires N.p != [] && Val(N.p) > 0 && N.s == 1 && cache != N
    requires cache != null && cache.p != [] ==> cache.s == 1 && Val(cache.p) == SquareOfR(|N.p|, Val(N.p))
    modifies cache
    ensures fresh(RR) && RR.p != [] && RR.s == 1 && Val(RR.p) == SquareOfR(|N.p|, Val(N.p)) < Val(N.p)
    ensures cache != null ==> cache.s == 1 && cache.p != [] && Val(cache.p) == SquareOfR(|N.p|, Val(N.p))
  {
    RR := new Mpi();
    if cache == null || cache.p == [] {
      RR.Lset(1);
      ShiftL(RR, |N.p| * 2 * BITS);
      TwiceShift(|N.p|);
      var st := ModMpi(RR, RR, N);
      if cache != null {
        cache.s, cache.p := RR.s, RR.p;
      }
    } else {
      RR.s, RR.p := cache.s, cache.p;
    }
  }

  lemma TwiceShift(n: nat)
    ensures 1 * Pow2(n * 2 * BITS) == Pow(n) * Pow(n)
  {
    PowIsPow2(n);
    Pow2Add(BITS * n, BITS * n);
  }

  /** W[1] = A * R mod N and X = R mod N, both through one Montgomery step from R^2. */
  method LoadBase(W1: Mpi, X: Mpi, A: Mpi, RR: Mpi, N: Mpi, mm: Limb, T: Mpi)
    requires Ready(N, mm, T) && N.s == 1 && A.s == 1 && A.p != []
    requires W1 != N && W1 != T && W1 != RR && W1 != X && W1 != A && X != N && X != T && X != RR && RR != T && T != A
    requires |W1.p| > |N.p| && |X.p| > |N.p|
    requires RR.p != [] && RR.s == 1 && Val(RR.p) == SquareOfR(|N.p|, Val(N.p)) < Val(N.p)
    modifies W1, X, T`p
    ensures |T.p| == old(|T.p|) && X.s == 1
    ensures Form(W1.p, 1, old(Val(A.p)), |N.p|, Val(N.p))
    ensures Form(X.p, 0, old(Val(A.p)), |N.p|, Val(N.p))
  {
    ghost var a, n, nv := Val(A.p), |N.p|, Val(N.p);
    ValBound(N.p);
    OddModulus(N.p);
    ReduceBase(W1, A, N);
    ghost var g := Val(W1.p);
    MontMul(W1, RR, N, mm, T);
    BaseForm(g, a, Val(RR.p), Val(W1.p), n, nv);
    X.Copy(RR);
    MontRed(X, N, mm, T);
    UnitForm(Val(RR.p), Val(X.p), n, nv, a);
  }

  /** W[1] = A mod N, without a division when A is already below N. */
  method ReduceBase(W1: Mpi, A: Mpi, N: Mpi)
    requires W1 != N && W1 != A && N.s == 1 && Val(N.p) > 0 && A.s == 1 && A.p != [] && |W1.p| > |N.p|
    modifies W1
    ensures |W1.p| > |N.p| && Val(W1.p) < Val(N.p) && Cong(Val(W1.p), Val(A.p), Val(N.p))
  {
    var cmp := A.CmpMpi(N);
    if cmp >= 0 {
      var st := ModMpi(W1, A, N);
      CongMod(Val(A.p), Val(N.p));
    } else {
      W1.Copy(A);
      CongRefl(Val(A.p), Val(N.p));
    }
  }

  lemma RSquare(n: nat, nv: nat)
    requires nv > 0
    ensures Cong(SquareOfR(n, nv), Pow(n) * Pow(n), nv)
  {
    CongMod(Pow(n) * Pow(n), nv);
  }

  lemma BaseForm(g: nat, a: nat, rr: nat, w: nat, n: nat, nv: nat)
    requires nv % 2 == 1 && Cong(g, a, nv) && rr == SquareOfR(n, nv) && Cong(w * Pow(n), g * rr, nv)
    ensures Cong(w, Power(a, 1) * Pow(n), nv)
  {
    var R := Pow(n);
    RSquare(n, nv);
    CongMul(g, a, rr, R * R, nv);
    CongTrans(w * R, g * rr, a * (R * R), nv);
    Assoc(a, R, R);
    CancelR(w, a * R, n, nv);
    assert Power(a, 1) == a * Power(a, 0) == a;
  }

  lemma UnitForm(rr: nat, x: nat, n: nat, nv: nat, a: nat)
    requires nv % 2 == 1 && rr == SquareOfR(n, nv) && Cong(x * Pow(n), rr, nv)
    ensures Cong(x, Power(a, 0) * Pow(n), nv)
  {
    var R := Pow(n);
    RSquare(n, nv);
    CongTrans(x * R, rr, R * R, nv);
    CancelR(x, R, n, nv);
  }

  function WindowSize(bits: nat, limit: nat): nat {
    var w := if bits > 671 then 6 else if bits > 239 then 5 else if bits > 79 then 4 else if bits > 23 then 3 else 1;
    if w > limit then limit else w
  }

  /** X = A^E mod N for a nonnegative base, on operands already found acceptable. */
  method ExpPositive(X: Mpi, A: Mpi, E: Mpi, N: Mpi, cache: Mpi?, window: nat)
    requires 1 <= window <= 6 && X != E && X != N && cache != N && cache != X && cache != E && cache != A
    requires N.s == 1 && N.p != [] && N.p[0] % 2 == 1 && Val(N.p) > 0 && A.s == 1 && A.p != []
    requires cache != null && cache.p != [] ==> cache.s == 1 && Val(cache.p) == SquareOfR(|N.p|, Val(N.p))
    modifies X, cache
    ensures X.s == 1 && X.p != [] && Val(X.p) == Power(old(Val(A.p)), Val(E.p)) % Val(N.p)
    ensures cache != null ==> cache.s == 1 && cache.p != [] && Val(cache.p) == SquareOfR(|N.p|, Val(N.p))
  {
    ghost var a := Val(A.p);
    var mm := MontgInit(N);
    var bits := BitLen(E);
    var wsize := WindowSize(bits, window);
    var T := new Mpi();
    T.Grow(2 * (|N.p| + 1));
    var W := Precompute(X, A, N, cache, mm, T, wsize, window);
    ExpBits(X, E, N, W, mm, T, wsize, a);
    FromForm(X, N, mm, T, a, Val(E.p));
  }

  /** Everything before the main loop: R^2, W[1], X = R mod N and the window table. */
  method Precompute(X: Mpi, A: Mpi, N: Mpi, cache: Mpi?, mm: Limb, T: Mpi, wsize: nat, window: nat)
    returns (W: seq<Mpi>)
    requires Ready(N, mm, T) && X != N && X != T && A != T && 1 <= wsize <= window <= 6
    requires cache != N && cache != X && cache != A && cache != T
    requires N.s == 1 && A.s == 1 && A.p != []
    requires cache != null && cache.p != [] ==> cache.s == 1 && Val(cache.p) == SquareOfR(|N.p|, Val(N.p))
    modifies X, cache, T`p
    ensures fresh(W) && Table(W, wsize, old(Val(A.p)), |N.p|, Val(N.p)) && |T.p| == old(|T.p|)
    ensures X.s == 1 && Form(X.p, 0, old(Val(A.p)), |N.p|, Val(N.p))
    ensures cache != null ==> cache.s == 1 && cache.p != [] && Val(cache.p) == SquareOfR(|N.p|, Val(N.p))
  {
    ghost var a := Val(A.p);
    X.Grow(|N.p| + 1);
    var RR := PrepareRR(N, cache);
    W := NewTable(2 * Pow2(window));
    Pow2Mono(wsize, window);
    W[1].Grow(|N.p| + 1);
    LoadBase(W[1], X, A, RR, N, mm, T);
    BuildTable(W, N, mm, T, wsize, a);
  }

  /** X = X * R^-1: back from Montgomery form. */
  method FromForm(X: Mpi, N: Mpi, mm: Limb, T: Mpi, ghost a: nat, ghost e: nat)
    requires Ready(N, mm, T) && X != N && X != T && Form(X.p, e, a, |N.p|, Val(N.p))
    modifies X`p, T`p
    ensures |X.p| == old(|X.p|) && Val(X.p) == Power(a, e) % Val(N.p)
  {
    ghost var x, n, nv := Val(X.p), |N.p|, Val(N.p);
    ValBound(N.p);
    OddModulus(N.p);
    MontRed(X, N, mm, T);
    CongTrans(Val(X.p) * Pow(n), x, Power(a, e) * Pow(n), nv);
    CancelR(Val(X.p), Power(a, e), n, nv);
    CongCanonical(Val(X.p), Power(a, e), nv);
  }

  /** What the code returns: for a negative base and odd exponent it negates by subtracting from N. */
  function ExpResult(a: nat, negative: bool, e: nat, nv: nat): int
    requires nv > 0
  {
    var r := Power(a, e) % nv;
    if negative && e % 2 == 1 then nv - r else r
  }

  /**
   X = A^E mod N for odd N > 0 and E >= 0.  X may be A but not E or N.  A must have at least one limb.
   The optional cache carries R^2 mod N from one call with the same N to the next.
   */
  method ExpMod(X: Mpi, A: Mpi, E: Mpi, N: Mpi, cache: Mpi?, window: nat) returns (st: Status)
    requires 1 <= window <= 6 && X != E && X != N && cache != N && cache != X && cache != E && cache != A
    requires A.p != []
    requires N.Value() > 0 && cache != null && cache.p != [] ==>
               cache.s == 1 && Val(cache.p) == SquareOfR(|N.p|, Val(N.p))
    modifies X, cache
    ensures st == if N.Value() <= 0 || N.Value() % 2 == 0 || E.Value() < 0 then BadInputData else Ok
    ensures st == Ok ==> X.Value() == ExpResult(old(Val(A.p)), old(A.s) == -1, Val(E.p), N.Value())
    ensures st == Ok && cache != null ==> cache.p != [] && cache.s == 1 && Val(cache.p) == SquareOfR(|N.p|, Val(N.p))
    ensures st != Ok ==> X.s == old(X.s) && X.p == old(X.p)
  {
    var cmp := N.CmpInt(0);
    if cmp <= 0 {
      return BadInputData;
    }
    OddModulus(N.p);
    if N.p[0] % 2 == 0 {
      return BadInputData;
    }
    cmp := E.CmpInt(0);
    if cmp < 0 {
      return BadInputData;
    }
    var neg := A.s == -1;
    var base := A;
    if neg {
      base := new Mpi();
      base.Copy(A);
      base.s := 1;
    }
    ExpPositive(X, base, E, N, cache, window);
    if E.p != [] {
      OddModulus(E.p);
    }
    if neg && E.p != [] && E.p[0] % 2 != 0 {
      X.s := -1;
      X.AddMpi(N, X);
    }
    st := Ok;
  }

  lemma {:induction false} PowerOfNegative(a: int, e: nat)
    ensures Power(-a, e) == if e % 2 == 1 then - Power(a, e) else Power(a, e)
  {
    if e > 0 {
      PowerOfNegative(a, e - 1);
      NegMul(a, Power(a, e - 1));
      NegMul(a, - Power(a, e - 1));
      NegMul(Power(a, e - 1), a);
    }
  }

  /**
   The result is the residue of A^E in [0, N), with one exception: a negative base, an odd exponent
   and N dividing A^E.  There the code returns N itself.
   */
  lemma ExpResultExact(a: nat, negative: bool, e: nat, nv: nat)
    requires nv > 0
    ensures ExpResult(a, negative, e, nv) == Power(if negative then -(a as int) else a, e) % nv
            <==> !(negative && e % 2 == 1 && Power(a, e) % nv == 0)
    ensures 0 <= ExpResult(a, negative, e, nv) < nv <==> !(negative && e % 2 == 1 && Power(a, e) % nv == 0)
  {
    PowerOfNegative(a, e);
    NegResidue(Power(a, e), nv);
  }

  /** (-3)^1 mod 3 comes out as 3. */
  lemma ExpResultOutOfRange()
    ensures ExpResult(3, true, 1, 3) == 3 && Power(-3, 1) % 3 == 0
  {
    assert Power(3, 1) == 3 * Power(3, 0);
    assert Power(-3, 1) == -3 * Power(-3, 0);
  }

  // ----- the exceptional case as a caller can test it

  lemma {:induction false} PowerDivided(a: nat, e: nat, n: nat)
    requires e > 0 && Divides(n, a)
    ensures Power(a, e) % n == 0
  {
    DividesMultiple(n, a, Power(a, e - 1));
  }

  lemma {:induction false} PowerCoprime(a: nat, e: nat, n: nat)
    requires n > 1 && Coprime(a, n)
    ensures Power(a, e) >= 0 && Coprime(Power(a, e), n)
  {
    if e == 0 {
      CongRefl(1, n);
      InverseOnlyIfCoprime(1, 1, n);
    } else {
      PowerCoprime(a, e - 1, n);
      MulMono(0, a, Power(a, e - 1));
      CoprimeProduct(a, Power(a, e - 1), n);
    }
  }

  /** The result misses the residue whenever N divides a negative A and E is odd. */
  lemma FailsOnMultiples(a: nat, e: nat, nv: nat)
    requires Divides(nv, a) && e % 2 == 1
    ensures ExpResult(a, true, e, nv) == nv
  {
    PowerDivided(a, e, nv);
  }

  /** It never does for an A coprime to N > 1. */
  lemma ExactOnCoprime(a: nat, negative: bool, e: nat, nv: nat)
    requires nv > 1 && Coprime(a, nv)
    ensures ExpResult(a, negative, e, nv) == Power(if negative then -(a as int) else a, e) % nv
  {
    PowerCoprime(a, e, nv);
    NotDivided(Power(a, e), nv);
    ExpResultExact(a, negative, e, nv);
  }

  lemma NotDivided(a: int, n: int)
    requires n > 1 && Coprime(a, n)
    ensures a % n != 0
  {
    ModUnique(n, 1, 0, n);
    assert a % n == 0 ==> Common(n, a, n);
  }

  /** For a prime N it fails exactly for a negative A that N divides and an odd E. */
  lemma ExactForPrime(a: nat, negative: bool, e: nat, nv: nat)
    requires Prime(nv)
    ensures ExpResult(a, negative, e, nv) == Power(if negative then -(a as int) else a, e) % nv
            <==> !(negative && e % 2 == 1 && a % nv == 0)
  {
    PrimeDividesOrCoprime(a, nv);
    ExpResultExact(a, negative, e, nv);
    if Coprime(a, nv) {
      PowerCoprime(a, e, nv);
      NotDivided(Power(a, e), nv);
    } else if e > 0 {
      PowerDivided(a, e, nv);
    }
  }
}
