/** Jacobian coordinates back to affine: one point alone, and many points with a single inversion. */
module BatchNormalise {
  import opened Arith
  import opened Limbs
  import opened Mpis
  import opened Congruence
  import opened Divisors
  import opened Division
  import opened GcdInverse

  /** The limbs of a number, least significant first. */
  function LimbsOf(v: nat): (p: seq<Limb>)
    ensures Val(p) == v
  {
    if v == 0 then [] else [v % BASE] + LimbsOf(v / BASE)
  }

  /** inv_mod on residues. */
  method FieldInverse(a: nat, p: nat) returns (st: Status, x: nat)
    requires p > 1
    ensures st == if Coprime(a, p) then Ok else NotAcceptable
    ensures st == Ok ==> x < p && Cong(a * x, 1, p)
  {
    var X := new Mpi();
    var A := new Mpi();
    var N := new Mpi();
    A.p := LimbsOf(a);
    N.p := LimbsOf(p);
    assert A.Value() == a && N.Value() == p;
    st := InvMod(X, A, N);
    x := Val(X.p);
  }

  // ----- points

  /** The third coordinate; the batch routine frees it, since it is 1 by then. */
  datatype ZCoord = Stored(v: nat) | Freed

  class JacPoint {
    var X: nat
    var Y: nat
    var Z: ZCoord
  }

  /** (x', y') is the affine point of Jacobian (x : y : z): x' z^2 = x and y' z^3 = y modulo p. */
  ghost predicate Affine(x': nat, y': nat, x: nat, y: nat, z: nat, p: nat)
    requires p > 1
  {
    x' < p && y' < p && Cong(x' * (z * z), x, p) && Cong(y' * (z * (z * z)), y, p)
  }

  /** There is at most one affine point, so every routine that finds it agrees with every other. */
  lemma AffineUnique(x1: nat, y1: nat, x2: nat, y2: nat, x: nat, y: nat, z: nat, p: nat)
    requires p > 1 && Coprime(z, p) && Affine(x1, y1, x, y, z, p) && Affine(x2, y2, x, y, z, p)
    ensures x1 == x2 && y1 == y2
  {
    MulMono(0, z, z);
    var zz: nat := z * z;
    MulMono(0, zz, z);
    CoprimeProduct(z, z, p);
    CoprimeProduct(z, zz, p);
    SolutionUnique(x1, x2, x, zz, p);
    SolutionUnique(y1, y2, y, z * zz, p);
  }

  lemma SolutionUnique(a: nat, b: nat, x: nat, f: nat, p: nat)
    requires p > 1 && Coprime(f, p) && a < p && b < p && Cong(a * f, x, p) && Cong(b * f, x, p)
    ensures a == b
  {
    var inv := CoprimeInverse(f, p);
    CongSym(b * f, x, p);
    CongTrans(a * f, x, b * f, p);
    CongCancel(a, b, f, inv, p);
    CongCanonical(a, b, p);
    ModUnique(b, 0, b, p);
  }

  // ----- scaling by 1/z^2 and 1/z^3

  /** MOD_MUL: the product reduced modulo p. */
  function MulMod(a: nat, b: nat, p: nat): (r: nat)
    requires p > 0
    ensures r < p
  {
    (a * b) % p
  }

  lemma MulModCong(a: nat, b: nat, a': int, b': int, p: nat)
    requires p > 0 && Cong(a, a', p) && Cong(b, b', p)
    ensures Cong(MulMod(a, b, p), a' * b', p)
  {
    CongMul(a, a', b, b', p);
    CongMod(a * b, p);
    CongTrans(MulMod(a, b, p), a * b, a' * b', p);
  }

  function ScaledX(x: nat, zi: nat, p: nat): nat
    requires p > 0
  {
    MulMod(x, MulMod(zi, zi, p), p)
  }

  function ScaledY(y: nat, zi: nat, p: nat): nat
    requires p > 0
  {
    MulMod(MulMod(y, MulMod(zi, zi, p), p), zi, p)
  }

  lemma ScaledCong(x: nat, y: nat, zi: nat, p: nat)
    requires p > 0
    ensures Cong(ScaledX(x, zi, p), x * (zi * zi), p)
    ensures Cong(ScaledY(y, zi, p), (y * (zi * zi)) * zi, p)
  {
    CongRefl(zi, p);
    CongRefl(x, p);
    CongRefl(y, p);
    MulModCong(zi, zi, zi, zi, p);
    var zz := MulMod(zi, zi, p);
    MulModCong(x, zz, x, zi * zi, p);
    MulModCong(y, zz, y, zi * zi, p);
    MulModCong(MulMod(y, zz, p), zi, y * (zi * zi), zi, p);
  }

  /** Multiplying an inverse power back in. */
  lemma Unscale(r: int, x: int, zi: int, z: int, p: nat)
    requires p > 0 && Cong(r, x * zi, p) && Cong(z * zi, 1, p)
    ensures Cong(r * z, x, p)
  {
    CongRefl(z, p);
    CongMul(r, x * zi, z, z, p);
    CongRefl(x, p);
    CongMul(x, x, z * zi, 1, p);
    assert (x * zi) * z == x * (z * zi) by {
      Assoc(x, zi, z);
    }
    CongTrans(r * z, x * (z * zi), x * 1, p);
  }

  lemma SquareInverse(z: int, zi: int, p: nat)
    requires p > 0 && Cong(z * zi, 1, p)
    ensures Cong((z * z) * (zi * zi), 1, p) && Cong((z * (z * z)) * (zi * (zi * zi)), 1, p)
  {
    CongMul(z * zi, 1, z * zi, 1, p);
    assert (z * zi) * (z * zi) == (z * z) * (zi * zi) by {
      FourSwap(z, zi, z, zi);
    }
    CongMul(z * zi, 1, (z * z) * (zi * zi), 1, p);
    FourSwap(z, zi, z * z, zi * zi);
  }

  lemma FourSwap(a: int, b: int, c: int, d: int)
    ensures (a * b) * (c * d) == (a * c) * (b * d)
  {
    Assoc(a, b, c * d);
    Rotate(c, b, d);
    Assoc(a, c, b * d);
  }

  lemma ScaledIsAffine(x: nat, y: nat, z: nat, zi: nat, p: nat)
    requires p > 1 && Cong(z * zi, 1, p)
    ensures Affine(ScaledX(x, zi, p), ScaledY(y, zi, p), x, y, z, p)
  {
    ScaledCong(x, y, zi, p);
    SquareInverse(z, zi, p);
    Unscale(ScaledX(x, zi, p), x, zi * zi, z * z, p);
    assert (y * (zi * zi)) * zi == y * (zi * (zi * zi)) by {
      Assoc(y, zi * zi, zi);
    }
    Unscale(ScaledY(y, zi, p), y, zi * (zi * zi), z * (z * z), p);
  }

  method Rescale(pt: JacPoint, Zi: nat, p: nat)
    requires p > 0
    modifies pt
    ensures pt.X == ScaledX(old(pt.X), Zi, p) && pt.Y == ScaledY(old(pt.Y), Zi, p) && pt.Z == old(pt.Z)
  {
    var ZZi := MulMod(Zi, Zi, p);
    pt.X := MulMod(pt.X, ZZi, p);
    pt.Y := MulMod(pt.Y, ZZi, p);
    pt.Y := MulMod(pt.Y, Zi, p);
  }

  /** One point alone. */
  method NormalizeJac(pt: JacPoint, p: nat) returns (st: Status)
    requires p > 1 && pt.Z.Stored?
    modifies pt
    ensures st == if old(pt.Z.v) == 0 || Coprime(old(pt.Z.v), p) then Ok else NotAcceptable
    ensures st == Ok && old(pt.Z.v) != 0 ==>
              pt.Z == Stored(1) && Affine(pt.X, pt.Y, old(pt.X), old(pt.Y), old(pt.Z.v), p)
    ensures st != Ok || old(pt.Z.v) == 0 ==> pt.X == old(pt.X) && pt.Y == old(pt.Y) && pt.Z == old(pt.Z)
  {
    if pt.Z.v == 0 {
      return Ok;
    }
    var Zi;
    st, Zi := FieldInverse(pt.Z.v, p);
    if st != Ok {
      return;
    }
    ScaledIsAffine(pt.X, pt.Y, pt.Z.v, Zi, p);
    Rescale(pt, Zi, p);
    pt.Z := Stored(1);
  }

  // ----- many points

  /** Z_0 * ... * Z_(n-1). */
  ghost function Product(z: seq<nat>, n: nat): nat
    requires n <= |z|
  {
    if n == 0 then 1 else Product(z, n - 1) * z[n - 1]
  }

  lemma {:induction false} ProductCoprime(z: seq<nat>, n: nat, p: nat)
    requires n <= |z| && p > 1
    ensures Coprime(Product(z, n), p) <==> forall k :: 0 <= k < n ==> Coprime(z[k], p)
  {
    if n == 0 {
      CongRefl(1, p);
      InverseOnlyIfCoprime(1, 1, p);
    } else {
      ProductCoprime(z, n - 1, p);
      CoprimeProduct(Product(z, n - 1), z[n - 1], p);
    }
  }

  /** c[i] = Z_0 * ... * Z_i mod p. */
  method PrefixProducts(T: seq<JacPoint>, p: nat, ghost z: seq<nat>) returns (c: array<nat>)
    requires |T| >= 2 && p > 0 && |z| == |T| && forall k :: 0 <= k < |T| ==> T[k].Z == Stored(z[k])
    ensures fresh(c) && c.Length == |T| && forall k :: 0 <= k < |T| ==> Cong(c[k], Product(z, k + 1), p)
  {
    c := new nat[|T|](_ => 0);
    c[0] := T[0].Z.v;
    assert Product(z, 1) == Product(z, 0) * z[0];
    CongRefl(z[0], p);
    var i := 1;
    while i < |T|
      invariant 1 <= i <= |T|
      invariant forall k :: 0 <= k < i ==> Cong(c[k], Product(z, k + 1), p)
    {
      CongRefl(z[i], p);
      MulModCong(c[i - 1], z[i], Product(z, i), z[i], p);
      c[i] := MulMod(c[i - 1], T[i].Z.v, p);
      i := i + 1;
    }
  }

  /** From u = 1/(Z_0...Z_i): the inverse of Z_i and the next u. */
  lemma PeelInverse(u: nat, c: nat, prod: nat, z: nat, p: nat)
    requires p > 0 && Cong(c, prod, p) && Cong((prod * z) * u, 1, p)
    ensures Cong(z * MulMod(u, c, p), 1, p)
    ensures Cong(prod * MulMod(u, z, p), 1, p)
  {
    CongRefl(u, p);
    CongRefl(z, p);
    CongRefl(prod, p);
    MulModCong(u, c, u, prod, p);
    MulModCong(u, z, u, z, p);
    CongMul(z, z, MulMod(u, c, p), u * prod, p);
    CongMul(prod, prod, MulMod(u, z, p), u * z, p);
    assert z * (u * prod) == (prod * z) * u by {
      SwapFactors(prod, z, u);
    }
    assert prod * (u * z) == (prod * z) * u by {
      SwapFactors(prod, z, u);
    }
    CongTrans(z * MulMod(u, c, p), (prod * z) * u, 1, p);
    CongTrans(prod * MulMod(u, z, p), (prod * z) * u, 1, p);
  }

  ghost predicate Untouched(T: seq<JacPoint>, x: seq<nat>, y: seq<nat>, z: seq<nat>, n: nat)
    requires |T| == |x| == |y| == |z| && n <= |T|
    reads T
  {
    forall k :: 0 <= k < n ==> T[k].X == x[k] && T[k].Y == y[k] && T[k].Z == Stored(z[k])
  }

  ghost predicate Normalised(T: seq<JacPoint>, x: seq<nat>, y: seq<nat>, z: seq<nat>, n: nat, p: nat)
    requires |T| == |x| == |y| == |z| && n <= |T| && p > 1
    reads T
  {
    forall k :: n <= k < |T| ==> T[k].Z == Freed && Affine(T[k].X, T[k].Y, x[k], y[k], z[k], p)
  }

  /** One turn of the backward loop. */
  method BackwardStep(T: seq<JacPoint>, c: array<nat>, p: nat, i: nat, u: nat, ghost x: seq<nat>, ghost y: seq<nat>,
                      ghost z: seq<nat>)
    returns (u': nat)
    requires p > 1 && i < |T| == c.Length == |x| == |y| == |z|
    requires forall j, k :: 0 <= j < k < |T| ==> T[j] != T[k]
    requires Untouched(T, x, y, z, i + 1) && Normalised(T, x, y, z, i + 1, p)
    requires forall k :: 0 <= k < |T| ==> Cong(c[k], Product(z, k + 1), p)
    requires Cong(Product(z, i + 1) * u, 1, p)
    modifies T[i]
    ensures Untouched(T, x, y, z, i) && Normalised(T, x, y, z, i, p)
    ensures Cong(Product(z, i) * u', 1, p) || i == 0
  {
    var Zi;
    u' := u;
    if i == 0 {
      assert Product(z, 1) == Product(z, 0) * z[0];
      Zi := u;
    } else {
      PeelInverse(u, c[i - 1], Product(z, i), z[i], p);
      Zi := MulMod(u, c[i - 1], p);
      u' := MulMod(u, T[i].Z.v, p);
    }
    ScaledIsAffine(x[i], y[i], z[i], Zi, p);
    Rescale(T[i], Zi, p);
    T[i].Z := Freed;
  }

  method BackwardPass(T: seq<JacPoint>, c: array<nat>, p: nat, u0: nat, ghost x: seq<nat>, ghost y: seq<nat>,
                      ghost z: seq<nat>)
    requires p > 1 && |T| == c.Length == |x| == |y| == |z|
    requires forall j, k :: 0 <= j < k < |T| ==> T[j] != T[k]
    requires Untouched(T, x, y, z, |T|)
    requires forall k :: 0 <= k < |T| ==> Cong(c[k], Product(z, k + 1), p)
    requires Cong(Product(z, |T|) * u0, 1, p)
    modifies T
    ensures Normalised(T, x, y, z, 0, p)
  {
    var u := u0;
    var i := |T|;
    while i != 0
      invariant 0 <= i <= |T| && Untouched(T, x, y, z, i) && Normalised(T, x, y, z, i, p)
      invariant i > 0 ==> Cong(Product(z, i) * u, 1, p)
    {
      i := i - 1;
      u := BackwardStep(T, c, p, i, u, x, y, z);
    }
  }

  /** Two or more points, with one inversion, over the coordinates (x, y, z) they come in with. */
  method NormalizeAll(T: seq<JacPoint>, p: nat, ghost x: seq<nat>, ghost y: seq<nat>, ghost z: seq<nat>)
    returns (st: Status)
    requires |T| >= 2 && p > 1 && (forall j, k :: 0 <= j < k < |T| ==> T[j] != T[k])
    requires |T| == |x| == |y| == |z| && Untouched(T, x, y, z, |T|)
    modifies T
    ensures st == Ok <==> forall k :: 0 <= k < |T| ==> Coprime(z[k], p)
    ensures st == Ok ==> Normalised(T, x, y, z, 0, p)
    ensures st != Ok ==> Untouched(T, x, y, z, |T|)
  {
    var c := PrefixProducts(T, p, z);
    var t := |T|;
    var u;
    st, u := FieldInverse(c[t - 1], p);
    ProductCoprime(z, t, p);
    CoprimeOfPrefix(c[t - 1], Product(z, t), p);
    if st == Ok {
      InverseOfPrefix(c[t - 1], Product(z, t), u, p);
      BackwardPass(T, c, p, u, x, y, z);
    }
  }

  /**
   The whole routine.  It succeeds exactly when every Z is invertible (a lone point may also be the
   zero point), and then each point has the affine coordinates it would get alone; on failure nothing
   has changed.
   */
  method NormalizeJacMany(T: seq<JacPoint>, p: nat, ghost x: seq<nat>, ghost y: seq<nat>, ghost z: seq<nat>)
    returns (st: Status)
    requires |T| >= 1 && p > 1 && (forall j, k :: 0 <= j < k < |T| ==> T[j] != T[k])
    requires |T| == |x| == |y| == |z| && Untouched(T, x, y, z, |T|)
    modifies T
    ensures st == Ok <==> (|T| == 1 && z[0] == 0) || forall k :: 0 <= k < |T| ==> Coprime(z[k], p)
    ensures st == Ok && !(|T| == 1 && z[0] == 0) ==>
              forall k :: 0 <= k < |T| ==> Affine(T[k].X, T[k].Y, x[k], y[k], z[k], p)
    ensures st != Ok ==> Untouched(T, x, y, z, |T|)
  {
    if |T| < 2 {
      st := NormalizeJac(T[0], p);
    } else {
      st := NormalizeAll(T, p, x, y, z);
    }
  }

  lemma CoprimeOfPrefix(c: nat, prod: nat, p: nat)
    requires p > 1 && Cong(c, prod, p)
    ensures Coprime(c, p) <==> Coprime(prod, p)
  {
    CongSym(c, prod, p);
    if Coprime(c, p) {
      CoprimeCong(c, prod, p);
    }
    if Coprime(prod, p) {
      CoprimeCong(prod, c, p);
    }
  }

  lemma InverseOfPrefix(c: nat, prod: nat, u: nat, p: nat)
    requires p > 1 && Cong(c, prod, p) && Cong(c * u, 1, p)
    ensures Cong(prod * u, 1, p)
  {
    CongSym(c, prod, p);
    CongRefl(u, p);
    CongMul(prod, c, u, u, p);
    CongTrans(prod * u, c * u, 1, p);
  }
}
