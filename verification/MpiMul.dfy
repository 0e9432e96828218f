/** Multiplication of bignum.c (mbedtls_mpi_mul_mpi, mbedtls_mpi_mul_int). */
module MpiMul {
  import opened Arith
  import opened Words
  import opened Mpis
  import opened MpiAddSub
  import MulAdd

  lemma ProductFits(a: nat, b: nat, p: nat, q: nat)
    requires a < p && b < q
    ensures a * b < p * q
  {
    MulMono(a, p, b);
    MulMono(b + 1, q, p);
    assert (b + 1) * p == p * b + p && q * p == p * q;
  }

  /** A + (b - 1) * A, computed over at least one limb more than A has, loses no carry. */
  lemma TimesByAdding(v': nat, c: nat, p: nat, a: nat, b: nat, m: nat, q: nat)
    requires MulAdd.MulAddEq(v', c, p, a, m, a) && m == b - 1 && 0 < b < BETA && a < q && BETA * q <= p
    ensures v' == a * b
  {
    ProductFits(b, a, BETA, q);
    assert a + (b - 1) * a == a * b;
    if c >= 1 {
      MulMono(1, c, p);
    }
  }

  /** X := A * b for a limb b. X may be A. */
  method MulInt(X: Mpi, A: Mpi, b: Limb)
    modifies X
    ensures X.Value() == old(A.Value()) * b && X.Abs() == old(A.Abs()) * b
    ensures |X.p| >= |old(X.p)| && |X.p| >= 1
  {
    hide Val, Sig;
    var n := SignificantLimbs(A.p);
    ghost var a, v, s := A.p, A.Abs(), A.s;
    SigBounds(a);
    if b == 0 || n == 0 {
      Lset(X, 0);
      ZeroProduct(s, v, b);
      return;
    }
    Grow(X, n + 1);
    Copy(X, A);
    assert A.p[..n] == a[..n];
    AddMultiple(X, A, n, b - 1);
    SignedProduct(X.s, v, b);
  }

  /** X := X + A * m, where X already holds A; X has a limb to spare. X may be A. */
  method AddMultiple(X: Mpi, A: Mpi, n: nat, m: Limb)
    requires n <= |A.p| && n < |X.p| && m + 1 < BETA && Val(A.p[..n]) == X.Abs()
    modifies X
    ensures X.s == old(X.s) && |X.p| == |old(X.p)|
    ensures X.Abs() == old(X.Abs()) * (m + 1)
  {
    hide Val, BPow, MulAdd.MulAddEq;
    ghost var a, v := A.p, X.Abs();
    var xs := ToArray(X.p);
    var al := xs;
    if A != X {
      al := ToArray(A.p);
    }
    assert xs[0..0 + xs.Length] == X.p && al[..n] == a[..n];
    ValBound(a[..n]);
    var c := MulAdd.Mla(xs, 0, xs.Length, al, n, m);
    assert xs[0..0 + xs.Length] == xs[..];
    BPowMonotone(n + 1, xs.Length);
    BPowStep(n);
    TimesByAdding(Val(xs[..]), c, BPow(xs.Length), v, m + 1, m, BPow(n));
    X.p := xs[..];
  }

  lemma ZeroProduct(s: int, v: int, b: int)
    requires v == 0 || b == 0
    ensures v * b == 0 && s * v * b == 0
  {
  }

  lemma SignedProduct(s: int, v: int, b: int)
    ensures s * (v * b) == s * v * b
  {
  }

  // ---- A * B ----------------------------------------------------------------

  /** x holds a * b[..k] (as numbers) in its low i + k limbs, and nothing above. */
  ghost predicate Products(x: seq<Limb>, a: nat, b: seq<Limb>, i: nat, k: nat)
    requires k <= |b| && i + k <= |x|
  {
    && Val(x) == a * Val(b[..k])
    && forall j :: i + k <= j < |x| ==> x[j] == 0
  }

  lemma RowValue(x: nat, lo: nat, p: nat, hi: nat, x': nat, hi': nat, a: nat, bv: nat, bk: nat)
    requires Parts(x, lo, p, hi) && Parts(x', lo, p, hi')
    requires hi' == hi + bk * a && x == a * bv
    ensures x' == a * (bv + bk * p)
  {
    assert p * (hi + bk * a) == p * hi + a * (bk * p);
    assert a * (bv + bk * p) == a * bv + a * (bk * p);
  }

  lemma RowCarry(v': nat, c: nat, p: nat, q: nat, v: nat, b: nat, a: nat)
    requires MulAdd.MulAddEq(v', c, p, v, b, a)
    requires p == BETA * q && v < q && a < q && b < BETA
    ensures v' == v + b * a
  {
    MulMono(b, BETA - 1, a);
    if c >= 1 {
      MulMono(1, c, p);
    }
  }

  /** One row: the window of i + 1 limbs at k takes B[k] * A in. */
  method MulRow(xs: array<Limb>, al: array<Limb>, i: nat, k: nat, bk: Limb, ghost b: seq<Limb>, ghost a: nat)
    requires i <= al.Length && k < |b| && i + k + 1 <= xs.Length && xs != al && bk == b[k]
    requires a == Val(al[..i]) && Products(xs[..], a, b, i, k)
    modifies xs
    ensures Products(xs[..], a, b, i, k + 1)
  {
    hide Val, BPow, MulAdd.MulAddEq, Parts;
    ghost var x0 := xs[..];
    ghost var w0 := xs[k..k + i + 1];
    var c := MulAdd.Mla(xs, k, i + 1, al, i, bk);
    ghost var x1, w1 := xs[..], xs[k..k + i + 1];
    WindowIsHigh(x0, k, i + 1, i);
    WindowIsHigh(x1, k, i + 1, i + 1);
    assert x0[k..k + i + 1] == w0 && x1[k..k + i + 1] == w1 && x1[..k] == x0[..k];
    assert w0[..i] == x0[k..k + i];
    ValBound(w0[..i]);
    ValBound(al[..i]);
    BPowStep(i);
    RowCarry(Val(w1), c, BPow(i + 1), BPow(i), Val(w0), bk, a);
    ValParts(x0, k);
    ValParts(x1, k);
    ValStep(b, k);
    RowValue(Val(x0), Val(x0[..k]), BPow(k), Val(x0[k..]), Val(x1), Val(x1[k..]), a, Val(b[..k]), bk);
  }

  /** When nothing lies above the first m limbs of the window, the window is all there is from k on. */
  lemma WindowIsHigh(x: seq<Limb>, k: nat, n: nat, m: nat)
    requires k + n <= |x| && m <= n && forall j :: k + m <= j < |x| ==> x[j] == 0
    ensures Val(x[k..]) == Val(x[k..k + n]) == Val(x[k..k + m])
  {
    hide Val;
    ValTrim(x[k..], n);
    ValTrim(x[k..], m);
    assert x[k..][..n] == x[k..k + n] && x[k..][..m] == x[k..k + m];
  }

  lemma ProductsStart(x: seq<Limb>, a: nat, b: seq<Limb>, i: nat)
    requires i <= |x| && forall j :: 0 <= j < |x| ==> x[j] == 0
    ensures Products(x, a, b, i, 0)
  {
    ValZeros(x);
    assert b[..0] == [];
  }

  lemma SignedMul(sa: Sign, a: int, sb: Sign, b: int, s: int)
    requires a >= 0 && b >= 0
    requires s == if a == 0 || b == 0 then 1 else sa * sb
    ensures s * (a * b) == (sa * a) * (sb * b)
  {
    if a == 0 || b == 0 {
      ZeroProduct(1, a, b);
      ZeroProduct(1, sa * a, sb * b);
    } else {
      assert (sa * a) * (sb * b) == (sa * sb) * (a * b);
    }
  }

  /** X := A * B. X may be A or B, which are then copied first. */
  method MulMpi(X: Mpi, A0: Mpi, B0: Mpi)
    modifies X
    ensures X.Value() == old(A0.Value()) * old(B0.Value())
  {
    hide Val;
    ghost var av, bv := A0.Value(), B0.Value();
    var A, B := A0, B0;
    if X == A {
      A := new Mpi();
      Copy(A, A0);
    }
    if X == B {
      B := new Mpi();
      Copy(B, B0);
    }
    assert A.Value() == av && B.Value() == bv;
    MulInto(X, A, B);
    SameProduct(A.Value(), B.Value(), av, bv);
  }

  lemma SameProduct(a: int, b: int, c: int, d: int)
    requires a == c && b == d
    ensures a * b == c * d
  {
  }

  method MulInto(X: Mpi, A: Mpi, B: Mpi)
    requires X != A && X != B
    modifies X
    ensures X.Value() == A.Value() * B.Value()
  {
    hide Val, Sig, Products;
    ghost var av, bv := A.Abs(), B.Abs();
    var i := SignificantLimbs(A.p);
    var j := SignificantLimbs(B.p);
    SigBounds(A.p);
    SigBounds(B.p);
    Grow(X, i + j);
    Lset(X, 0);
    MulRows(X, A, B, i, j);
    if i == 0 || j == 0 {
      X.s := 1;
    } else {
      X.s := if A.s == B.s then 1 else -1;
    }
    SignedMul(A.s, av, B.s, bv, X.s);
  }

  method MulRows(X: Mpi, A: Mpi, B: Mpi, i: nat, j: nat)
    requires X != A && X != B && i <= |A.p| && j <= |B.p| && i + j <= |X.p|
    requires Val(A.p[..i]) == A.Abs() && Val(B.p[..j]) == B.Abs()
    requires forall k :: 0 <= k < |X.p| ==> X.p[k] == 0
    modifies X
    ensures X.Abs() == A.Abs() * B.Abs() && |X.p| == |old(X.p)|
  {
    hide Val, Products;
    var xs := ToArray(X.p);
    var al := ToArray(A.p);
    ghost var a, b := Val(A.p[..i]), B.p[..j];
    assert al[..i] == A.p[..i];
    ProductsStart(xs[..], a, b, i);
    for k := 0 to j
      invariant Products(xs[..], a, b, i, k) && al[..i] == A.p[..i]
    {
      MulRow(xs, al, i, k, B.p[k], b, a);
    }
    X.p := xs[..];
    ProductsEnd(X.p, a, b, i);
  }

  lemma ProductsEnd(x: seq<Limb>, a: nat, b: seq<Limb>, i: nat)
    requires i + |b| <= |x| && Products(x, a, b, i, |b|)
    ensures Val(x) == a * Val(b)
  {
    assert b[..|b|] == b;
  }
}
