/** The modular inverse of bignum.c (mbedtls_mpi_inv_mod), for any modulus above 1. */
module MpiInvMod {
  import opened Arith
  import opened Words
  import opened Gcds
  import opened MpiDiv
  import MpiGcd
  import opened Mpis
  import opened MpiAddSub
  import MpiShift

  /** c1 * a + c2 * b == t: what the six working numbers satisfy throughout. */
  ghost predicate Combination(c1: int, a: int, c2: int, b: int, t: int) {
    c1 * a + c2 * b == t
  }

  lemma ParityOfProduct(x: int, y: int)
    ensures x * y % 2 == (if x % 2 == 1 && y % 2 == 1 then 1 else 0)
  {
    var h, g := x / 2, y / 2;
    assert x == 2 * h + x % 2 && y == 2 * g + y % 2;
    var r, q := x % 2, y % 2;
    assert x * y == 2 * (h * y + r * g) + r * q by {
      assert (2 * h + r) * y == 2 * (h * y) + r * y;
      assert r * (2 * g + q) == 2 * (r * g) + r * q;
    }
  }

  lemma Exchange(c1: int, a: int, c2: int, b: int, t: int)
    requires Combination(c1, a, c2, b, t)
    ensures Combination(c1 + b, a, c2 - a, b, t)
  {
    assert (c1 + b) * a == c1 * a + b * a && (c2 - a) * b == c2 * b - a * b;
  }

  lemma BothEven(c1: int, a: int, c2: int, b: int, t: int, d1: int, d2: int)
    requires Combination(c1, a, c2, b, t) && t % 2 == 0 && (a % 2 == 1 || b % 2 == 1)
    requires if c1 % 2 != 0 || c2 % 2 != 0 then d1 == c1 + b && d2 == c2 - a else d1 == c1 && d2 == c2
    ensures d1 % 2 == 0 && d2 % 2 == 0
  {
    ParityOfProduct(c1, a);
    ParityOfProduct(c2, b);
    ParityCases(c1 * a, c1, a, c2 * b, c2, b, t, d1, d2);
  }

  lemma ParityCases(x: int, c1: int, a: int, y: int, c2: int, b: int, t: int, d1: int, d2: int)
    requires x + y == t && t % 2 == 0 && (a % 2 == 1 || b % 2 == 1)
    requires x % 2 == (if c1 % 2 == 1 && a % 2 == 1 then 1 else 0)
    requires y % 2 == (if c2 % 2 == 1 && b % 2 == 1 then 1 else 0)
    requires if c1 % 2 != 0 || c2 % 2 != 0 then d1 == c1 + b && d2 == c2 - a else d1 == c1 && d2 == c2
    ensures d1 % 2 == 0 && d2 % 2 == 0
  {
  }

  lemma HalveBothSides(h1: int, a: int, h2: int, b: int, h: int)
    requires Combination(2 * h1, a, 2 * h2, b, 2 * h)
    ensures Combination(h1, a, h2, b, h)
  {
    assert (2 * h1) * a == 2 * (h1 * a) && (2 * h2) * b == 2 * (h2 * b);
  }

  /** Halving t: when a coefficient is odd, (b, -a) is added first, and then both are even. */
  lemma HalveCombination(c1: int, a: int, c2: int, b: int, t: int, d1: int, d2: int)
    requires Combination(c1, a, c2, b, t) && t % 2 == 0 && (a % 2 == 1 || b % 2 == 1)
    requires if c1 % 2 != 0 || c2 % 2 != 0 then d1 == c1 + b && d2 == c2 - a else d1 == c1 && d2 == c2
    ensures d1 % 2 == 0 && d2 % 2 == 0 && Combination(d1 / 2, a, d2 / 2, b, t / 2)
  {
    hide Combination;
    BothEven(c1, a, c2, b, t, d1, d2);
    Exchange(c1, a, c2, b, t);
    HalveBothSides(d1 / 2, a, d2 / 2, b, t / 2);
  }

  lemma SubtractCombination(c1: int, c2: int, t: int, e1: int, e2: int, u: int, a: int, b: int)
    requires Combination(c1, a, c2, b, t) && Combination(e1, a, e2, b, u)
    ensures Combination(c1 - e1, a, c2 - e2, b, t - u)
  {
    assert (c1 - e1) * a == c1 * a - e1 * a && (c2 - e2) * b == c2 * b - e2 * b;
  }

  lemma StartCombination(a: int, b: int)
    ensures Combination(1, a, 0, b, a) && Combination(0, a, 1, b, b)
  {
  }

  lemma HalfSigned(s: Sign, v: nat)
    ensures s * v % 2 == v % 2
    ensures v % 2 == 0 ==> s * (v / 2) == s * v / 2
  {
  }

  lemma CoprimeHalf(t: nat, u: nat)
    requires t % 2 == 0 && Gcd(t, u) == 1
    ensures Gcd(t / 2, u) == 1
  {
    hide Divides, Gcd;
    var x, y := Bezout(t / 2, u);
    DividesCombine(Gcd(t / 2, u), t / 2, u, 2, 0);
    assert t / 2 * 2 + u * 0 == t;
    GcdGreatest(t, u, Gcd(t / 2, u));
    DividesOne(Gcd(t / 2, u));
  }

  lemma DividesOne(d: nat)
    requires Divides(d, 1)
    ensures d == 1
  {
    if d == 0 {
      ZeroDivides(d, 1);
    } else {
      DividesBound(d, 1);
    }
  }

  lemma CoprimeOdd(a: nat, b: nat)
    requires Gcd(a, b) == 1
    ensures a % 2 == 1 || b % 2 == 1
  {
    hide Divides, Gcd;
    if a % 2 == 0 && b % 2 == 0 {
      DividesIntro(2, a, a / 2);
      DividesIntro(2, b, b / 2);
      GcdGreatest(a, b, 2);
      DividesOne(2);
    }
  }

  /** A single halving of T and of its two coefficients. */
  method HalveOnce(T: Mpi, C1: Mpi, C2: Mpi, TA: Mpi, TB: Mpi)
    requires T != C1 && T != C2 && C1 != C2 && TA != T && TA != C1 && TA != C2 && TB != T && TB != C1 && TB != C2
    requires |T.p| >= 1 && |C1.p| >= 1 && |C2.p| >= 1
    requires T.Value() > 0 && T.Abs() % 2 == 0 && (TA.Value() % 2 == 1 || TB.Value() % 2 == 1)
    requires Combination(C1.Value(), TA.Value(), C2.Value(), TB.Value(), T.Value())
    modifies T, C1, C2
    ensures |T.p| >= 1 && |C1.p| >= 1 && |C2.p| >= 1
    ensures T.Abs() == old(T.Abs()) / 2 && T.Value() == old(T.Value()) / 2 > 0
    ensures Combination(C1.Value(), TA.Value(), C2.Value(), TB.Value(), T.Value())
  {
    hide Val, Combination, Pow2;
    ghost var c1, c2, t := C1.Value(), C2.Value(), T.Value();
    Pow2One();
    HalfSigned(T.s, T.Abs());
    MpiShift.ShiftRMpi(T, 1);
    LowLimbParity(C1.p);
    LowLimbParity(C2.p);
    HalfSigned(C1.s, C1.Abs());
    HalfSigned(C2.s, C2.Abs());
    if C1.p[0] % 2 != 0 || C2.p[0] % 2 != 0 {
      AddMpi(C1, C1, TB);
      SubMpi(C2, C2, TA);
    }
    HalveCombination(c1, TA.Value(), c2, TB.Value(), t, C1.Value(), C2.Value());
    HalfSigned(C1.s, C1.Abs());
    HalfSigned(C2.s, C2.Abs());
    MpiShift.ShiftRMpi(C1, 1);
    MpiShift.ShiftRMpi(C2, 1);
  }

  /** One of the two inner loops: T loses its factors of two. */
  method StripTwos(T: Mpi, C1: Mpi, C2: Mpi, TA: Mpi, TB: Mpi, ghost other: nat)
    requires T != C1 && T != C2 && C1 != C2 && TA != T && TA != C1 && TA != C2 && TB != T && TB != C1 && TB != C2
    requires |T.p| >= 1 && |C1.p| >= 1 && |C2.p| >= 1
    requires T.Value() > 0 && (TA.Value() % 2 == 1 || TB.Value() % 2 == 1) && Gcd(T.Abs(), other) == 1
    requires Combination(C1.Value(), TA.Value(), C2.Value(), TB.Value(), T.Value())
    modifies T, C1, C2
    ensures |T.p| >= 1 && |C1.p| >= 1 && |C2.p| >= 1
    ensures 0 < T.Value() <= old(T.Value()) && Gcd(T.Abs(), other) == 1 && T.Abs() % 2 == 1
    ensures Combination(C1.Value(), TA.Value(), C2.Value(), TB.Value(), T.Value())
  {
    hide Val, Combination, Gcd;
    LowLimbParity(T.p);
    while T.p[0] % 2 == 0
      invariant |T.p| >= 1 && |C1.p| >= 1 && |C2.p| >= 1 && T.Abs() % 2 == T.p[0] % 2
      invariant 0 < T.Value() <= old(T.Value()) && Gcd(T.Abs(), other) == 1
      invariant Combination(C1.Value(), TA.Value(), C2.Value(), TB.Value(), T.Value())
      decreases T.Value()
    {
      CoprimeHalf(T.Abs(), other);
      HalveOnce(T, C1, C2, TA, TB);
      LowLimbParity(T.p);
    }
  }

  /** The working numbers are six different objects, apart from the operands TA and TB. */
  ghost predicate Apart(TU: Mpi, U1: Mpi, U2: Mpi, TV: Mpi, V1: Mpi, V2: Mpi, TA: Mpi, TB: Mpi) {
    && TU != U1 && TU != U2 && TU != TV && TU != V1 && TU != V2 && U1 != U2 && U1 != TV && U1 != V1 && U1 != V2
    && U2 != TV && U2 != V1 && U2 != V2 && TV != V1 && TV != V2 && V1 != V2
    && TA != TU && TA != U1 && TA != U2 && TA != TV && TA != V1 && TA != V2
    && TB != TU && TB != U1 && TB != U2 && TB != TV && TB != V1 && TB != V2
  }

  /** One side subtracted from the other. */
  method SubtractRow(T: Mpi, C1: Mpi, C2: Mpi, S: Mpi, D1: Mpi, D2: Mpi, ghost a: int, ghost b: int)
    requires T != C1 && T != C2 && C1 != C2 && S != T && S != C1 && S != C2
    requires D1 != T && D1 != C1 && D1 != C2 && D2 != T && D2 != C1 && D2 != C2
    requires T.Value() >= S.Value() > 0 && Gcd(T.Abs(), S.Abs()) == 1
    requires Combination(C1.Value(), a, C2.Value(), b, T.Value()) && Combination(D1.Value(), a, D2.Value(), b, S.Value())
    modifies T, C1, C2
    ensures |T.p| >= |old(T.p)| && |C1.p| >= |old(C1.p)| && |C2.p| >= |old(C2.p)|
    ensures T.Value() == old(T.Value()) - S.Value() && Gcd(T.Abs(), S.Abs()) == 1
    ensures Combination(C1.Value(), a, C2.Value(), b, T.Value())
  {
    hide Val, Combination, Gcd;
    SubtractCombination(C1.Value(), C2.Value(), T.Value(), D1.Value(), D2.Value(), S.Value(), a, b);
    SignsOfValues(T.s, T.Abs());
    SignsOfValues(S.s, S.Abs());
    MpiGcd.GcdSubtract(T.Abs(), S.Abs());
    SubMpi(T, T, S);
    SignsOfValues(T.s, T.Abs());
    SubMpi(C1, C1, D1);
    SubMpi(C2, C2, D2);
  }

  /** The main loop: both sides lose their factors of two, then the larger loses the smaller. */
  method Reduce(TU: Mpi, U1: Mpi, U2: Mpi, TV: Mpi, V1: Mpi, V2: Mpi, TA: Mpi, TB: Mpi)
    requires Apart(TU, U1, U2, TV, V1, V2, TA, TB)
    requires |TU.p| >= 1 && |U1.p| >= 1 && |U2.p| >= 1 && |TV.p| >= 1 && |V1.p| >= 1 && |V2.p| >= 1
    requires TU.Value() > 0 && TV.Value() > 0 && Gcd(TU.Abs(), TV.Abs()) == 1
    requires TA.Value() % 2 == 1 || TB.Value() % 2 == 1
    requires Combination(U1.Value(), TA.Value(), U2.Value(), TB.Value(), TU.Value())
    requires Combination(V1.Value(), TA.Value(), V2.Value(), TB.Value(), TV.Value())
    modifies TU, U1, U2, TV, V1, V2
    ensures TV.Value() == 1
    ensures Combination(V1.Value(), TA.Value(), V2.Value(), TB.Value(), TV.Value())
  {
    hide Val, Combination, Gcd;
    var again := true;
    while again
      invariant |TU.p| >= 1 && |U1.p| >= 1 && |U2.p| >= 1 && |TV.p| >= 1 && |V1.p| >= 1 && |V2.p| >= 1
      invariant TU.Value() >= 0 && TV.Value() > 0 && Gcd(TU.Abs(), TV.Abs()) == 1 && again == (TU.Value() != 0)
      invariant Combination(U1.Value(), TA.Value(), U2.Value(), TB.Value(), TU.Value())
      invariant Combination(V1.Value(), TA.Value(), V2.Value(), TB.Value(), TV.Value())
      decreases TU.Value() + TV.Value()
    {
      StripTwos(TU, U1, U2, TA, TB, TV.Abs());
      GcdSymmetric(TU.Abs(), TV.Abs());
      StripTwos(TV, V1, V2, TA, TB, TU.Abs());
      var c := CmpMpi(TU, TV);
      GcdSymmetric(TV.Abs(), TU.Abs());
      if c >= 0 {
        SubtractRow(TU, U1, U2, TV, V1, V2, TA.Value(), TB.Value());
      } else {
        SubtractRow(TV, V1, V2, TU, U1, U2, TA.Value(), TB.Value());
        GcdSymmetric(TV.Abs(), TU.Abs());
      }
      c := CmpInt(TU, 0);
      again := c != 0;
    }
    SignsOfValues(TU.s, TU.Abs());
    SignsOfValues(TV.s, TV.Abs());
    GcdSymmetric(TU.Abs(), TV.Abs());
    GcdZero(TV.Abs());
  }

  lemma GcdZero(v: nat)
    ensures Gcd(v, 0) == v
  {
  }

  lemma GcdOfResidue(a: int, n: nat)
    requires n > 0
    ensures Gcd(AbsInt(a), n) == Gcd(a % n, n)
  {
    hide Divides, Gcd, AbsInt;
    var v, r := AbsInt(a), a % n;
    forall d: int
      ensures Divides(d, v) && Divides(d, n) <==> Divides(d, r) && Divides(d, n)
    {
      if Divides(d, v) && Divides(d, n) {
        DivisorOfResidue(d, a, n);
      }
      if Divides(d, r) && Divides(d, n) {
        DivisorOfAbs(d, a, n);
      }
    }
    GcdSame(v, n, r, n);
  }

  lemma DivisorOfResidue(d: int, a: int, n: nat)
    requires n > 0 && Divides(d, AbsInt(a)) && Divides(d, n)
    ensures Divides(d, a % n)
  {
    hide Divides;
    var s: int, q := SignInt(a), a / n;
    DividesCombine(d, AbsInt(a), n, s, -q);
    NegatedQuotient(a, n, q);
  }

  lemma NegatedQuotient(a: int, n: int, q: int)
    requires n > 0 && q == a / n
    ensures AbsInt(a) * SignInt(a) + n * -q == a % n
  {
    assert n * -q == -(q * n);
  }

  lemma DivisorOfAbs(d: int, a: int, n: nat)
    requires n > 0 && Divides(d, a % n) && Divides(d, n)
    ensures Divides(d, AbsInt(a))
  {
    hide Divides;
    var s: int, q := SignInt(a), a / n;
    SignedQuotient(a, n, q, s);
    DividesCombine(d, a % n, n, s, s * q);
  }

  lemma SignedQuotient(a: int, n: int, q: int, s: int)
    requires n > 0 && q == a / n && (s == 1 || s == -1)
    ensures a % n * s + n * (s * q) == s * a
  {
    assert n * (s * q) == s * (q * n);
    assert a == q * n + a % n;
  }

  /** The first coefficient is the inverse, modulo the second number. */
  lemma CoefficientInverse(v1: int, a: int, v2: int, n: int, a0: int)
    requires n > 0 && a == a0 % n && Combination(v1, a, v2, n, 1)
    ensures Cong(a0 * v1, 1, n)
  {
    var q := a0 / n;
    assert a0 * v1 == a * v1 + (q * v1) * n by {
      assert (q * n + a) * v1 == q * n * v1 + a * v1;
    }
    CongIntro(a0 * v1, 1, n, q * v1 - v2);
    assert (q * v1 - v2) * n == q * v1 * n - v2 * n;
  }

  /** The loops that bring V1 into [0, N). */
  method Normalise(V: Mpi, N: Mpi, ghost a: int)
    requires V != N && N.Value() > 0 && Cong(a * V.Value(), 1, N.Value())
    modifies V
    ensures 0 <= V.Value() < N.Value() && Cong(a * V.Value(), 1, N.Value())
  {
    hide Val, Cong;
    ghost var n := N.Value();
    var neg := CmpInt(V, 0);
    while neg < 0
      invariant neg == Sgn(V.Value()) && Cong(a * V.Value(), 1, n)
      decreases -V.Value()
    {
      InverseShifts(a, V.Value(), n, 1);
      AddMpi(V, V, N);
      neg := CmpInt(V, 0);
    }
    var c := CmpMpi(V, N);
    while c >= 0
      invariant c == Sgn(V.Value() - n) && V.Value() >= 0 && Cong(a * V.Value(), 1, n)
      decreases V.Value()
    {
      InverseShifts(a, V.Value(), n, -1);
      SubMpi(V, V, N);
      c := CmpMpi(V, N);
    }
  }

  lemma InverseShifts(a: int, v: int, n: int, k: int)
    requires Cong(a * v, 1, n)
    ensures Cong(a * (v + k * n), 1, n)
  {
    assert a * (v + k * n) == a * v + (a * k) * n;
    CongIntro(a * (v + k * n), a * v, n, a * k);
    CongTrans(a * (v + k * n), a * v, 1, n);
  }

  /** mbedtls_mpi_inv_mod: X := A^-1 mod N, for even N too. X may be A or N. */
  method InvMod(X: Mpi, A: Mpi, N: Mpi) returns (st: Status)
    modifies X
    ensures old(N.Value()) <= 1 <==> st == BadInput
    ensures st == NotAcceptable <==> old(N.Value()) > 1 && Gcd(old(A.Abs()), old(N.Abs())) != 1
    ensures st == Ok <==> old(N.Value()) > 1 && Gcd(old(A.Abs()), old(N.Abs())) == 1
    ensures st == Ok ==> 0 <= X.Value() < old(N.Value()) && Cong(old(A.Value()) * X.Value(), 1, old(N.Value()))
    ensures st != Ok ==> X.p == old(X.p) && X.s == old(X.s)
  {
    hide Val, Combination, Gcd, Cong;
    var c := CmpInt(N, 1);
    if c <= 0 {
      return BadInput;
    }
    SignsOfValues(N.s, N.Abs());
    SignsOfValues(A.s, A.Abs());
    var G := new Mpi();
    MpiGcd.BinaryGcd(G, A, N);
    c := CmpInt(G, 1);
    if c != 0 {
      return NotAcceptable;
    }
    var V1 := Inverse(A, N);
    Copy(X, V1);
    st := Ok;
  }

  /** The starting values: (TU, U1, U2) = (TA, 1, 0) and (TV, V1, V2) = (TB, 0, 1), with TB = N. */
  method Prepare(TU: Mpi, U1: Mpi, U2: Mpi, TV: Mpi, V1: Mpi, V2: Mpi, TA: Mpi, TB: Mpi, N: Mpi)
    requires Apart(TU, U1, U2, TV, V1, V2, TA, TB) && TA != TB
    requires N != TU && N != U1 && N != U2 && N != TV && N != V1 && N != V2 && N != TB
    requires TA.Value() > 0 && N.Value() > 1 && Gcd(TA.Value(), N.Value()) == 1
    modifies TU, U1, U2, TV, V1, V2, TB
    ensures TB.Value() == N.Value()
    ensures |TU.p| >= 1 && |U1.p| >= 1 && |U2.p| >= 1 && |TV.p| >= 1 && |V1.p| >= 1 && |V2.p| >= 1
    ensures TU.Value() > 0 && TV.Value() > 0 && Gcd(TU.Abs(), TV.Abs()) == 1
    ensures Combination(U1.Value(), TA.Value(), U2.Value(), TB.Value(), TU.Value())
    ensures Combination(V1.Value(), TA.Value(), V2.Value(), TB.Value(), TV.Value())
  {
    hide Val, Combination, Gcd;
    NonZeroHasLimbs(TA.s, TA.p);
    NonZeroHasLimbs(N.s, N.p);
    Copy(TU, TA);
    Copy(TB, N);
    Copy(TV, N);
    Lset(U1, 1);
    Lset(U2, 0);
    Lset(V1, 0);
    Lset(V2, 1);
    StartCombination(TA.Value(), TB.Value());
  }

  method Inverse(A: Mpi, N: Mpi) returns (V1: Mpi)
    requires N.Value() > 1 && Gcd(A.Abs(), N.Abs()) == 1
    ensures fresh(V1) && 0 <= V1.Value() < N.Value() && Cong(A.Value() * V1.Value(), 1, N.Value())
  {
    hide Val, Combination, Gcd, Cong;
    ghost var a, n := A.Value(), N.Value();
    SignsOfValues(N.s, N.Abs());
    SignsOfValues(A.s, A.Abs());
    GcdOfResidue(a, n);
    ResidueNonZero(a, n);
    CoprimeOdd(a % n, n);
    var TA := new Mpi();
    var st := ModMpi(TA, A, N);
    V1 := Coefficient(TA, N);
    CoefficientExists(a, n, V1.Value());
    Normalise(V1, N, a);
  }

  /** The coefficient of TA in a combination of TA and N that gives 1. */
  method Coefficient(TA: Mpi, N: Mpi) returns (V1: Mpi)
    requires TA != N && TA.Value() > 0 && N.Value() > 1 && Gcd(TA.Value(), N.Value()) == 1
    requires TA.Value() % 2 == 1 || N.Value() % 2 == 1
    ensures fresh(V1) && exists v2: int :: Combination(V1.Value(), TA.Value(), v2, N.Value(), 1)
  {
    hide Val, Combination, Gcd;
    var TU := new Mpi();
    var U1 := new Mpi();
    var U2 := new Mpi();
    var TB := new Mpi();
    var TV := new Mpi();
    V1 := new Mpi();
    var V2 := new Mpi();
    Prepare(TU, U1, U2, TV, V1, V2, TA, TB, N);
    Reduce(TU, U1, U2, TV, V1, V2, TA, TB);
    ghost var v2 := V2.Value();
    assert Combination(V1.Value(), TA.Value(), v2, N.Value(), 1);
  }

  lemma CoefficientExists(a: int, n: int, v1: int)
    requires n > 0 && exists v2: int :: Combination(v1, a % n, v2, n, 1)
    ensures Cong(a * v1, 1, n)
  {
    var v2: int :| Combination(v1, a % n, v2, n, 1);
    CoefficientInverse(v1, a % n, v2, n, a);
  }

  lemma ResidueNonZero(a: int, n: nat)
    requires n > 1 && Gcd(a % n, n) == 1
    ensures a % n > 0
  {
    hide Divides;
    if a % n == 0 {
      GcdSymmetric(0, n);
      GcdZero(n);
    }
  }

  lemma NonZeroHasLimbs(s: Sign, p: seq<Limb>)
    requires s * Val(p) > 0
    ensures |p| > 0 && Val(p) > 0 && s == 1
  {
  }
}
