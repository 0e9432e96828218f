/** Residues as raw limb arrays (bignum_mod_raw.c): addition, inversion, representations, import and export. */
module ModRaw {
  import opened Arith
  import opened Words
  import opened CoreExp
  import opened Gcds
  import opened MontForm
  import opened Montgomery
  import Core

  datatype Rep = MontgomeryRep | OptRedRep | InvalidRep

  datatype Ext = LittleEndian | BigEndian | InvalidExt

  // ---- Addition, subtraction, negation ---------------------------------------------

  lemma ReducedSub(x: nat, c: nat, y: nat, c2: nat, a: nat, b: nat, n: nat, r: nat)
    requires a < n && b < n && n <= r && x < r && y < r && c <= 1 && c2 <= 1
    requires x - c * r == a - b
    requires y + c2 * r == x + if c == 1 then n else 0
    ensures y == (a - b) % n
  {
    if a >= b {
      assert c == 0;
      DivUnique(a - b, n, 0, a - b);
    } else {
      assert c == 1;
      assert y == a - b + n;
      DivUnique(a - b, n, -1, a - b + n);
    }
  }

  lemma ReducedAdd(x: nat, c: nat, y: nat, b1: nat, z: nat, c2: nat, a: nat, b: nat, n: nat, r: nat)
    requires a < n && b < n && n <= r && x < r && y < r && z < r && c <= 1 && b1 <= 1 && c2 <= 1
    requires x + c * r == a + b
    requires y - b1 * r == x - n
    requires z + c2 * r == y + if c != b1 then n else 0
    ensures z == (a + b) % n
  {
    if a + b < n {
      DivUnique(a + b, n, 0, a + b);
    } else {
      DivUnique(a + b, n, 1, a + b - n);
    }
  }

  lemma ReducedNeg(x: nat, c: nat, y: nat, b1: nat, z: nat, c2: nat, a: nat, n: nat, r: nat)
    requires a < n && n <= r && x < r && y < r && z < r && c <= 1 && b1 <= 1 && c2 <= 1
    requires x - c * r == n - a
    requires y - b1 * r == x - n
    requires z + c2 * r == y + if b1 == 1 then n else 0
    ensures z == (0 - a) % n
  {
    if a == 0 {
      DivUnique(0, n, 0, 0);
    } else {
      DivUnique(-1 * a, n, -1, n - a);
    }
  }

  /** mbedtls_mpi_mod_raw_sub. X may be A or B. */
  method RawSub(X: array<Limb>, A: array<Limb>, B: array<Limb>, N: array<Limb>, n: nat)
    requires n <= X.Length && n <= A.Length && n <= B.Length && n <= N.Length && X != N
    requires Val(A[..n]) < Val(N[..n]) && Val(B[..n]) < Val(N[..n])
    modifies X
    ensures Val(X[..n]) == (old(Val(A[..n])) - old(Val(B[..n]))) % Val(N[..n])
    ensures forall k :: n <= k < X.Length ==> X[k] == old(X[k])
  {
    hide Val, BPow;
    ghost var a, b, nv, ns := Val(A[..n]), Val(B[..n]), Val(N[..n]), N[..n];
    ValBound(ns);
    assert A[0..0 + n] == A[..n];
    var c := Core.Sub(X, A, 0, B, n);
    ghost var x := Val(X[..n]);
    ValBound(X[..n]);
    assert N[..n] == ns;
    var c2 := Core.AddIf(X, N, n, c != 0);
    ValBound(X[..n]);
    ReducedSub(x, c, Val(X[..n]), c2, a, b, nv, BPow(n));
  }

  /** mbedtls_mpi_mod_raw_add. X may be A or B. */
  method RawAdd(X: array<Limb>, A: array<Limb>, B: array<Limb>, N: array<Limb>, n: nat)
    requires n <= X.Length && n <= A.Length && n <= B.Length && n <= N.Length && X != N
    requires Val(A[..n]) < Val(N[..n]) && Val(B[..n]) < Val(N[..n])
    modifies X
    ensures Val(X[..n]) == (old(Val(A[..n])) + old(Val(B[..n]))) % Val(N[..n])
    ensures forall k :: n <= k < X.Length ==> X[k] == old(X[k])
  {
    hide Val, BPow;
    ghost var a, b, nv, ns := Val(A[..n]), Val(B[..n]), Val(N[..n]), N[..n];
    ValBound(ns);
    var carry := Core.Add(X, A, B, n);
    ghost var x := Val(X[..n]);
    ValBound(X[..n]);
    assert N[..n] == ns && X[0..0 + n] == X[..n];
    var borrow := Core.Sub(X, X, 0, N, n);
    ghost var y := Val(X[..n]);
    ValBound(X[..n]);
    var c2 := Core.AddIf(X, N, n, carry != borrow);
    ValBound(X[..n]);
    ReducedAdd(x, carry, y, borrow, Val(X[..n]), c2, a, b, nv, BPow(n));
  }

  /** mbedtls_mpi_mod_raw_neg. X may be A. */
  method RawNeg(X: array<Limb>, A: array<Limb>, N: array<Limb>, n: nat)
    requires n <= X.Length && n <= A.Length && n <= N.Length && X != N
    requires Val(A[..n]) < Val(N[..n])
    modifies X
    ensures Val(X[..n]) == (0 - old(Val(A[..n]))) % Val(N[..n])
    ensures forall k :: n <= k < X.Length ==> X[k] == old(X[k])
  {
    hide Val, BPow;
    ghost var a, nv, ns := Val(A[..n]), Val(N[..n]), N[..n];
    ValBound(ns);
    assert N[0..0 + n] == N[..n];
    var c := Core.Sub(X, N, 0, A, n);
    ghost var x := Val(X[..n]);
    ValBound(X[..n]);
    assert N[..n] == ns && X[0..0 + n] == X[..n];
    var borrow := Core.Sub(X, X, 0, N, n);
    ghost var y := Val(X[..n]);
    ValBound(X[..n]);
    var c2 := Core.AddIf(X, N, n, borrow != 0);
    ValBound(X[..n]);
    ReducedNeg(x, c, y, borrow, Val(X[..n]), c2, a, nv, BPow(n));
  }

  // ---- Representations ------------------------------------------------------------

  /** The first n limbs of RR are R^2 modulo the modulus of the ring. */
  ghost predicate Squared(rr: seq<Limb>, ring: Ring) {
    ring.n <= |rr| && Val(rr[..ring.n]) < ring.nv && Cong(Val(rr[..ring.n]), BPow(ring.n) * BPow(ring.n), ring.nv)
  }

  /** mbedtls_mpi_core_to_mont_rep. X may be A. */
  method ToMont(X: array<Limb>, A: array<Limb>, N: array<Limb>, n: nat, mm: Limb, rr: array<Limb>, ghost ring: Ring)
    requires Setup(N[..], n, mm, ring) && Squared(rr[..], ring) && n <= X.Length && n <= A.Length
    requires X != N
    modifies X
    ensures ring.Form(Val(X[..n]), old(Val(A[..n])))
    ensures forall k :: n <= k < X.Length ==> X[k] == old(X[k])
  {
    hide Val, BPow, Cong, NegInverse, IsMont;
    var T := new Limb[2 * n + 1];
    ghost var ns, a := N[..], Val(A[..n]);
    assert ns[..n] == N[..n] && rr[..][..n] == rr[..n];
    ghost var r := Val(rr[..n]);
    label before:
    Montmul(X, A, rr, n, N, n, mm, T);
    assert N[..n] == ns[..n];
    SameTimes(old@before(Val(A[..n])), a, old@before(Val(rr[..n])), r);
    ring.Into(Val(X[..n]), a, r);
  }

  lemma SameTimes(a: int, b: int, c: int, d: int)
    requires a == b && c == d
    ensures a * c == b * d
  {
  }

  /** mbedtls_mpi_core_from_mont_rep: multiplies by the one-limb number 1. X may be A. */
  method FromMont(X: array<Limb>, A: array<Limb>, N: array<Limb>, n: nat, mm: Limb, ghost ring: Ring)
    requires Setup(N[..], n, mm, ring) && n <= X.Length && n <= A.Length && X != N
    modifies X
    ensures Val(X[..n]) < ring.nv
    ensures Cong(Val(X[..n]) * BPow(n), old(Val(A[..n])), ring.nv)
    ensures forall k :: n <= k < X.Length ==> X[k] == old(X[k])
  {
    hide Val, BPow, Cong, NegInverse, IsMont;
    var T := new Limb[2 * n + 1];
    var rinv := new Limb[1](_ => 1);
    ghost var ns, a := N[..], Val(A[..n]);
    assert ns[..n] == N[..n];
    PositiveRing(ring);
    ValOne(rinv[..1]);
    Montmul(X, A, rinv, 1, N, n, mm, T);
    assert N[..n] == ns[..n];
  }

  lemma PositiveRing(ring: Ring)
    requires ring.Valid()
    ensures ring.nv >= 1
  {
  }

  /** Leaving and re-entering Montgomery form gives the same residue back. */
  lemma FormRoundTrip(x: nat, y: nat, z: nat, ring: Ring)
    requires ring.Valid() && x < ring.nv && Cong(y * BPow(ring.n), x, ring.nv) && ring.Form(z, y)
    ensures z == x
  {
    hide Cong, BPow;
    CongTrans(z, y * BPow(ring.n), x, ring.nv);
    CongUnique(z, x, ring.nv);
  }

  lemma FromForm(x: nat, y: nat, a: int, ring: Ring)
    requires ring.Valid() && y < ring.nv && Cong(y * BPow(ring.n), x, ring.nv) && ring.Form(x, a)
    ensures Cong(y, a, ring.nv)
  {
    hide Cong, BPow, RadixInverse;
    RadixInvertible(ring.nv, ring.n);
    OutOfMont(y, x, a, BPow(ring.n), RadixInverse(ring.nv, ring.n), ring.nv);
  }

  // ---- Inversion by Fermat ----------------------------------------------------------

  /** For an odd prime n and a that is not 0 modulo n, the power n - 2 is the inverse. */
  lemma InverseByPower(a: int, n: nat)
    requires Prime(n) && a % n != 0
    ensures Cong(a * Pow(a, n - 2), 1, n)
  {
    hide Cong, Pow;
    FermatInverse(n, a % n);
    CongMod(a, n);
    CongPow(a, a % n, n - 2, n);
    CongMul(a, a % n, Pow(a, n - 2), Pow(a % n, n - 2), n);
    CongTrans(a * Pow(a, n - 2), a % n * Pow(a % n, n - 2), 1, n);
  }

  /** mbedtls_mpi_mod_raw_inv_prime, on Montgomery forms. X may be A. */
  method InvPrime(X: array<Limb>, A: array<Limb>, N: array<Limb>, n: nat, RR: array<Limb>, cap: nat,
                  ghost ring: Ring, ghost a: int)
    requires 0 < n <= N.Length && ring.n == n && ring.nv == Val(N[..n]) && ring.Valid() && ring.nv >= 2 && 1 <= cap
    requires n <= X.Length && n <= A.Length && X != N && X != RR && Squared(RR[..], ring)
    requires ring.Form(Val(A[..n]), a)
    modifies X
    ensures ring.Form(Val(X[..n]), Pow(a, ring.nv - 2))
    ensures Prime(ring.nv) && a % ring.nv != 0 ==> Cong(a * Pow(a, ring.nv - 2), 1, ring.nv)
    ensures forall k :: n <= k < X.Length ==> X[k] == old(X[k])
  {
    hide Val, BPow, Cong, IsMont, Prime, Pow, Ring.Form;
    var T := new Limb[n];
    ghost var ns, av, rv := N[..n], A[..n], RR[..];
    assert N[0..0 + n] == N[..n] && T[0..0 + n] == T[..n];
    var borrow := MinusTwo(T, N, n);
    assert N[..n] == ns && A[..n] == av && RR[..] == rv && RR[..n] == RR[..][..n];
    ExpMod(X, A, N, n, T, n, RR, cap, ring, a);
    if Prime(ring.nv) && a % ring.nv != 0 {
      InverseByPower(a, ring.nv);
    }
  }

  /** T := N - 2. */
  method MinusTwo(T: array<Limb>, N: array<Limb>, n: nat) returns (borrow: Limb)
    requires 0 < n <= T.Length && n <= N.Length && Val(N[..n]) >= 2 && T != N
    modifies T
    ensures Val(T[..n]) == Val(N[..n]) - 2
  {
    hide Val, BPow;
    ghost var ns := N[..n];
    ValBound(ns);
    assert N[0..0 + n] == ns;
    borrow := Core.SubInt(T, N, 0, 2, n);
    assert T[0..0 + n] == T[..n] && N[..n] == ns;
    ValBound(T[..n]);
  }
}
