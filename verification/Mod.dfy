/** Residues with their modulus (bignum_mod.c): setup, inversion, import and export. */
module Mod {
  import opened Arith
  import opened Words
  import opened Bytes
  import opened CoreBits
  import opened CoreBytes
  import opened CoreExp
  import opened Gcds
  import opened MontForm
  import opened Montgomery
  import opened Mpis
  import MpiAddSub
  import opened MpiDiv
  import MpiExp
  import MpiShift
  import opened ModRaw

  /** mbedtls_mpi_mod_modulus. */
  class Modulus {
    var p: array?<Limb>
    var limbs: nat
    var bits: nat
    var intRep: Rep
    var mm: Limb
    var rr: array?<Limb>

    constructor ()
      ensures p == null && limbs == 0 && intRep == InvalidRep && rr == null
    {
      p, limbs, bits, intRep, mm, rr := null, 0, 0, InvalidRep, 0, null;
    }

    ghost function Nv(): nat
      reads this, p
    {
      if p != null && limbs <= p.Length then Val(p[..limbs]) else 0
    }

    ghost function InRing(): Ring
      reads this, p
    {
      Ring(Nv(), limbs)
    }

    /** Set up for the representation intRep. */
    ghost predicate Valid()
      reads this, p, rr
    {
      && p != null && 0 < limbs <= p.Length && Nv() % 2 == 1 && intRep != InvalidRep
      && (intRep == MontgomeryRep ==>
            rr != null && rr != p && Setup(p[..], limbs, mm, InRing()) && Squared(rr[..], InRing()))
    }

    /** The stored number x stands for the residue a. */
    ghost predicate Stands(x: nat, a: nat)
      reads this, p
    {
      && x < Nv() && a < Nv()
      && if intRep == MontgomeryRep then IsMont(x, a, BPow(limbs), Nv()) else x == a
    }
  }

  /** mbedtls_mpi_mod_residue. */
  class Residue {
    var p: array<Limb>
    var limbs: nat

    constructor (a: array<Limb>, n: nat)
      ensures p == a && limbs == n
    {
      p, limbs := a, n;
    }

    ghost function Stored(): nat
      reads this, p
    {
      if limbs <= p.Length then Val(p[..limbs]) else 0
    }
  }

  // ---- Setup --------------------------------------------------------------------------

  /** MBEDTLS_MPI_MAX_LIMBS / 2 - 2. */
  const MAX_SETUP_LIMBS: nat := 4998

  /** mbedtls_mpi_core_get_mont_r2_unsafe. */
  method GetMontR2(X: Mpi, N: Mpi) returns (st: Status)
    requires X != N && N.Value() > 0
    modifies X
    ensures st == Ok && |X.p| == |N.p|
    ensures X.Abs() < N.Abs() && Cong(X.Abs(), BPow(|N.p|) * BPow(|N.p|), N.Abs())
  {
    hide Val, BPow, Pow2, Cong, BitLength, Sig;
    ghost var n := N.Value();
    SignsOfValues(N.s, N.Abs());
    Lset(X, 1);
    MpiExp.RadixSquared(|N.p|);
    MpiShift.ShiftL(X, |N.p| * 2 * 32);
    st := ModMpi(X, X, N);
    CongMod(BPow(|N.p|) * BPow(|N.p|), n);
    CongSym(BPow(|N.p|) * BPow(|N.p|), X.Value(), n);
    SignsOfValues(X.s, X.Abs());
    SmallerFits(X.p, N.p);
    Shrink(X, |N.p|);
  }

  lemma SmallerFits(x: seq<Limb>, n: seq<Limb>)
    requires Val(x) < Val(n)
    ensures Sig(x) <= |n| && 1 <= |n|
  {
    hide Val, BPow, Sig;
    SigBounds(x);
    ValBound(n);
    if Sig(x) > |n| {
      BPowMonotone(|n|, Sig(x) - 1);
    }
    ValZeros([]);
  }

  /** set_mont_const_square. */
  method SetMontConstSquare(A: array<Limb>, limbs: nat) returns (rr: array?<Limb>)
    requires limbs <= A.Length && (limbs > 0 ==> Val(A[..limbs]) > 0)
    ensures rr == null <==> limbs == 0 || limbs >= 4998
    ensures rr != null ==> fresh(rr) && Squared(rr[..], Ring(Val(A[..limbs]), limbs))
  {
    hide Val, BPow, Cong;
    if limbs == 0 || limbs >= MAX_SETUP_LIMBS {
      return null;
    }
    var N := new Mpi();
    var RR := new Mpi();
    N.p := A[..limbs];
    var st := GetMontR2(RR, N);
    rr := MpiAddSub.ToArray(RR.p);
    assert rr[..][..limbs] == RR.p;
  }

  /** mbedtls_mpi_mod_modulus_setup. */
  method ModulusSetup(N: Modulus, p: array<Limb>, limbs: nat, intRep: Rep) returns (ok: bool)
    requires 0 < limbs <= p.Length && Val(p[..limbs]) % 2 == 1
    modifies N
    ensures ok <==> intRep != InvalidRep && (intRep == MontgomeryRep ==> limbs < 4998)
    ensures ok ==> N.Valid() && N.p == p && N.limbs == limbs && N.intRep == intRep && N.bits == BitLength(Val(p[..limbs]))
    ensures ok && intRep == MontgomeryRep ==> fresh(N.rr)
    ensures !ok ==> N.p == null && N.limbs == 0 && N.bits == 0 && N.intRep == InvalidRep
  {
    hide Val, BPow, Cong, BitLength, NegInverse;
    N.p := p;
    N.limbs := limbs;
    N.bits := Bitlen(p[..limbs]);
    N.rr := null;
    if intRep == MontgomeryRep {
      N.intRep := intRep;
      OddLow(p[..limbs]);
      assert p[..limbs][0] == p[0];
      N.mm := MontmulInit(p);
      N.rr := SetMontConstSquare(p, limbs);
      ok := N.rr != null;
      assert p[..][..limbs] == p[..limbs];
    } else if intRep == OptRedRep {
      N.intRep := intRep;
      ok := true;
    } else {
      ok := false;
    }
    if !ok {
      N.p, N.limbs, N.bits, N.intRep, N.rr := null, 0, 0, InvalidRep, null;
    }
  }

  // ---- Comparisons ----------------------------------------------------------------------

  /** mbedtls_mpi_core_lt_ct, read as a plain comparison. */
  method LessThan(A: array<Limb>, B: array<Limb>, n: nat) returns (lt: bool)
    requires n <= A.Length && n <= B.Length
    ensures lt <==> Val(A[..n]) < Val(B[..n])
  {
    hide Val;
    var i := n;
    while i > 0
      invariant 0 <= i <= n && A[i..n] == B[i..n]
    {
      if A[i - 1] > B[i - 1] {
        FirstDifference(A[..n], B[..n], i - 1);
        return false;
      }
      if A[i - 1] < B[i - 1] {
        FirstDifference(B[..n], A[..n], i - 1);
        return true;
      }
      i := i - 1;
    }
    assert A[..n] == B[..n];
    return false;
  }

  /** mbedtls_mpi_core_check_zero_ct. */
  method IsZero(A: array<Limb>, n: nat) returns (zero: bool)
    requires n <= A.Length
    ensures zero <==> Val(A[..n]) == 0
  {
    hide Val;
    zero := true;
    for i := 0 to n
      invariant zero <==> forall k :: 0 <= k < i ==> A[k] == 0
    {
      zero := zero && A[i] == 0;
    }
    if zero {
      ValZeros(A[..n]);
    } else {
      SomeLimb(A[..n]);
    }
  }

  lemma SomeLimb(s: seq<Limb>)
    requires exists k :: 0 <= k < |s| && s[k] != 0
    ensures Val(s) != 0
  {
    if Val(s) == 0 {
      ValZeroLimbs(s);
    }
  }

  // ---- Inversion ---------------------------------------------------------------------------

  lemma NonZeroForm(x: nat, a: nat, r: int, n: nat)
    requires x < n && a < n && IsMont(x, a, r, n) && x != 0
    ensures a != 0
  {
    if a == 0 {
      assert a * r == 0;
      CongUnique(x, 0, n);
    }
  }

  lemma ReducedForm(x: nat, b: int, ring: Ring)
    requires ring.nv > 0 && ring.Form(x, b)
    ensures IsMont(x, b % ring.nv, BPow(ring.n), ring.nv)
  {
    hide BPow, Cong, IsMont;
    CongMod(b, ring.nv);
    MontOfCong(x, b, b % ring.nv, BPow(ring.n), ring.nv);
  }

  lemma ReducedInverse(a: nat, b: int, n: nat)
    requires n > 0 && Cong(a * b, 1, n)
    ensures Cong(a * (b % n), 1, n)
  {
    hide Cong;
    CongMod(b, n);
    CongSym(b, b % n, n);
    CongScale(b % n, b, a, n);
    CongTrans(a * (b % n), a * b, 1, n);
  }

  /** The residue the inversion computes: an inverse when the modulus is prime. */
  ghost function InverseResidue(a: nat, n: nat): nat
    requires n >= 2
  {
    Pow(a, n - 2) % n
  }

  lemma InverseResidueIsInverse(a: nat, n: nat)
    requires Prime(n) && 0 < a < n
    ensures Cong(a * InverseResidue(a, n), 1, n)
  {
    hide Cong, Prime, Pow;
    DivUnique(a, n, 0, a);
    InverseByPower(a, n);
    ReducedInverse(a, Pow(a, n - 2), n);
  }

  /** mbedtls_mpi_mod_inv_mont: the input is a Montgomery form already. */
  method InvMont(X: Residue, A: Residue, N: Modulus, cap: nat, ghost a: nat)
    requires N.Valid() && N.intRep == MontgomeryRep && X.limbs == A.limbs == N.limbs && 1 <= cap
    requires X.limbs <= X.p.Length && A.limbs <= A.p.Length && X.p != N.p && X.p != N.rr
    requires N.Stands(A.Stored(), a) && A.Stored() != 0
    modifies X.p
    ensures N.Nv() >= 2 && N.Stands(X.Stored(), InverseResidue(a, N.Nv()))
    ensures X.p[X.limbs..] == old(X.p[X.limbs..])
  {
    hide Val, BPow, Cong, IsMont, Squared, NegInverse, Pow;
    ghost var ring := N.InRing();
    InvPrime(X.p, A.p, N.p, N.limbs, N.rr, cap, ring, a);
    ReducedForm(X.Stored(), Pow(a, ring.nv - 2), ring);
  }

  /** mbedtls_mpi_mod_inv_non_mont: into Montgomery form, inversion there, and back. */
  method InvNonMont(X: Residue, A: Residue, N: Modulus, cap: nat, ghost a: nat) returns (ok: bool)
    requires N.Valid() && N.intRep == OptRedRep && X.limbs == A.limbs == N.limbs && 1 <= cap
    requires X.limbs <= X.p.Length && A.limbs <= A.p.Length && X.p != N.p && X.p != N.rr
    requires N.Stands(A.Stored(), a) && A.Stored() != 0
    modifies X.p
    ensures ok <==> N.limbs < 4998
    ensures ok ==> N.Nv() >= 2 && N.Stands(X.Stored(), InverseResidue(a, N.Nv()))
    ensures X.p[X.limbs..] == old(X.p[X.limbs..])
    ensures !ok ==> X.p[..] == old(X.p[..])
  {
    hide Val, BPow, Cong, IsMont, Squared, NegInverse, Pow, BitLength;
    var Nmont := new Modulus();
    ok := ModulusSetup(Nmont, N.p, N.limbs, MontgomeryRep);
    if !ok {
      return;
    }
    ghost var ring := Nmont.InRing();
    assert ring.nv == N.Nv() >= 2;
    ToMont(X.p, A.p, Nmont.p, Nmont.limbs, Nmont.mm, Nmont.rr, ring);
    InvPrime(X.p, X.p, Nmont.p, Nmont.limbs, Nmont.rr, cap, ring, a);
    ghost var x := X.Stored();
    FromMont(X.p, X.p, Nmont.p, Nmont.limbs, Nmont.mm, ring);
    FromForm(x, X.Stored(), Pow(a, ring.nv - 2), ring);
    CongSym(X.Stored(), Pow(a, ring.nv - 2), ring.nv);
    CongIsMod(Pow(a, ring.nv - 2), X.Stored(), ring.nv);
  }

  /** Every number below the modulus stands for exactly one residue. */
  lemma StandsForOne(N: Modulus, x: nat) returns (a: nat)
    requires N.Valid() && x < N.Nv()
    ensures N.Stands(x, a)
    ensures forall b: nat :: N.Stands(x, b) ==> b == a
  {
    hide Val, BPow, Cong, Squared, NegInverse, Pow, RadixInverse;
    if N.intRep != MontgomeryRep {
      return x;
    }
    var n, r, rinv := N.Nv(), BPow(N.limbs), RadixInverse(N.Nv(), N.limbs);
    RadixInvertible(n, N.limbs);
    a := Represented(x, r, rinv, n);
    forall b: nat | N.Stands(x, b) ensures b == a {
      MontUnique(x, x, a, b, r, rinv, n);
      CongUnique(a, b, n);
    }
  }

  /** mbedtls_mpi_mod_inv, in either representation. X may be A. */
  method ModInv(X: Residue, A: Residue, N: Modulus, cap: nat, ghost a: nat) returns (st: Status)
    requires N.intRep != InvalidRep ==> N.Valid()
    requires X.limbs <= X.p.Length && A.limbs <= A.p.Length && X.p != N.p && X.p != N.rr && 1 <= cap
    requires N.Valid() && A.limbs == N.limbs ==> N.Stands(A.Stored(), a)
    modifies X.p
    ensures st == Ok <==> X.limbs == A.limbs == N.limbs && old(A.Stored()) != 0 && N.intRep != InvalidRep
                          && (N.intRep == OptRedRep ==> N.limbs < 4998)
    ensures st == Ok ==> N.Nv() >= 2 && N.Stands(X.Stored(), InverseResidue(a, N.Nv()))
    ensures st == Ok && Prime(N.Nv()) ==> Cong(a * InverseResidue(a, N.Nv()), 1, N.Nv())
    ensures st != Ok ==> X.p[..] == old(X.p[..])
  {
    hide Val, BPow, Cong, IsMont, Squared, NegInverse, Pow, InverseResidue, Prime;
    if X.limbs != N.limbs || A.limbs != N.limbs {
      return BadInput;
    }
    var zero := IsZero(A.p, A.limbs);
    if zero {
      return BadInput;
    }
    if N.intRep == MontgomeryRep {
      NonZeroForm(A.Stored(), a, BPow(N.limbs), N.Nv());
      InvMont(X, A, N, cap, a);
      st := Ok;
    } else if N.intRep == OptRedRep {
      var ok := InvNonMont(X, A, N, cap, a);
      st := if ok then Ok else Corrupted;
    } else {
      return BadInput;
    }
    if st == Ok && Prime(N.Nv()) {
      InverseResidueIsInverse(a, N.Nv());
    }
  }

  // ---- Import and export ---------------------------------------------------------------------

  ghost function ExtVal(ext: Ext, s: seq<Byte>): nat {
    if ext == LittleEndian then LeVal(s) else BeVal(s)
  }

  lemma ExtInjective(ext: Ext, s: seq<Byte>, t: seq<Byte>)
    requires |s| == |t| && ExtVal(ext, s) == ExtVal(ext, t)
    ensures s == t
  {
    if ext == LittleEndian {
      LeInjective(s, t);
    } else {
      BeInjective(s, t);
    }
  }

  lemma ExtBound(ext: Ext, s: seq<Byte>)
    ensures ExtVal(ext, s) < Pow256(|s|)
  {
    LeBound(s);
    LeBound(Rev(s));
  }

  /** mbedtls_mpi_mod_raw_read. */
  method RawRead(X: array<Limb>, N: Modulus, input: seq<Byte>, ext: Ext) returns (st: Status)
    requires N.Valid() && N.limbs <= X.Length && X != N.p && X != N.rr
    modifies X
    ensures st == if ext == InvalidExt then BadInput else if CharsToLimbs(|input|) > N.limbs then BufferTooSmall
                  else if ExtVal(ext, input) >= N.Nv() then BadInput else Ok
    ensures st == Ok ==> Val(X[..N.limbs]) == ExtVal(ext, input)
    ensures forall k :: N.limbs <= k < X.Length ==> X[k] == old(X[k])
  {
    hide Val, LeVal, BPow, Squared, Setup;
    var ok;
    match ext {
      case LittleEndian => ok := ReadLe(X, N.limbs, input);
      case BigEndian => ok := ReadBe(X, N.limbs, input);
      case InvalidExt => return BadInput;
    }
    if !ok {
      return BufferTooSmall;
    }
    var lt := LessThan(X, N.p, N.limbs);
    st := if lt then Ok else BadInput;
  }

  /** mbedtls_mpi_mod_raw_write. */
  method RawWrite(A: array<Limb>, N: Modulus, output: array<Byte>, ext: Ext) returns (st: Status)
    requires N.limbs <= A.Length
    modifies output
    ensures st == if ext == InvalidExt then BadInput
                  else if Val(A[..N.limbs]) < Pow256(output.Length) then Ok else BufferTooSmall
    ensures st == Ok ==> ExtVal(ext, output[..]) == Val(A[..N.limbs])
    ensures st != Ok ==> output[..] == old(output[..])
  {
    hide Val, LeVal;
    var ok;
    match ext {
      case LittleEndian => ok := WriteLe(A, N.limbs, output);
      case BigEndian => ok := WriteBe(A, N.limbs, output);
      case InvalidExt => return BadInput;
    }
    st := if ok then Ok else BufferTooSmall;
  }

  /** mbedtls_mpi_mod_read. */
  method ModRead(r: Residue, N: Modulus, buf: seq<Byte>, ext: Ext) returns (st: Status)
    requires N.limbs > 0 ==> N.Valid()
    requires r.limbs <= r.p.Length && r.p != N.p && r.p != N.rr
    modifies r, r.p
    ensures st == if r.limbs == 0 || N.limbs == 0 || r.limbs != N.limbs || ext == InvalidExt then BadInput
                  else if CharsToLimbs(|buf|) > N.limbs then BufferTooSmall
                  else if ExtVal(ext, buf) >= N.Nv() then BadInput else Ok
    ensures st == Ok ==> N.Stands(r.Stored(), ExtVal(ext, buf))
    ensures r.p == old(r.p) && r.limbs == old(r.limbs)
  {
    hide Val, LeVal, BPow, Squared, IsMont, NegInverse;
    if r.limbs == 0 || N.limbs == 0 {
      return BadInput;
    }
    if r.limbs != N.limbs {
      return BadInput;
    }
    st := RawRead(r.p, N, buf, ext);
    if st != Ok {
      return;
    }
    r.limbs := N.limbs;
    if N.intRep == MontgomeryRep {
      ToMont(r.p, r.p, N.p, N.limbs, N.mm, N.rr, N.InRing());
    }
  }

  /** The residue as it was: same low limbs by value, same limbs above. */
  lemma SameLimbString(x: seq<Limb>, y: seq<Limb>, n: nat)
    requires n <= |x| == |y| && Val(x[..n]) == Val(y[..n]) && x[n..] == y[n..]
    ensures x == y
  {
    hide Val;
    ValInjective(x[..n], y[..n]);
    assert x == x[..n] + x[n..] && y == y[..n] + y[n..];
  }

  lemma ResidueOfForm(x: nat, y: nat, a: nat, ring: Ring)
    requires ring.Valid() && y < ring.nv && Cong(y * BPow(ring.n), x, ring.nv) && ring.Form(x, a) && a < ring.nv
    ensures y == a
  {
    hide Cong, BPow;
    FromForm(x, y, a, ring);
    CongUnique(y, a, ring.nv);
  }

  /** mbedtls_mpi_mod_write: the residue is converted in place and converted back. */
  method ModWrite(r: Residue, N: Modulus, buf: array<Byte>, ext: Ext, ghost a: nat) returns (st: Status)
    requires N.limbs > 0 ==> N.Valid()
    requires r.limbs <= r.p.Length && r.p != N.p && r.p != N.rr
    requires N.limbs > 0 && r.limbs == N.limbs ==> N.Stands(r.Stored(), a)
    modifies r.p, buf
    ensures st == if r.limbs == 0 || N.limbs == 0 || r.limbs != N.limbs || ext == InvalidExt then BadInput
                  else if a < Pow256(buf.Length) then Ok else BufferTooSmall
    ensures st == Ok ==> ExtVal(ext, buf[..]) == a
    ensures st != Ok ==> buf[..] == old(buf[..])
    ensures r.p[..] == old(r.p[..])
  {
    hide Val, LeVal, BPow, Squared, IsMont, NegInverse, Cong;
    if r.limbs == 0 || N.limbs == 0 {
      return BadInput;
    }
    if r.limbs != N.limbs {
      return BadInput;
    }
    ghost var ring, x, p0 := N.InRing(), r.Stored(), r.p[..];
    assert p0[..N.limbs] == r.p[..N.limbs];
    if N.intRep == MontgomeryRep {
      FromMont(r.p, r.p, N.p, N.limbs, N.mm, ring);
      ResidueOfForm(x, r.Stored(), a, ring);
    }
    st := RawWrite(r.p, N, buf, ext);
    if N.intRep == MontgomeryRep {
      ghost var y := r.Stored();
      ToMont(r.p, r.p, N.p, N.limbs, N.mm, N.rr, ring);
      FormRoundTrip(x, y, r.Stored(), ring);
      assert r.p[..][..N.limbs] == r.p[..N.limbs] && r.p[..][N.limbs..] == p0[N.limbs..];
      SameLimbString(r.p[..], p0, N.limbs);
    }
  }

  /** Importing a residue and exporting it to the same length gives the bytes back. */
  method ReadThenWrite(r: Residue, N: Modulus, input: seq<Byte>, output: array<Byte>, ext: Ext) returns (st: Status)
    requires N.Valid() && r.limbs == N.limbs <= r.p.Length && r.p != N.p && r.p != N.rr
    requires output.Length == |input|
    modifies r, r.p, output
    ensures st == Ok <==> ext != InvalidExt && CharsToLimbs(|input|) <= N.limbs && ExtVal(ext, input) < N.Nv()
    ensures st == Ok ==> output[..] == input && N.Stands(r.Stored(), ExtVal(ext, input))
  {
    hide Val, LeVal, BPow, Squared, IsMont, NegInverse, Cong, Setup;
    st := ModRead(r, N, input, ext);
    if st != Ok {
      return;
    }
    ExtBound(ext, input);
    st := ModWrite(r, N, output, ext, ExtVal(ext, input));
    ExtInjective(ext, output[..], input);
  }
}
