/** Sliding-window modular exponentiation over mpis (mbedtls_mpi_exp_mod). */
module MpiExp {
  import opened Arith
  import opened Words
  import opened Bits
  import opened CoreBits
  import opened MontForm
  import opened Montgomery
  import opened CoreExp
  import opened Mpis
  import opened MpiAddSub
  import opened MpiDiv
  import MpiShift
  import Core

  /** MBEDTLS_MPI_MAX_BITS. */
  const MAX_BITS: nat := 8192

  /** The window size for an exponent of the given bit length; cap is MBEDTLS_MPI_WINDOW_SIZE. */
  function SlidingWindow(bits: nat, cap: nat): (w: nat)
    requires 1 <= cap
    ensures 1 <= w <= 6 && w <= cap
    ensures w >= 2 <==> bits > 23 && cap >= 2
    ensures w >= 3 <==> bits > 23 && cap >= 3
    ensures w >= 4 <==> bits > 79 && cap >= 4
    ensures w >= 5 <==> bits > 239 && cap >= 5
    ensures w >= 6 <==> bits > 671 && cap >= 6
  {
    var w := if bits > 671 then 6 else if bits > 239 then 5 else if bits > 79 then 4 else if bits > 23 then 3 else 1;
    if w > cap then cap else w
  }

  // ---- Montgomery products of mpis ----------------------------------------------

  /** mpi_montmul: A := A * B / R modulo N, in place. B may have more limbs than N, and may be A. */
  method MontmulMpi(A: Mpi, B: Mpi, N: Mpi, mm: Limb, T: Mpi)
    requires A != N && T != A && T != B && T != N && 0 < |N.p| <= |A.p| && |B.p| > 0 && 2 * |N.p| + 1 <= |T.p|
    requires NegInverse(mm, N.p[0]) && B.Abs() <= N.Abs() && A.Abs() < BPow(|N.p|)
    modifies A, T
    ensures A.s == old(A.s) && |A.p| == |old(A.p)| && |T.p| == |old(T.p)|
    ensures A.Abs() < N.Abs()
    ensures Cong(A.Abs() * BPow(|N.p|), old(A.Abs()) * old(B.Abs()), N.Abs())
  {
    hide Val, BPow, Cong, NegInverse;
    var n := |N.p|;
    ghost var a, b := A.Abs(), B.Abs();
    var al := ToArray(A.p);
    var bl := al;
    if B != A {
      bl := ToArray(B.p);
    }
    var nl := ToArray(N.p);
    var tl := ToArray(T.p);
    ValHighZero(A.p, n);
    assert al[..n] == A.p[..n] && bl[..|B.p|] == B.p && nl[..n] == N.p;
    label before:
    Montmul(al, al, bl, |B.p|, nl, n, mm, tl);
    assert old@before(Val(al[..n])) * old@before(Val(bl[..|B.p|])) == a * b;
    assert nl[..n] == N.p;
    ValTrim(al[..], n);
    assert al[..][..n] == al[..n];
    A.p := al[..];
    T.p := tl[..];
  }

  /** mpi_montred: A := A / R modulo N. */
  method MontredMpi(A: Mpi, N: Mpi, mm: Limb, T: Mpi)
    requires A != N && T != A && T != N && 0 < |N.p| <= |A.p| && 2 * |N.p| + 1 <= |T.p|
    requires NegInverse(mm, N.p[0]) && N.Abs() > 0 && A.Abs() < BPow(|N.p|)
    modifies A, T
    ensures A.s == old(A.s) && |A.p| == |old(A.p)| && |T.p| == |old(T.p)|
    ensures A.Abs() < N.Abs()
    ensures Cong(A.Abs() * BPow(|N.p|), old(A.Abs()) * 1, N.Abs())
  {
    hide Val, BPow, Cong, NegInverse;
    var U := OneLimb(1);
    assert U.s * U.Abs() == 1;
    AbsOfNonNegative(U.s, U.Abs());
    MontmulMpi(A, U, N, mm, T);
  }

  // ---- The table -----------------------------------------------------------------

  /** mbedtls_mpi_safe_cond_assign. */
  method SafeCondAssign(X: Mpi, Y: Mpi, assign: bool)
    requires X != Y
    modifies X
    ensures |X.p| == Max(|old(X.p)|, |Y.p|)
    ensures X.Abs() == (if assign then Y.Abs() else old(X.Abs())) && X.s == if assign then Y.s else old(X.s)
  {
    hide Val;
    Grow(X, |Y.p|);
    X.s := if assign then Y.s else X.s;
    var n := |Y.p|;
    var xs := ToArray(X.p);
    var ys := ToArray(Y.p);
    assert ys[0..0 + n] == Y.p;
    ghost var x1, y, s1 := X.p, Y.p, X.s;
    Core.CondAssign(xs, ys, 0, n, assign);
    for i := n to xs.Length
      invariant X.p == x1 && X.s == s1 && xs[..n] == if assign then y else x1[..n]
      invariant forall k :: n <= k < xs.Length ==> xs[k] == if assign && k < i then 0 else x1[k]
    {
      xs[i] := if assign then 0 else xs[i];
    }
    if assign {
      ValTrim(xs[..], n);
      assert xs[..][..n] == Y.p;
    } else {
      assert xs[..] == x1;
    }
    X.p := xs[..];
  }

  /** mpi_select: R := table[idx], reading every entry. */
  method Select(R: Mpi, table: seq<Mpi>, idx: nat)
    requires idx < |table| && R !in table
    modifies R
    ensures R.Abs() == table[idx].Abs() && |R.p| >= |table[idx].p|
  {
    hide Val;
    for i := 0 to |table|
      invariant i > idx ==> R.Abs() == table[idx].Abs() && |R.p| >= |table[idx].p|
    {
      SafeCondAssign(R, table[i], i == idx);
    }
  }

  ghost predicate AllDifferent(W: seq<Mpi>) {
    forall i, j :: 0 <= i < j < |W| ==> W[i] != W[j]
  }

  /** Entry 1 and entries lo to hi - 1 hold forms of the powers of a; entry 0 is the accumulator. */
  ghost predicate Stored(W: seq<Mpi>, ring: Ring, a: int, lo: nat, hi: nat)
    requires hi <= |W|
    reads W
  {
    forall i :: 0 < i < hi && (i == 1 || lo <= i) ==> |W[i].p| >= ring.n && ring.Form(W[i].Abs(), Pow(a, i))
  }

  /** The modulus with its constants, the accumulator, the scratch numbers, apart from each other. */
  ghost predicate Prepared(W: seq<Mpi>, WW: Mpi, N: Mpi, mm: Limb, T: Mpi, ring: Ring)
    reads W, N, T
  {
    && Setup(N.p, |N.p|, mm, ring) && |W| >= 2 && AllDifferent(W)
    && N !in W && T !in W && WW !in W && WW != N && WW != T && T != N
    && |T.p| >= 2 * ring.n + 1 && |W[0].p| >= ring.n && (W[0].s == 1 || ring.nv == 1)
  }

  lemma FormFits(ring: Ring, x: nat, a: int)
    requires ring.Form(x, a)
    ensures x < ring.nv
  {
  }

  lemma SetupFacts(N: Mpi, mm: Limb, ring: Ring)
    requires Setup(N.p, |N.p|, mm, ring)
    ensures N.Abs() == ring.nv < BPow(ring.n) && |N.p| == ring.n > 0 && NegInverse(mm, N.p[0]) && ring.Valid()
  {
    hide Val, NegInverse;
    assert N.p[..|N.p|] == N.p;
    ValBound(N.p);
  }

  /** A Montgomery product of forms. */
  method MulForms(A: Mpi, B: Mpi, N: Mpi, mm: Limb, T: Mpi, ghost ring: Ring, ghost a: int, ghost b: int)
    requires A != N && T != A && T != B && T != N && Setup(N.p, |N.p|, mm, ring)
    requires |A.p| >= ring.n && |B.p| >= ring.n && |T.p| >= 2 * ring.n + 1
    requires ring.Form(A.Abs(), a) && ring.Form(B.Abs(), b)
    modifies A, T
    ensures A.s == old(A.s) && |A.p| == |old(A.p)| && |T.p| == |old(T.p)|
    ensures ring.Form(A.Abs(), a * b)
  {
    hide Val, BPow, Cong, NegInverse, IsMont, Setup, Ring.Form;
    SetupFacts(N, mm, ring);
    FormFits(ring, A.Abs(), a);
    FormFits(ring, B.Abs(), b);
    ghost var x, y := A.Abs(), B.Abs();
    MontmulMpi(A, B, N, mm, T);
    ring.Product(A.Abs(), x, y, a, b);
  }

  /** The step of the main loop: look entry idx up and multiply the accumulator by it. */
  method MulEntry(W: seq<Mpi>, WW: Mpi, N: Mpi, mm: Limb, T: Mpi, idx: nat, lo: nat,
                  ghost ring: Ring, ghost a: int, ghost h: nat, ghost f: nat)
    requires Prepared(W, WW, N, mm, T, ring) && Stored(W, ring, a, lo, |W|) && idx < |W|
    requires ring.Form(W[0].Abs(), Pow(a, h))
    requires if idx == 0 then f == h else f == idx && (idx == 1 || lo <= idx)
    modifies W[0], WW, T
    ensures Prepared(W, WW, N, mm, T, ring) && Stored(W, ring, a, lo, |W|)
    ensures ring.Form(W[0].Abs(), Pow(a, h + f))
  {
    hide Val, BPow, Cong, NegInverse, IsMont, Setup, Ring.Form, Pow;
    Select(WW, W, idx);
    assert |WW.p| >= ring.n && ring.Form(WW.Abs(), Pow(a, f));
    ghost var old_ := seq(|W|, i requires 0 <= i < |W| reads W => W[i].p);
    var w0 := W[0];
    MulForms(w0, WW, N, mm, T, ring, Pow(a, h), Pow(a, f));
    assert forall i :: 1 <= i < |W| ==> W[i].p == old_[i];
    PowAdd(a, h, f);
  }

  // ---- Setting up ------------------------------------------------------------------

  lemma RadixSquared(n: nat)
    ensures Pow2(n * 2 * 32) == BPow(n) * BPow(n)
  {
    hide Pow2, BPow;
    BPowBits(n);
    Pow2Add(32 * n, 32 * n);
  }

  /** R^2 modulo N, unless an earlier call left it. */
  method RadixSquare(N: Mpi, prec: Mpi?) returns (RR: Mpi)
    requires N.Value() > 0 && prec != N
    requires prec != null && |prec.p| > 0 ==>
               0 <= prec.Value() < N.Value() && Cong(prec.Value(), BPow(|N.p|) * BPow(|N.p|), N.Value())
    modifies prec
    ensures fresh(RR) && |RR.p| > 0 && 0 <= RR.Value() < N.Value()
    ensures Cong(RR.Value(), BPow(|N.p|) * BPow(|N.p|), N.Value())
    ensures prec != null && |old(prec.p)| > 0 ==> prec.p == old(prec.p) && prec.s == old(prec.s)
    ensures prec != null ==> prec.p == RR.p && prec.s == RR.s
  {
    hide Val, BPow, Pow2, Cong, BitLength;
    RR := new Mpi();
    if prec == null || |prec.p| == 0 {
      ghost var n := N.Value();
      Lset(RR, 1);
      RadixSquared(|N.p|);
      MpiShift.ShiftL(RR, |N.p| * 2 * 32);
      var st := ModMpi(RR, RR, N);
      CongMod(BPow(|N.p|) * BPow(|N.p|), n);
      CongSym(BPow(|N.p|) * BPow(|N.p|), RR.Value(), n);
      if prec != null {
        prec.s := RR.s;
        prec.p := RR.p;
      }
    } else {
      RR.s := prec.s;
      RR.p := prec.p;
    }
  }

  /** W1 := the form of A, for A >= 0. */
  method FormOfBase(W1: Mpi, A: Mpi, N: Mpi, RR: Mpi, mm: Limb, T: Mpi, ghost ring: Ring)
    requires W1 != A && W1 != N && W1 != RR && W1 != T && T != A && T != N && T != RR
    requires Setup(N.p, |N.p|, mm, ring) && N.Value() > 0 && A.Value() >= 0 && |W1.p| >= ring.n + 1 && |T.p| >= 2 * ring.n + 1
    requires |RR.p| > 0 && 0 <= RR.Value() < N.Value() && Cong(RR.Value(), BPow(ring.n) * BPow(ring.n), ring.nv)
    modifies W1, T
    ensures |W1.p| >= ring.n && |T.p| == |old(T.p)| && ring.Form(W1.Abs(), A.Value())
  {
    hide Val, BPow, Cong, NegInverse, IsMont, Setup, Ring.Form;
    SetupFacts(N, mm, ring);
    SignsOfValues(N.s, N.Abs());
    SignsOfValues(RR.s, RR.Abs());
    ghost var a := A.Value();
    CongRefl(a, ring.nv);
    var c := CmpMpi(A, N);
    if c >= 0 {
      CongMod(a, ring.nv);
      var st := ModMpi(W1, A, N);
      Grow(W1, |N.p| + 1);
    } else {
      Copy(W1, A);
    }
    ghost var x := W1.Value();
    CongSym(a, x, ring.nv);
    SignsOfValues(W1.s, W1.Abs());
    MontmulMpi(W1, RR, N, mm, T);
    ring.Into(W1.Abs(), x, RR.Value());
    FormOfCong(ring, W1.Abs(), x, a);
  }

  lemma FormOfCong(ring: Ring, x: nat, a: int, b: int)
    requires ring.Form(x, a) && Cong(a, b, ring.nv)
    ensures ring.Form(x, b)
  {
    hide Cong, BPow, IsMont;
    MontOfCong(x, a, b, BPow(ring.n), ring.nv);
  }

  lemma RadixIsOne(res: nat, rr: nat, ring: Ring)
    requires ring.Valid() && res < ring.nv && Cong(rr, BPow(ring.n) * BPow(ring.n), ring.nv)
    requires Cong(res * BPow(ring.n), rr * 1, ring.nv)
    ensures ring.Form(res, 1)
  {
    hide Cong, BPow, RadixInverse;
    var r, inv := BPow(ring.n), RadixInverse(ring.nv, ring.n);
    RadixInvertible(ring.nv, ring.n);
    CongTrans(res * r, rr, r * r, ring.nv);
    CongCancel(res, r, r, inv, ring.nv);
  }

  /** R^2 is only 0 modulo 1. */
  lemma ZeroRadix(ring: Ring)
    requires ring.Valid() && Cong(0, BPow(ring.n) * BPow(ring.n), ring.nv)
    ensures ring.nv == 1
  {
    hide Cong, BPow, RadixInverse;
    var r, inv := BPow(ring.n), RadixInverse(ring.nv, ring.n);
    RadixInvertible(ring.nv, ring.n);
    CongCancel(0, r, r, inv, ring.nv);
    CongScale(0, r, inv, ring.nv);
    CongTrans(0, r * inv, 1, ring.nv);
    if ring.nv > 1 {
      CongUnique(0, 1, ring.nv);
    }
  }

  /** W0 := the form of 1. */
  method FormOfUnit(W0: Mpi, N: Mpi, RR: Mpi, mm: Limb, T: Mpi, ghost ring: Ring)
    requires W0 != N && W0 != RR && W0 != T && T != N && T != RR
    requires Setup(N.p, |N.p|, mm, ring) && N.Value() > 0 && |W0.p| >= ring.n + 1 && |T.p| >= 2 * ring.n + 1
    requires |RR.p| > 0 && 0 <= RR.Value() < N.Value() && Cong(RR.Value(), BPow(ring.n) * BPow(ring.n), ring.nv)
    modifies W0, T
    ensures |W0.p| >= ring.n && |T.p| == |old(T.p)| && ring.Form(W0.Abs(), 1)
    ensures W0.s == 1 || ring.nv == 1
  {
    hide Val, BPow, Cong, NegInverse, IsMont, Setup, Ring.Form;
    SetupFacts(N, mm, ring);
    SignsOfValues(N.s, N.Abs());
    SignsOfValues(RR.s, RR.Abs());
    if RR.Abs() == 0 {
      assert RR.Value() == 0;
      ZeroRadix(ring);
    }
    Copy(W0, RR);
    MontredMpi(W0, N, mm, T);
    RadixIsOne(W0.Abs(), RR.Abs(), ring);
  }

  /** A fresh copy of an entry with room for the products. */
  method StartEntry(X: Mpi, Y: Mpi, n: nat, ghost ring: Ring, ghost a: int)
    requires X != Y && n == ring.n && ring.Form(Y.Abs(), a)
    modifies X
    ensures |X.p| >= n && ring.Form(X.Abs(), a)
  {
    hide Val, Ring.Form;
    Grow(X, n + 1);
    Copy(X, Y);
  }

  lemma DoublePower(a: int, i: nat)
    ensures Pow(a, Pow2(i)) * Pow(a, Pow2(i)) == Pow(a, Pow2(i + 1))
  {
    PowAdd(a, Pow2(i), Pow2(i));
  }

  /** The upper half of the table: entry j = a^j by repeated squaring, then one factor a at a time. */
  method FillTable(W: seq<Mpi>, WW: Mpi, N: Mpi, mm: Limb, T: Mpi, wsize: nat, ghost ring: Ring, ghost a: int)
    requires wsize > 1 && |W| == Pow2(wsize) && Prepared(W, WW, N, mm, T, ring)
    requires |W[1].p| >= ring.n && ring.Form(W[1].Abs(), a)
    modifies W[2..], T
    ensures Prepared(W, WW, N, mm, T, ring) && Stored(W, ring, a, Pow2(wsize - 1), |W|)
  {
    hide Val, BPow, Cong, NegInverse, IsMont, Setup, Ring.Form, Pow, Pow2;
    var j := Pow2(wsize - 1);
    TableSize(wsize);
    SetupFacts(N, mm, ring);
    PowerOne(a);
    var wj := W[j];
    assert W[2..][j - 2] == wj;
    StartEntry(wj, W[1], |N.p|, ring, a);
    SquareUp(W, WW, N, mm, T, wsize, j, ring, a);
    for i := j + 1 to |W|
      invariant Prepared(W, WW, N, mm, T, ring) && Stored(W, ring, a, j, i)
    {
      NextEntry(W, WW, N, mm, T, i, j, ring, a);
    }
  }

  /** The entry at half the table, from a to its power by wsize - 1 squarings. */
  method SquareUp(W: seq<Mpi>, WW: Mpi, N: Mpi, mm: Limb, T: Mpi, wsize: nat, j: nat, ghost ring: Ring, ghost a: int)
    requires 2 <= j < |W| && wsize > 0 && Prepared(W, WW, N, mm, T, ring)
    requires |W[1].p| >= ring.n && ring.Form(W[1].Abs(), a) && |W[j].p| >= ring.n && ring.Form(W[j].Abs(), Pow(a, Pow2(0)))
    modifies W[j], T
    ensures Prepared(W, WW, N, mm, T, ring) && |W[1].p| >= ring.n && ring.Form(W[1].Abs(), a)
    ensures |W[j].p| >= ring.n && ring.Form(W[j].Abs(), Pow(a, Pow2(wsize - 1)))
  {
    hide Val, BPow, Cong, NegInverse, IsMont, Setup, Ring.Form, Pow, Pow2;
    SetupFacts(N, mm, ring);
    var wj := W[j];
    for i := 0 to wsize - 1
      invariant Prepared(W, WW, N, mm, T, ring) && |wj.p| >= ring.n && ring.Form(wj.Abs(), Pow(a, Pow2(i)))
      invariant |W[1].p| >= ring.n && ring.Form(W[1].Abs(), a)
    {
      MulForms(wj, wj, N, mm, T, ring, Pow(a, Pow2(i)), Pow(a, Pow2(i)));
      DoublePower(a, i);
    }
  }

  lemma PowerOne(a: int)
    ensures Pow(a, 1) == a && Pow2(0) == 1 && Pow(a, 0) == 1
  {
    assert Pow(a, 1) == a * Pow(a, 0);
  }

  lemma TableSize(wsize: nat)
    requires wsize > 1
    ensures 2 <= Pow2(wsize - 1) < Pow2(wsize) == 2 * Pow2(wsize - 1)
  {
    Pow2Monotone(1, wsize - 1);
    assert Pow2(1) == 2;
  }

  /** W[i] := W[i - 1] * W[1]. */
  method NextEntry(W: seq<Mpi>, WW: Mpi, N: Mpi, mm: Limb, T: Mpi, i: nat, j: nat, ghost ring: Ring, ghost a: int)
    requires Prepared(W, WW, N, mm, T, ring) && 2 <= j < i < |W| && Stored(W, ring, a, j, i)
    modifies W[i], T
    ensures Prepared(W, WW, N, mm, T, ring) && Stored(W, ring, a, j, i + 1)
  {
    hide Val, BPow, Cong, NegInverse, IsMont, Setup, Ring.Form, Pow;
    var wi := W[i];
    ghost var before := seq(|W|, k requires 0 <= k < |W| reads W => W[k].p);
    SetupFacts(N, mm, ring);
    StartEntry(wi, W[i - 1], |N.p|, ring, Pow(a, i - 1));
    PowerOne(a);
    PowAdd(a, i - 1, 1);
    MulForms(wi, W[1], N, mm, T, ring, Pow(a, i - 1), Pow(a, 1));
    assert forall k :: 0 <= k < |W| && k != i ==> W[k].p == before[k];
  }

  // ---- The scan over the exponent bits ----------------------------------------------

  /** The bits of ev from pos on are those of h followed by the nbits bits of w. */
  ghost predicate Scanned(ev: nat, pos: nat, h: nat, nbits: nat, w: nat) {
    ev / Pow2(pos) == h * Pow2(nbits) + w && w < Pow2(nbits)
  }

  lemma ScanStart(ev: nat, pos: nat)
    requires ev < Pow2(pos)
    ensures Scanned(ev, pos, 0, 0, 0)
  {
    PrefixEmpty(ev, pos);
    Pow2Zero();
  }

  lemma ReadBit(ev: nat, pos: nat, h: nat, nbits: nat, w: nat)
    requires Scanned(ev, pos + 1, h, nbits, w)
    ensures Scanned(ev, pos, h, nbits + 1, 2 * w + Bit(ev, pos))
  {
    hide Pow2, Bit;
    PrefixStep(ev, pos);
    Pow2Step(nbits);
    assert h * (2 * Pow2(nbits)) == 2 * (h * Pow2(nbits));
  }

  lemma EmptyWindow(ev: nat, pos: nat, h: nat, nbits: nat, w: nat)
    requires Scanned(ev, pos, h, nbits, w)
    ensures Scanned(ev, pos, h * Pow2(nbits) + w, 0, 0)
  {
    Pow2Zero();
  }

  /** The window register holds w at the top of its wsize bits; a window in progress starts with a 1. */
  ghost predicate Window(state: nat, nbits: nat, bits: nat, wsize: nat, h: nat, w: nat) {
    && state <= 2 && nbits < wsize && bits == w * Pow2(wsize - nbits)
    && (state == 2 <==> nbits > 0)
    && (state == 0 ==> h == 0) && (nbits > 0 ==> Pow2(nbits - 1) <= w)
  }

  lemma FreshWindow(state: nat, wsize: nat, h: nat)
    requires state <= 1 && wsize > 0 && (state == 0 ==> h == 0)
    ensures Window(state, 0, 0, wsize, h, 0)
  {
  }

  /** Taking a bit in: the register gains it at position wsize - nbits - 1, below all others. */
  lemma Joined(nbits: nat, bits: nat, wsize: nat, w: nat, ei: nat)
    requires nbits < wsize && bits == w * Pow2(wsize - nbits) && ei <= 1
    ensures bits + ei * Pow2(wsize - (nbits + 1)) == (2 * w + ei) * Pow2(wsize - (nbits + 1))
  {
    hide Pow2;
    var p := Pow2(wsize - (nbits + 1));
    Pow2Step(wsize - (nbits + 1));
    assert (2 * w + ei) * p == w * (2 * p) + ei * p;
  }

  lemma NoBits(ev: nat, pos: nat, h: nat, w: nat)
    requires Scanned(ev, pos, h, 0, w)
    ensures w == 0 && ev / Pow2(pos) == h
  {
    Pow2Zero();
  }

  /** Squaring the accumulator times times. */
  method SquareTimes(W: seq<Mpi>, WW: Mpi, N: Mpi, mm: Limb, T: Mpi, times: nat, lo: nat,
                     ghost ring: Ring, ghost a: int, ghost h: nat)
    requires |W| >= 2 && Prepared(W, WW, N, mm, T, ring) && Stored(W, ring, a, lo, |W|)
    requires ring.Form(W[0].Abs(), Pow(a, h))
    modifies W[0], WW, T
    ensures Prepared(W, WW, N, mm, T, ring) && Stored(W, ring, a, lo, |W|)
    ensures ring.Form(W[0].Abs(), Pow(a, h * Pow2(times)))
  {
    hide Val, Ring.Form, Pow, Prepared, Stored, Pow2;
    PowerOne(a);
    for i := 0 to times
      invariant Prepared(W, WW, N, mm, T, ring) && Stored(W, ring, a, lo, |W|)
      invariant ring.Form(W[0].Abs(), Pow(a, h * Pow2(i)))
    {
      Pow2Step(i);
      assert h * Pow2(i) + h * Pow2(i) == h * (2 * Pow2(i));
      MulEntry(W, WW, N, mm, T, 0, lo, ring, a, h * Pow2(i), h * Pow2(i));
    }
  }

  /** A full window: wsize squarings and one product with the entry the window selects. */
  method CloseWindow(W: seq<Mpi>, WW: Mpi, N: Mpi, mm: Limb, T: Mpi, wsize: nat, lo: nat, bits: nat,
                     ghost ring: Ring, ghost a: int, ghost ev: nat, ghost pos: nat, ghost h0: nat, ghost w: nat)
    returns (ghost h: nat)
    requires |W| >= 2 && Prepared(W, WW, N, mm, T, ring) && Stored(W, ring, a, lo, |W|)
    requires 0 < wsize && |W| == Pow2(wsize) && lo == Pow2(wsize - 1)
    requires Scanned(ev, pos, h0, wsize, w) && bits == w * Pow2(wsize - wsize) && lo <= w
    requires ring.Form(W[0].Abs(), Pow(a, h0))
    modifies W[0], WW, T
    ensures Prepared(W, WW, N, mm, T, ring) && Stored(W, ring, a, lo, |W|)
    ensures Scanned(ev, pos, h, 0, 0) && ring.Form(W[0].Abs(), Pow(a, h))
  {
    hide Val, Ring.Form, Pow, Prepared, Stored, Pow2, Scanned;
    SquareTimes(W, WW, N, mm, T, wsize, lo, ring, a, h0);
    FullWindow(ev, pos, h0, wsize, w, bits);
    MulEntry(W, WW, N, mm, T, bits, lo, ring, a, h0 * Pow2(wsize), w);
    EmptyWindow(ev, pos, h0, wsize, w);
    h := h0 * Pow2(wsize) + w;
  }

  /** One exponent bit ei. The window size is wsize, the stored half of the table starts at lo. */
  method HandleBit(W: seq<Mpi>, WW: Mpi, N: Mpi, mm: Limb, T: Mpi, wsize: nat, lo: nat, ei: nat,
                   state0: nat, nbits0: nat, bits0: nat,
                   ghost ring: Ring, ghost a: int, ghost ev: nat, ghost pos: nat, ghost h0: nat, ghost w0: nat)
    returns (state: nat, nbits: nat, bits: nat, ghost h: nat, ghost w: nat)
    requires |W| >= 2 && Prepared(W, WW, N, mm, T, ring) && Stored(W, ring, a, lo, |W|)
    requires 0 < wsize && |W| == Pow2(wsize) && lo == Pow2(wsize - 1)
    requires ei == Bit(ev, pos) && Scanned(ev, pos + 1, h0, nbits0, w0) && Window(state0, nbits0, bits0, wsize, h0, w0)
    requires ring.Form(W[0].Abs(), Pow(a, h0))
    modifies W[0], WW, T
    ensures Prepared(W, WW, N, mm, T, ring) && Stored(W, ring, a, lo, |W|)
    ensures Scanned(ev, pos, h, nbits, w) && Window(state, nbits, bits, wsize, h, w)
    ensures ring.Form(W[0].Abs(), Pow(a, h))
  {
    hide Val, Ring.Form, Pow, Prepared, Stored, Pow2, Scanned, Bit;
    state, nbits, bits, h, w := state0, nbits0, bits0, h0, w0;
    ReadBit(ev, pos, h, nbits, w);
    if ei == 0 && state == 0 {
      NoBits(ev, pos + 1, h, w);
      EmptyWindow(ev, pos, h, 1, 0);
      return;
    }
    if ei == 0 && state == 1 {
      NoBits(ev, pos + 1, h, w);
      EmptyWindow(ev, pos, h, 1, 0);
      Pow2One();
      MulEntry(W, WW, N, mm, T, 0, lo, ring, a, h, h);
      h := h + h;
      return;
    }
    state := 2;
    nbits := nbits + 1;
    Joined(nbits - 1, bits, wsize, w, ei);
    TopBitSet(ev, pos, h, nbits - 1, w, ei);
    bits := bits + ei * Pow2(wsize - nbits); // the bit is still clear, so | is +
    w := 2 * w + ei;
    if nbits == wsize {
      h := CloseWindow(W, WW, N, mm, T, wsize, lo, bits, ring, a, ev, pos, h, w);
      state := state - 1;
      nbits, bits, w := 0, 0, 0;
    }
  }

  lemma TopBitSet(ev: nat, pos: nat, h: nat, nbits: nat, w: nat, ei: nat)
    requires Scanned(ev, pos + 1, h, nbits, w) && ei <= 1
    requires if nbits > 0 then Pow2(nbits - 1) <= w else ei == 1
    ensures Pow2(nbits) <= 2 * w + ei
  {
    Pow2Zero();
  }

  lemma FullWindow(ev: nat, pos: nat, h: nat, wsize: nat, w: nat, bits: nat)
    requires wsize > 0 && Scanned(ev, pos, h, wsize, w) && bits == w * Pow2(wsize - wsize) && Pow2(wsize - 1) <= w
    ensures bits == w && 0 < w < Pow2(wsize)
  {
    Pow2Zero();
  }

  /** The scan: bits of E from the most significant down; the last window may stay partial. */
  method ScanExponent(W: seq<Mpi>, WW: Mpi, N: Mpi, mm: Limb, T: Mpi, wsize: nat, lo: nat, e: seq<Limb>,
                      ghost ring: Ring, ghost a: int)
    returns (nbits: nat, bits: nat, ghost h: nat, ghost w: nat)
    requires |W| >= 2 && Prepared(W, WW, N, mm, T, ring) && Stored(W, ring, a, lo, |W|)
    requires 0 < wsize && |W| == Pow2(wsize) && lo == Pow2(wsize - 1)
    requires ring.Form(W[0].Abs(), 1)
    modifies W[0], WW, T
    ensures Prepared(W, WW, N, mm, T, ring) && Stored(W, ring, a, lo, |W|)
    ensures Scanned(Val(e), 0, h, nbits, w) && nbits < wsize && bits == w * Pow2(wsize - nbits)
    ensures ring.Form(W[0].Abs(), Pow(a, h))
  {
    hide Val, BPow, Ring.Form, Pow, Prepared, Stored, Pow2, Scanned, Bit, Window;
    var nblimbs: nat, bufsize: nat, state: nat := |e|, 0, 0;
    nbits, bits, h, w := 0, 0, 0, 0;
    ExponentFits(e);
    ScanStart(Val(e), 32 * |e|);
    FreshWindow(0, wsize, 0);
    PowerOne(a);
    while true
      invariant nblimbs <= |e| && bufsize < 32 && (nblimbs == |e| ==> bufsize == 0)
      invariant Prepared(W, WW, N, mm, T, ring) && Stored(W, ring, a, lo, |W|)
      invariant Scanned(Val(e), 32 * nblimbs + bufsize, h, nbits, w) && Window(state, nbits, bits, wsize, h, w)
      invariant ring.Form(W[0].Abs(), Pow(a, h))
      decreases 32 * nblimbs + bufsize
    {
      if bufsize == 0 {
        if nblimbs == 0 {
          break;
        }
        nblimbs := nblimbs - 1;
        bufsize := 32;
      }
      bufsize := bufsize - 1;
      var ei := Bit(e[nblimbs], bufsize);
      LimbBit(e, nblimbs, bufsize);
      state, nbits, bits, h, w := HandleBit(W, WW, N, mm, T, wsize, lo, ei, state, nbits, bits,
                                            ring, a, Val(e), 32 * nblimbs + bufsize, h, w);
    }
    WindowBits(state, nbits, bits, wsize, h, w);
  }

  lemma WindowBits(state: nat, nbits: nat, bits: nat, wsize: nat, h: nat, w: nat)
    requires Window(state, nbits, bits, wsize, h, w)
    ensures nbits < wsize && bits == w * Pow2(wsize - nbits)
  {
  }

  lemma ExponentFits(e: seq<Limb>)
    ensures Val(e) < Pow2(32 * |e|)
  {
    ValBound(e);
    BPowBits(|e|);
  }

  /** Shifting the register left brings bit k of w to position wsize. */
  lemma RegisterBit(w: nat, s: nat, k: nat)
    ensures Bit(w * Pow2(s), s + k) == Bit(w, k)
  {
    hide Pow2;
    Pow2Add(s, k);
    DivDiv(w * Pow2(s), Pow2(s), Pow2(k));
    DivUnique(w * Pow2(s), Pow2(s), w, 0);
  }

  /** The bits left in a partial window, one squaring each. */
  method FinishWindow(W: seq<Mpi>, WW: Mpi, N: Mpi, mm: Limb, T: Mpi, wsize: nat, lo: nat, nbits: nat, bits0: nat,
                      ghost ring: Ring, ghost a: int, ghost h: nat, ghost w: nat)
    requires |W| >= 2 && Prepared(W, WW, N, mm, T, ring) && Stored(W, ring, a, lo, |W|)
    requires nbits < wsize && bits0 == w * Pow2(wsize - nbits) && w < Pow2(nbits)
    requires ring.Form(W[0].Abs(), Pow(a, h))
    modifies W[0], WW, T
    ensures Prepared(W, WW, N, mm, T, ring)
    ensures ring.Form(W[0].Abs(), Pow(a, h * Pow2(nbits) + w))
  {
    hide Val, Ring.Form, Pow, Prepared, Stored, Pow2, Bit;
    var bits := bits0;
    ghost var g := h;
    PrefixEmpty(w, nbits);
    Pow2Zero();
    for i := 0 to nbits
      invariant Prepared(W, WW, N, mm, T, ring) && Stored(W, ring, a, lo, |W|)
      invariant bits == w * Pow2(wsize - nbits + i)
      invariant g == h * Pow2(i) + w / Pow2(nbits - i)
      invariant ring.Form(W[0].Abs(), Pow(a, g))
    {
      MulEntry(W, WW, N, mm, T, 0, lo, ring, a, g, g);
      DoubleRegister(w, wsize - nbits + i);
      bits := bits * 2;
      RegisterBit(w, wsize - nbits + i + 1, nbits - i - 1);
      NextPrefix(h, i, w, nbits);
      if Bit(bits, wsize) != 0 {
        MulEntry(W, WW, N, mm, T, 1, lo, ring, a, g + g, 1);
        g := g + g + 1;
      } else {
        g := g + g;
      }
    }
    DivUnique(w, 1, w, 0);
  }

  lemma DoubleRegister(w: nat, s: nat)
    ensures w * Pow2(s) * 2 == w * Pow2(s + 1)
  {
  }

  lemma NextPrefix(h: nat, i: nat, w: nat, nbits: nat)
    requires i < nbits
    ensures var g := h * Pow2(i) + w / Pow2(nbits - i);
            h * Pow2(i + 1) + w / Pow2(nbits - (i + 1)) == g + g + Bit(w, nbits - i - 1)
  {
    hide Pow2, Bit;
    PrefixStep(w, nbits - i - 1);
    Pow2Step(i);
    assert h * (2 * Pow2(i)) == 2 * (h * Pow2(i));
  }

  // ---- The exponentiation -------------------------------------------------------------

  method NewTable(k: nat) returns (W: seq<Mpi>)
    ensures |W| == k && AllDifferent(W) && forall i :: 0 <= i < k ==> fresh(W[i])
  {
    W := [];
    while |W| < k
      invariant |W| <= k && AllDifferent(W) && forall i :: 0 <= i < |W| ==> fresh(W[i])
    {
      var w := new Mpi();
      W := W + [w];
    }
  }

  lemma OutOfForm(res: nat, x: nat, a: int, ring: Ring)
    requires ring.Valid() && ring.Form(x, a) && Cong(res * BPow(ring.n), x * 1, ring.nv)
    ensures Cong(res, a, ring.nv)
  {
    hide Cong, BPow, RadixInverse;
    RadixInvertible(ring.nv, ring.n);
    OutOfMont(res, x, a, BPow(ring.n), RadixInverse(ring.nv, ring.n), ring.nv);
  }

  lemma WholeExponent(ev: nat, h: nat, nbits: nat, w: nat)
    requires Scanned(ev, 0, h, nbits, w)
    ensures ev == h * Pow2(nbits) + w && w < Pow2(nbits)
  {
    Pow2Zero();
  }

  /** From the two starting entries to the plain power: table, scan, last bits, reduction. */
  method Evaluate(W: seq<Mpi>, WW: Mpi, N: Mpi, mm: Limb, T: Mpi, wsize: nat, e: seq<Limb>, ghost ring: Ring, ghost a: int)
    requires 0 < wsize && |W| == Pow2(wsize) && |W| >= 2 && Prepared(W, WW, N, mm, T, ring)
    requires ring.Form(W[0].Abs(), 1) && |W[1].p| >= ring.n && ring.Form(W[1].Abs(), a)
    modifies W, WW, T
    ensures 0 <= W[0].Value() < ring.nv && Cong(W[0].Value(), Pow(a, Val(e)), ring.nv)
  {
    hide Val, BPow, Cong, NegInverse, IsMont, Setup, Ring.Form, Pow, Pow2, Scanned;
    PowerOne(a);
    var lo := Pow2(wsize - 1);
    if wsize > 1 {
      FillTable(W, WW, N, mm, T, wsize, ring, a);
    } else {
      Pow2One();
    }
    assert Stored(W, ring, a, lo, |W|);
    var nbits, bits, h, w := ScanExponent(W, WW, N, mm, T, wsize, lo, e, ring, a);
    WholeExponent(Val(e), h, nbits, w);
    FinishWindow(W, WW, N, mm, T, wsize, lo, nbits, bits, ring, a, h, w);
    ghost var x := W[0].Abs();
    SetupFacts(N, mm, ring);
    FormFits(ring, x, Pow(a, Val(e)));
    MontredMpi(W[0], N, mm, T);
    OutOfForm(W[0].Abs(), x, Pow(a, Val(e)), ring);
    PlainValue(W[0].s, W[0].Abs(), ring.nv);
  }

  lemma PlainValue(s: Sign, v: nat, n: nat)
    requires v < n && (s == 1 || n == 1)
    ensures s * v == v
  {
  }

  lemma {:induction false} PowNegated(a: int, e: nat)
    ensures Pow(-a, e) == if e % 2 == 0 then Pow(a, e) else -Pow(a, e)
  {
    if e > 0 {
      PowNegated(a, e - 1);
      NegatedFactors(a, Pow(a, e - 1));
    }
  }

  lemma NegatedFactors(a: int, p: int)
    ensures (-a) * p == -(a * p) && (-a) * -p == a * p
  {
  }

  lemma NegatedResidue(x: int, p: int, n: int)
    requires Cong(x, p, n)
    ensures Cong(n - x, -p, n)
  {
    var k := CongWitness(x, p, n);
    assert (1 - k) * n == n - k * n;
    CongIntro(n - x, -p, n, 1 - k);
  }

  lemma ZeroResidue(x: nat, p: int, n: nat)
    requires x < n && Cong(x, p, n)
    ensures x == 0 <==> Cong(p, 0, n)
  {
    hide Cong;
    CongSym(x, p, n);
    if Cong(p, 0, n) {
      CongTrans(x, p, 0, n);
      CongUnique(x, 0, n);
    }
  }

  /** The correction for a negative base and an odd exponent. */
  lemma NegativeBase(s: Sign, a: nat, e: nat, x: nat, x': int, n: nat)
    requires 0 <= x < n && Cong(x, Pow(a, e), n)
    requires x' == if s < 0 && e % 2 != 0 then n - x else x
    ensures Cong(x', Pow(s * a, e), n)
    ensures x' == n <==> s < 0 && e % 2 != 0 && Cong(Pow(a, e), 0, n)
    ensures 0 <= x' <= n
  {
    hide Cong, Pow;
    SignedBase(s, a);
    PowNegated(a, e);
    NegatedResidue(x, Pow(a, e), n);
    ZeroResidue(x, Pow(a, e), n);
  }

  lemma SignedBase(s: Sign, a: nat)
    ensures s * a == if s < 0 then -(a as int) else a
  {
  }

  /** The modulus is usable: positive and odd. */
  ghost predicate OddModulus(n: int) {
    n > 0 && n % 2 == 1
  }

  lemma OddLimb(s: Sign, p: seq<Limb>)
    requires s * Val(p) > 0
    ensures s == 1 && p != [] && Val(p) > 0 && (OddModulus(s * Val(p)) <==> p[0] % 2 == 1)
  {
    LowLimbParity(p);
    ValZeros([]);
  }

  /** mbedtls_mpi_exp_mod: X := A^E mod N. X may be A, E or N; prec, which keeps R^2 between calls, may not. */
  method ExpModMpi(X: Mpi, A: Mpi, E: Mpi, N: Mpi, prec: Mpi?, cap: nat) returns (st: Status)
    requires 1 <= cap && prec != X && prec != A && prec != E && prec != N
    requires prec != null && |prec.p| > 0 ==>
               0 <= prec.Value() < N.Value() && Cong(prec.Value(), BPow(|N.p|) * BPow(|N.p|), N.Value())
    modifies X, prec
    ensures st == Ok <==> OddModulus(old(N.Value())) && old(E.Value()) >= 0
                          && BitLength(old(E.Abs())) <= 8192 && BitLength(old(N.Abs())) <= 8192
    ensures st == Ok || (st == BadInput && X.p == old(X.p) && X.s == old(X.s))
    ensures st == Ok ==> Cong(X.Value(), Pow(old(A.Value()), old(E.Abs())), old(N.Value()))
    ensures st == Ok ==> 0 <= X.Value() <= old(N.Value())
    ensures st == Ok ==> (X.Value() == old(N.Value()) <==>
                            old(A.s) < 0 && old(E.Abs()) % 2 == 1 && Cong(Pow(old(A.Abs()), old(E.Abs())), 0, old(N.Value())))
    ensures st == Ok && prec != null ==> |prec.p| > 0 && 0 <= prec.Value() < old(N.Value())
                                         && Cong(prec.Value(), old(BPow(|N.p|) * BPow(|N.p|)), old(N.Value()))
  {
    hide Val, BPow, Cong, Pow, BitLength, SlidingWindow, OddModulus;
    assert OddModulus(N.Value()) ==> N.Value() > 0 by { OddPositive(N.Value()); }
    var c := CmpInt(N, 0);
    if c <= 0 {
      return BadInput;
    }
    OddLimb(N.s, N.p);
    if N.p[0] % 2 == 0 {
      return BadInput;
    }
    c := CmpInt(E, 0);
    if c < 0 {
      return BadInput;
    }
    var eBits := MpiShift.BitlenMpi(E);
    var nBits := MpiShift.BitlenMpi(N);
    if eBits > MAX_BITS || nBits > MAX_BITS {
      return BadInput;
    }
    st := Ok;
    var wsize := SlidingWindow(eBits, cap);
    var W0 := PlainPower(X, A, E.p, N, prec, wsize);
    LowLimbParityOrZero(E.p);
    ghost var x := W0.Value();
    if A.s < 0 && |E.p| != 0 && E.p[0] % 2 != 0 {
      AbsOfNonNegative(W0.s, W0.Abs());
      W0.s := -1;
      MinusOne(W0.Abs());
      AddMpi(W0, N, W0);
    }
    NegativeBase(A.s, A.Abs(), E.Abs(), x, W0.Value(), N.Value());
    Mpis.Copy(X, W0);
  }

  lemma OddPositive(n: int)
    ensures OddModulus(n) ==> n > 0
  {
  }

  lemma MinusOne(v: int)
    ensures -1 * v == -v
  {
  }

  lemma LowLimbParityOrZero(p: seq<Limb>)
    ensures Val(p) % 2 == 1 <==> |p| != 0 && p[0] % 2 != 0
  {
    if p == [] {
      ValZeros(p);
    } else {
      LowLimbParity(p);
    }
  }

  /** The table and the scratch numbers of one call; entry 0 starts as a copy of X. */
  method Scratch(X: Mpi, n: nat, wsize: nat) returns (W: seq<Mpi>, WW: Mpi, T: Mpi)
    requires 0 < wsize
    ensures |W| == Pow2(wsize) >= 2 && AllDifferent(W) && T !in W && WW !in W && WW != T
    ensures fresh(T) && fresh(WW) && forall i :: 0 <= i < |W| ==> fresh(W[i])
    ensures |W[0].p| >= n + 1 && |W[1].p| >= n + 1 && |T.p| >= 2 * n + 2
  {
    hide Val, Pow2;
    WindowElems(wsize);
    W := NewTable(Pow2(wsize));
    T := new Mpi();
    WW := new Mpi();
    Mpis.Copy(W[0], X);
    Grow(W[0], n + 1);
    Grow(W[1], n + 1);
    Grow(T, (n + 1) * 2);
  }

  /** A itself, or a positive copy. */
  method Positive(A0: Mpi) returns (A: Mpi)
    ensures A == A0 || fresh(A)
    ensures A.Value() == A0.Abs()
  {
    hide Val;
    A := A0;
    if A.s == -1 {
      A := new Mpi();
      Mpis.Copy(A, A0);
      A.s := 1;
    }
  }

  /** |A|^e mod N, in a fresh number that starts as a copy of X. */
  method PlainPower(X: Mpi, A0: Mpi, e: seq<Limb>, N: Mpi, prec: Mpi?, wsize: nat) returns (W0: Mpi)
    requires 0 < wsize && OddModulus(N.Value()) && |N.p| > 0 && N.p[0] % 2 == 1 && prec != A0 && prec != N
    requires prec != null && |prec.p| > 0 ==>
               0 <= prec.Value() < N.Value() && Cong(prec.Value(), BPow(|N.p|) * BPow(|N.p|), N.Value())
    modifies prec
    ensures fresh(W0) && 0 <= W0.Value() < N.Value() && Cong(W0.Value(), Pow(A0.Abs(), Val(e)), N.Value())
    ensures prec != null ==> |prec.p| > 0 && 0 <= prec.Value() < N.Value()
                             && Cong(prec.Value(), BPow(|N.p|) * BPow(|N.p|), N.Value())
  {
    hide Val, BPow, Cong, Pow, NegInverse, IsMont, Setup, Ring.Form, Pow2;
    var nl := ToArray(N.p);
    assert nl[0] == N.p[0];
    var mm := MontmulInit(nl);
    ghost var ring := Ring(N.Abs(), |N.p|);
    RingOf(N, mm);
    var W, WW, T := Scratch(X, |N.p|, wsize);
    W0 := W[0];
    var W1 := W[1];
    ghost var a := A0.Abs();
    var A := Positive(A0);
    var RR := RadixSquare(N, prec);
    FormOfBase(W1, A, N, RR, mm, T, ring);
    FormOfUnit(W0, N, RR, mm, T, ring);
    Evaluate(W, WW, N, mm, T, wsize, e, ring, a);
  }

  lemma RingOf(N: Mpi, mm: Limb)
    requires OddModulus(N.Value()) && |N.p| > 0 && NegInverse(mm, N.p[0])
    ensures Setup(N.p, |N.p|, mm, Ring(N.Abs(), |N.p|)) && N.Value() == N.Abs() > 0
  {
    hide Val, NegInverse;
    assert N.p[..|N.p|] == N.p;
    SignsOfValues(N.s, N.Abs());
  }
}
