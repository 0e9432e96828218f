/** Fixed-window modular exponentiation over limb arrays (mbedtls_mpi_core_exp_mod). */
module CoreExp {
  import opened Arith
  import opened Words
  import opened Bits
  import opened MontForm
  import Core
  import opened Montgomery

  /** The window size for an exponent of the given bit length; cap is MBEDTLS_MPI_WINDOW_SIZE. */
  function WindowSize(eBits: nat, cap: nat): (w: nat)
    requires 1 <= cap
    ensures 1 <= w <= 6 && w <= cap
    ensures w >= 2 <==> eBits > 79 && cap >= 2
    ensures w >= 3 <==> eBits > 79 && cap >= 3
    ensures w >= 4 <==> eBits > 79 && cap >= 4
    ensures w >= 5 <==> eBits > 239 && cap >= 5
    ensures w >= 6 <==> eBits > 671 && cap >= 6
  {
    var w := if eBits > 671 then 6 else if eBits > 239 then 5 else if eBits > 79 then 4 else 1;
    if w > cap then cap else w
  }

  /** The modulus-dependent numbers every call works with: n limbs of the odd modulus nv. */
  datatype Ring = Ring(nv: nat, n: nat) {
    ghost predicate Valid() {
      nv > 0 && nv % 2 == 1
    }

    /** x is a reduced Montgomery form of a. */
    ghost predicate Form(x: nat, a: int) {
      x < nv && IsMont(x, a, BPow(n), nv)
    }

    lemma Product(res: nat, x: nat, y: nat, a: int, b: int)
      requires Valid() && res < nv && Form(x, a) && Form(y, b)
      requires Cong(res * BPow(n), x * y, nv)
      ensures Form(res, a * b)
    {
      hide Cong, BPow, RadixInverse, IsMont;
      RadixInvertible(nv, n);
      MontProduct(res, x, y, a, b, BPow(n), RadixInverse(nv, n), nv);
    }

    lemma Into(res: nat, x: nat, rr: nat)
      requires Valid() && res < nv && Cong(rr, BPow(n) * BPow(n), nv)
      requires Cong(res * BPow(n), x * rr, nv)
      ensures Form(res, x)
    {
      hide Cong, BPow, RadixInverse, IsMont;
      RadixInvertible(nv, n);
      IntoMont(res, x, rr, BPow(n), RadixInverse(nv, n), nv);
    }
  }

  ghost predicate Distinct(W: seq<array<Limb>>) {
    forall i, j :: 0 <= i < j < |W| ==> W[i] != W[j]
  }

  /** The scratch arrays of a call: distinct from each other and from what is only read. */
  ghost predicate Separate(W: seq<array<Limb>>, n: nat, others: set<array<Limb>>) {
    && Distinct(W)
    && forall i :: 0 <= i < |W| ==> n <= W[i].Length && W[i] !in others
  }

  /** The table holds the limb strings tab. */
  ghost predicate Holds(W: seq<array<Limb>>, n: nat, tab: seq<seq<Limb>>)
    reads W
  {
    && |tab| <= |W|
    && (forall i :: 0 <= i < |W| ==> n <= W[i].Length)
    && (forall i :: 0 <= i < |tab| ==> W[i][..n] == tab[i])
  }

  /** tab[i] is a form of a^i. */
  ghost predicate Powers(tab: seq<seq<Limb>>, ring: Ring, a: int) {
    forall i :: 0 <= i < |tab| ==> ring.Form(Val(tab[i]), Pow(a, i))
  }

  /** N holds the modulus of the ring in its first n limbs and mm is its negated inverse. */
  ghost predicate Setup(N: seq<Limb>, n: nat, mm: Limb, ring: Ring) {
    && 0 < n <= |N| && ring.n == n && ring.Valid()
    && Val(N[..n]) == ring.nv && NegInverse(mm, N[0])
  }

  method Mul(X: array<Limb>, A: array<Limb>, B: array<Limb>, N: array<Limb>, n: nat, mm: Limb, T: array<Limb>,
             ghost ring: Ring, ghost a: int, ghost b: int)
    requires Setup(N[..], n, mm, ring) && n <= X.Length && n <= A.Length && n <= B.Length
    requires 2 * n + 1 <= T.Length && T != X && T != A && T != B && T != N && X != N
    requires ring.Form(Val(A[..n]), a) && ring.Form(Val(B[..n]), b)
    modifies X, T
    ensures ring.Form(Val(X[..n]), a * b)
    ensures forall k :: n <= k < X.Length ==> X[k] == old(X[k])
  {
    hide Val, BPow, Cong, NegInverse, IsMont;
    ghost var x, y, ns := Val(A[..n]), Val(B[..n]), N[..];
    assert ns[..n] == N[..n];
    Montmul(X, A, B, n, N, n, mm, T);
    assert N[..n] == ns[..n];
    assert x * y == old(Val(A[..n])) * old(Val(B[..n]));
    ring.Product(Val(X[..n]), x, y, a, b);
  }

  method CopyLimbs(X: array<Limb>, A: array<Limb>, n: nat)
    requires n <= X.Length && n <= A.Length
    modifies X
    ensures X[..n] == old(A[..n])
    ensures forall k :: n <= k < X.Length ==> X[k] == old(X[k])
  {
    for i := 0 to n
      invariant forall k :: 0 <= k < X.Length ==> X[k] == if k < i then old(A[k]) else old(X[k])
    {
      X[i] := A[i];
    }
  }

  /** W[0] := the form of 1: set W[0] to the number 1 and multiply by R^2. */
  method FormOfOne(W0: array<Limb>, N: array<Limb>, n: nat, mm: Limb, RR: array<Limb>, T: array<Limb>, ghost ring: Ring)
    requires Setup(N[..], n, mm, ring) && n <= W0.Length && n <= RR.Length && 2 * n + 1 <= T.Length
    requires W0 != N && W0 != RR && T != W0 && T != N && T != RR
    requires Val(RR[..n]) < ring.nv && Cong(Val(RR[..n]), BPow(n) * BPow(n), ring.nv)
    modifies W0, T
    ensures ring.Form(Val(W0[..n]), 1)
  {
    hide BPow, Cong, NegInverse, IsMont;
    ghost var ns, rr := N[..], RR[..n];
    Clear(W0, n);
    W0[0] := 1;
    ValOne(W0[..n]);
    assert RR[..n] == rr && N[..] == ns && N[..n] == ns[..n];
    label before:
    Montmul(W0, W0, RR, n, N, n, mm, T);
    assert N[..n] == ns[..n];
    assert 1 * Val(rr) == old@before(Val(W0[..n])) * old@before(Val(RR[..n]));
    ring.Into(Val(W0[..n]), 1, Val(rr));
  }

  lemma ValOne(s: seq<Limb>)
    requires |s| > 0 && s[0] == 1 && forall k :: 1 <= k < |s| ==> s[k] == 0
    ensures Val(s) == 1
  {
    ValHead(s);
    ValZeros(s[1..]);
  }

  /** exp_mod_precompute_window: W[i] := form of a^i. */
  method PrecomputeWindow(A: array<Limb>, N: array<Limb>, n: nat, mm: Limb, RR: array<Limb>, welem: nat,
                          W: seq<array<Limb>>, T: array<Limb>, ghost ring: Ring, ghost a: int)
    returns (ghost tab: seq<seq<Limb>>)
    requires Setup(N[..], n, mm, ring) && n <= A.Length && n <= RR.Length && 2 * n + 1 <= T.Length
    requires 2 <= welem == |W| && Separate(W, n, {A, N, RR, T}) && T !in {A, N, RR}
    requires Val(RR[..n]) < ring.nv && Cong(Val(RR[..n]), BPow(n) * BPow(n), ring.nv)
    requires ring.Form(Val(A[..n]), a)
    modifies W, T
    ensures |tab| == welem && Holds(W, n, tab) && Powers(tab, ring, a)
  {
    hide Val, BPow, Cong, NegInverse, IsMont, Setup, Ring.Form, Pow;
    ghost var ns, av := N[..], A[..n];
    FormOfOne(W[0], N, n, mm, RR, T, ring);
    var w1 := W[1];
    assert A[..n] == av;
    CopyLimbs(w1, A, n);
    assert N[..] == ns;
    tab := [W[0][..n], av];
    FirstPowers(tab, ring, a);
    var prev := w1;
    for i := 2 to welem
      invariant N[..] == ns
      invariant prev == W[i - 1] && |tab| == i && Holds(W, n, tab) && Powers(tab, ring, a)
    {
      var cur := W[i];
      assert W[i - 1][..n] == tab[i - 1] && W[1][..n] == tab[1];
      Mul(cur, prev, w1, N, n, mm, T, ring, Pow(a, i - 1), Pow(a, 1));
      assert N[..] == ns;
      NextPower(tab, cur[..n], ring, a);
      tab := tab + [cur[..n]];
      prev := cur;
    }
  }

  lemma FirstPowers(tab: seq<seq<Limb>>, ring: Ring, a: int)
    requires |tab| == 2 && ring.Form(Val(tab[0]), 1) && ring.Form(Val(tab[1]), a)
    ensures Powers(tab, ring, a)
  {
    assert Pow(a, 0) == 1 && Pow(a, 1) == a * Pow(a, 0) == a;
  }

  lemma NextPower(tab: seq<seq<Limb>>, x: seq<Limb>, ring: Ring, a: int)
    requires |tab| >= 2 && Powers(tab, ring, a)
    requires ring.Form(Val(x), Pow(a, |tab| - 1) * Pow(a, 1))
    ensures Powers(tab + [x], ring, a)
  {
    PowAdd(a, |tab| - 1, 1);
  }

  // ---- The window loop ----------------------------------------------------

  /** mbedtls_mpi_core_ct_uint_table_lookup: dest := W[index], reading every entry. */
  method TableLookup(dest: array<Limb>, W: seq<array<Limb>>, n: nat, index: nat, ghost tab: seq<seq<Limb>>)
    requires n <= dest.Length && dest !in W && index < |W| == |tab| && Holds(W, n, tab)
    modifies dest
    ensures dest[..n] == tab[index]
  {
    for i := 0 to |W|
      invariant Holds(W, n, tab)
      invariant index < i ==> dest[..n] == tab[index]
    {
      assert W[i][..n] == tab[i];
      Core.CondAssign(dest, W[i], 0, n, i == index);
      assert W[i][0..0 + n] == W[i][..n];
    }
  }

  /** Reading the next bit: the prefix of the exponent and the window double and take the bit in. */
  lemma ScanBit(E: seq<Limb>, pos: nat, li: nat, bi: nat, window: nat, wbits: nat)
    requires li < |E| && bi < 32 && pos == 32 * li + bi
    requires window <= Val(E) / Pow2(pos + 1) && window < Pow2(wbits)
    ensures var w := 2 * window + Bit(E[li], bi);
            && Val(E) / Pow2(pos) - w == 2 * (Val(E) / Pow2(pos + 1) - window)
            && w <= Val(E) / Pow2(pos) && w < Pow2(wbits + 1)
  {
    hide Pow2, Val;
    PrefixStep(Val(E), pos);
    LimbBit(E, li, bi);
    Pow2Step(wbits);
  }

  lemma PowProduct(a: int, e: nat, f: nat, g: nat)
    requires e + f == g
    ensures Pow(a, e) * Pow(a, f) == Pow(a, g)
  {
    PowAdd(a, e, f);
  }

  /** X := A^E in Montgomery form. X may be A. The scratch pool is allocated here. */
  method ExpMod(X: array<Limb>, A: array<Limb>, N: array<Limb>, n: nat, E: array<Limb>, eLimbs: nat,
                RR: array<Limb>, cap: nat, ghost ring: Ring, ghost a: int)
    requires 0 < n <= N.Length && n <= X.Length && n <= A.Length && 0 < eLimbs <= E.Length && n <= RR.Length && 1 <= cap
    requires ring.n == n && ring.nv == Val(N[..n]) && ring.Valid()
    requires X != N && X != E && X != RR
    requires Val(RR[..n]) < ring.nv && Cong(Val(RR[..n]), BPow(n) * BPow(n), ring.nv)
    requires ring.Form(Val(A[..n]), a)
    modifies X
    ensures ring.Form(Val(X[..n]), Pow(a, Val(E[..eLimbs])))
    ensures forall k :: n <= k < X.Length ==> X[k] == old(X[k])
  {
    hide Val, BPow, Cong, NegInverse, IsMont, Ring.Form, Pow;
    var wsize := WindowSize(32 * eLimbs, cap);
    var welem := Pow2(wsize);
    WindowElems(wsize);
    var W := AllocateTable(n, welem, {X, A, N, E, RR});
    var select, T := new Limb[n], new Limb[2 * n + 1];
    OddLow(N[..n]);
    assert N[..n][0] == N[0];
    var mm := MontmulInit(N);
    ghost var ns, es := N[..], E[..eLimbs];
    assert ns[..n] == N[..n];
    ghost var tab := PrecomputeWindow(A, N, n, mm, RR, welem, W, T, ring, a);
    var w0 := W[0];
    CopyLimbs(X, w0, n);
    assert E[..eLimbs] == es && N[..] == ns && W[0][..n] == tab[0];
    ProcessBits(X, N, n, mm, E, eLimbs, W, select, T, wsize, ring, a, tab);
    assert E[..eLimbs] == es;
  }

  /** The scan over the bits of E, most significant first; X starts as the form of 1. */
  method ProcessBits(X: array<Limb>, N: array<Limb>, n: nat, mm: Limb, E: array<Limb>, eLimbs: nat,
                     W: seq<array<Limb>>, select: array<Limb>, T: array<Limb>, wsize: nat,
                     ghost ring: Ring, ghost a: int, ghost tab: seq<seq<Limb>>)
    requires Setup(N[..], n, mm, ring) && n <= X.Length && n <= select.Length && 2 * n + 1 <= T.Length
    requires 0 < eLimbs <= E.Length && 0 < wsize
    requires X !in {N, E, select, T} && select !in {N, E, T} && T !in {N, E}
    requires Separate(W, n, {X, N, E, select, T})
    requires |tab| == |W| == Pow2(wsize) && Holds(W, n, tab) && Powers(tab, ring, a)
    requires X[..n] == tab[0]
    modifies X, select, T
    ensures ring.Form(Val(X[..n]), Pow(a, Val(E[..eLimbs])))
    ensures forall k :: n <= k < X.Length ==> X[k] == old(X[k])
  {
    hide Val, BPow, Cong, NegInverse, IsMont, Ring.Form, Pow, Setup, Powers, Bit, AtExponent, Pow2;
    ghost var ns, es := N[..], E[..eLimbs];
    ghost var ev := Val(es);
    var li, bi, wbits, window := eLimbs, 0, 0, 0;
    StartScan(es, tab, ring, a);
    while !(bi == 0 && li == 0)
      invariant N[..] == ns && E[..eLimbs] == es && Holds(W, n, tab)
      invariant forall k :: n <= k < X.Length ==> X[k] == old(X[k])
      invariant 0 <= li <= eLimbs && 0 <= bi < 32 && (li == eLimbs ==> bi == 0)
      invariant 0 <= wbits < wsize && 0 <= window < Pow2(wbits)
      invariant li == 0 && bi == 0 ==> window == 0
      invariant AtExponent(X[..n], ring, a, ev, 32 * li + bi, window)
      decreases 32 * li + bi
    {
      ghost var pos := 32 * li + bi - 1;
      ghost var e := ExponentOf(X[..n], ring, a, ev, pos + 1, window);
      Mul(X, X, X, N, n, mm, T, ring, Pow(a, e), Pow(a, e));
      if bi == 0 {
        li := li - 1;
        bi := 31;
      } else {
        bi := bi - 1;
      }
      SquaredAndRead(X[..n], es, ring, a, e, pos, li, bi, window, wbits);
      assert es[li] == E[li];
      wbits := wbits + 1;
      window := 2 * window + Bit(E[li], bi);
      if wbits == wsize || (bi == 0 && li == 0) {
        Pow2Monotone(wbits, wsize);
        TableLookup(select, W, n, window, tab);
        Entry(tab, ring, a, window);
        e := ExponentOf(X[..n], ring, a, ev, pos, window);
        Mul(X, X, select, N, n, mm, T, ring, Pow(a, e), Pow(a, window));
        WindowClosed(X[..n], ring, a, ev, pos, e, window);
        window := 0;
        wbits := 0;
      }
    }
    Finished(X[..n], ring, a, ev);
  }

  /** x is a form of a^(H - window), where H = ev >> pos is the part of the exponent read so far. */
  ghost predicate AtExponent(x: seq<Limb>, ring: Ring, a: int, ev: nat, pos: nat, window: nat) {
    && window <= ev / Pow2(pos)
    && ring.Form(Val(x), Pow(a, ev / Pow2(pos) - window))
  }

  lemma StartScan(es: seq<Limb>, tab: seq<seq<Limb>>, ring: Ring, a: int)
    requires tab != [] && Powers(tab, ring, a)
    ensures AtExponent(tab[0], ring, a, Val(es), 32 * |es|, 0)
  {
    hide Pow2, Val, IsMont, Ring.Form, Pow;
    ValBound(es);
    BPowBits(|es|);
    PrefixEmpty(Val(es), 32 * |es|);
  }

  lemma ExponentOf(x: seq<Limb>, ring: Ring, a: int, ev: nat, pos: nat, window: nat) returns (e: nat)
    requires AtExponent(x, ring, a, ev, pos, window)
    ensures e == ev / Pow2(pos) - window && ring.Form(Val(x), Pow(a, e))
  {
    e := ev / Pow2(pos) - window;
  }

  lemma SquaredAndRead(x: seq<Limb>, es: seq<Limb>, ring: Ring, a: int, e: nat, pos: nat, li: nat, bi: nat,
                       window: nat, wbits: nat)
    requires li < |es| && bi < 32 && pos == 32 * li + bi && window < Pow2(wbits)
    requires e == Val(es) / Pow2(pos + 1) - window
    requires ring.Form(Val(x), Pow(a, e) * Pow(a, e))
    ensures 2 * window + Bit(es[li], bi) < Pow2(wbits + 1)
    ensures AtExponent(x, ring, a, Val(es), pos, 2 * window + Bit(es[li], bi))
  {
    hide Ring.Form, Pow, Val, Pow2;
    ScanBit(es, pos, li, bi, window, wbits);
    PowProduct(a, e, e, 2 * e);
  }

  lemma Entry(tab: seq<seq<Limb>>, ring: Ring, a: int, i: nat)
    requires i < |tab| && Powers(tab, ring, a)
    ensures ring.Form(Val(tab[i]), Pow(a, i))
  {
  }

  lemma WindowClosed(x: seq<Limb>, ring: Ring, a: int, ev: nat, pos: nat, e: nat, window: nat)
    requires e == ev / Pow2(pos) - window && ring.Form(Val(x), Pow(a, e) * Pow(a, window))
    ensures AtExponent(x, ring, a, ev, pos, 0)
  {
    hide Ring.Form, Pow, Val, Pow2;
    PowProduct(a, e, window, e + window);
  }

  lemma Finished(x: seq<Limb>, ring: Ring, a: int, ev: nat)
    requires AtExponent(x, ring, a, ev, 0, 0)
    ensures ring.Form(Val(x), Pow(a, ev))
  {
    hide Ring.Form, Pow, Val;
    assert Pow2(0) == 1;
  }

  lemma WindowElems(w: nat)
    requires 1 <= w
    ensures Pow2(w) >= 2
  {
    Pow2Monotone(1, w);
    assert Pow2(1) == 2;
  }

  lemma OddLow(s: seq<Limb>)
    requires s != [] && Val(s) % 2 == 1
    ensures s[0] % 2 == 1
  {
    ValHead(s);
  }

  method AllocateTable(n: nat, welem: nat, ghost others: set<array<Limb>>) returns (W: seq<array<Limb>>)
    ensures |W| == welem && Separate(W, n, others)
    ensures forall i :: 0 <= i < |W| ==> fresh(W[i])
  {
    W := [];
    while |W| < welem
      invariant |W| <= welem && Separate(W, n, others)
      invariant forall i :: 0 <= i < |W| ==> fresh(W[i])
    {
      var w := new Limb[n];
      W := W + [w];
    }
  }
}
