/** Montgomery multiplication (mbedtls_mpi_core_montmul_init, mbedtls_mpi_core_montmul). */
module Montgomery {
  import opened Arith
  import opened Words
  import Core
  import opened MulAdd

  // ---- -1/N modulo BETA ---------------------------------------------------

  /** n * x == 1 modulo 2^k. */
  ghost predicate InverseBits(n: int, x: int, k: nat) {
    Cong(n * x, 1, Pow2(k))
  }

  lemma NewtonIdentity(n: int, x: int, e: int)
    requires n * x == 1 + e
    ensures n * (x * (2 - n * x)) == 1 + (-e) * e
  {
    assert n * (x * (2 - n * x)) == (n * x) * (2 - n * x);
    assert (1 + e) * (1 - e) == 1 + (-e) * e;
  }

  lemma SquareMultiple(e: int, t: int, p: int)
    requires e == t * p
    ensures (-e) * e == (-(t * t)) * (p * p)
  {
    assert (-e) * e == -((t * p) * (t * p));
  }

  /** One Newton step doubles the number of correct bits. */
  lemma NewtonStep(n: int, x: int, k: nat)
    requires InverseBits(n, x, k)
    ensures InverseBits(n, x * (2 - n * x), 2 * k)
  {
    var t := CongWitness(n * x, 1, Pow2(k));
    var e := t * Pow2(k);
    NewtonIdentity(n, x, e);
    SquareMultiple(e, t, Pow2(k));
    Pow2Add(k, k);
    CongIntro(n * (x * (2 - n * x)), 1, Pow2(2 * k), -(t * t));
  }

  /** Truncating to a limb keeps the correct bits, as long as there are at most 32 of them. */
  lemma TruncateInverse(n: int, y: int, k: nat)
    requires k <= 32 && InverseBits(n, y, k)
    ensures InverseBits(n, y % BETA, k)
  {
    hide InverseBits, Cong;
    Pow2Limb();
    Pow2Add(k, 32 - k);
    var q := y / BETA;
    assert y % BETA == y + (-q * Pow2(32 - k)) * Pow2(k) by {
      TruncateProduct(q, Pow2(k), Pow2(32 - k));
    }
    CongIntro(y % BETA, y, Pow2(k), -q * Pow2(32 - k));
    CongScale(y % BETA, y, n, Pow2(k));
    assert InverseBits(n, y % BETA, k) by {
      InverseTransfer(n, y, y % BETA, k);
    }
  }

  lemma TruncateProduct(q: int, a: int, b: int)
    requires a * b == BETA
    ensures (-q * b) * a == -(BETA * q)
  {
    assert (-q * b) * a == -q * (a * b);
  }

  lemma InverseTransfer(n: int, y: int, z: int, k: nat)
    requires InverseBits(n, y, k)
    requires Cong(n * z, n * y, Pow2(k))
    ensures InverseBits(n, z, k)
  {
    CongTrans(n * z, n * y, 1, Pow2(k));
  }

  /** 8 when bit 2 of n + 2 is set: ((n + 2) & 4) << 1. */
  function StartFix(n: int): int {
    if (n + 2) / 4 % 2 == 1 then 8 else 0
  }

  lemma StartResidue(r: int) returns (k: int)
    requires 0 <= r < 16 && r % 2 == 1
    ensures r * (r + StartFix(r)) == 1 + 16 * k
  {
    k := if r == 1 then 0 else if r == 3 then 2 else if r == 5 then 4 else if r == 7 then 3
         else if r == 9 then 5 else if r == 11 then 13 else if r == 13 then 17 else 14;
  }

  lemma StartFixPeriod(q: int, r: int)
    ensures StartFix(16 * q + r) == StartFix(r)
  {
    var m := (r + 2) / 4;
    DivUnique(16 * q + r + 2, 4, 4 * q + m, (r + 2) % 4);
    DivUnique(4 * q + m, 2, 2 * q + m / 2, m % 2);
  }

  /** The starting value n + (((n + 2) & 4) << 1) is right modulo 16 for every odd n. */
  lemma NewtonStart(n: Limb)
    requires n % 2 == 1
    ensures InverseBits(n, (n + StartFix(n)) % BETA, 4)
  {
    hide InverseBits, Cong, StartFix;
    var r: int, q: int := n % 16, n / 16;
    var k := StartResidue(r);
    StartFixPeriod(q, r);
    StartProduct(q, r, StartFix(r), k);
    StartBits(n, n + StartFix(n), q * (16 * q + r + StartFix(r)) + r * q + k);
    TruncateInverse(n, n + StartFix(n), 4);
  }

  lemma StartBits(n: int, x: int, m: int)
    requires n * x == 1 + m * 16
    ensures InverseBits(n, x, 4)
  {
    Pow2Limb();
    CongIntro(n * x, 1, 16, m);
  }

  lemma StartProduct(q: int, r: int, b: int, k: int)
    requires r * (r + b) == 1 + 16 * k
    ensures (16 * q + r) * (16 * q + r + b) == 1 + (q * (16 * q + r + b) + r * q + k) * 16
  {
    assert (16 * q + r) * (16 * q + r + b) == 16 * (q * (16 * q + r + b)) + 16 * (r * q) + r * (r + b);
  }

  /** mm * n == -1 modulo BETA. */
  ghost predicate NegInverse(mm: int, n: int) {
    mm * n % BETA == BETA - 1
  }

  method MontmulInit(N: array<Limb>) returns (mm: Limb)
    requires N.Length > 0 && N[0] % 2 == 1
    ensures NegInverse(mm, N[0])
  {
    var n: int := N[0];
    NewtonStart(n);
    var x: int := (n + StartFix(n)) % BETA;
    var i, k := 32, 4; // i counts down as in the source; k is the number of correct bits
    while i >= 8
      invariant (i, k) in {(32, 4), (16, 8), (8, 16), (4, 32)}
      invariant 0 <= x < BETA && InverseBits(n, x, k)
      decreases i
    {
      NewtonStep(n, x, k);
      TruncateInverse(n, x * (2 - n * x), 2 * k);
      x := x * (2 - n * x) % BETA;
      i, k := i / 2, 2 * k;
    }
    mm := (BETA - 1 - x + 1) % BETA;
    NegatedInverse(n, x, mm);
  }

  lemma NegatedInverse(n: int, x: int, mm: int)
    requires 0 <= x < BETA && InverseBits(n, x, 32)
    requires mm == (BETA - x) % BETA
    ensures NegInverse(mm, n)
  {
    Pow2Limb();
    var t := CongWitness(n * x, 1, BETA);
    if x == 0 {
      assert false;
    }
    assert mm == BETA - x;
    assert mm * n == (n - t - 1) * BETA + (BETA - 1) by {
      assert (BETA - x) * n == BETA * n - n * x;
    }
    DivUnique(mm * n, BETA, n - t - 1, BETA - 1);
  }

  // ---- The product ---------------------------------------------------------

  /** The multiple u1 of N added in a round: (T[0] + u0 * B[0]) * mm, truncated to a limb. */
  function RoundDigit(t0: int, u0: int, b0: int, mm: int): Limb {
    (t0 + u0 * b0) % BETA * mm % BETA
  }

  ghost predicate RoundSum(total: int, t: int, u0: int, b: int, u1: int, n: int) {
    total == t + u0 * b + u1 * n
  }

  /** Adding u1 * N makes the lowest limb zero. */
  lemma MontDigit(v: int, mm: int, n0: int, u1: int)
    requires NegInverse(mm, n0)
    requires u1 == v * mm % BETA
    ensures (v + u1 * n0) % BETA == 0
  {
    var q, r := v * mm / BETA, mm * n0 / BETA;
    assert v * mm == q * BETA + u1 && mm * n0 == r * BETA + (BETA - 1);
    assert u1 * n0 == v * (mm * n0) - q * BETA * n0 by {
      assert (v * mm) * n0 == v * (mm * n0);
      assert (v * mm) * n0 == (q * BETA + u1) * n0;
    }
    assert v + u1 * n0 == (v * r + v - q * n0) * BETA + 0 by {
      assert v * (mm * n0) == v * (r * BETA + (BETA - 1));
    }
    DivUnique(v + u1 * n0, BETA, v * r + v - q * n0, 0);
  }

  lemma LowLimbSum(t0: int, th: int, u0: int, b0: int, bh: int, u1: int, n0: int, nh: int, w: int, v: int, z: int)
    requires t0 + u0 * b0 == BETA * w + v && v + u1 * n0 == BETA * z
    ensures (t0 + BETA * th) + u0 * (b0 + BETA * bh) + u1 * (n0 + BETA * nh)
            == (th + u0 * bh + u1 * nh + w + z) * BETA
  {
    assert u0 * (b0 + BETA * bh) == u0 * b0 + BETA * (u0 * bh);
    assert u1 * (n0 + BETA * nh) == u1 * n0 + BETA * (u1 * nh);
  }

  lemma LowLimb(t: int, t0: int, th: int, u0: int, b: int, b0: int, bh: int,
                u1: int, n: int, n0: int, nh: int, mm: int, total: int)
    requires t == t0 + BETA * th && b == b0 + BETA * bh && n == n0 + BETA * nh
    requires NegInverse(mm, n0) && u1 == RoundDigit(t0, u0, b0, mm) && RoundSum(total, t, u0, b, u1, n)
    ensures total % BETA == 0
  {
    var v, w := (t0 + u0 * b0) % BETA, (t0 + u0 * b0) / BETA;
    MontDigit(v, mm, n0, u1);
    var z := (v + u1 * n0) / BETA;
    LowLimbSum(t0, th, u0, b0, bh, u1, n0, nh, w, v, z);
    DivUnique(total, BETA, th + u0 * bh + u1 * nh + w + z, 0);
  }

  lemma NoCarryOut(v': nat, c: Limb, p: nat, v: int, b: int, s: int)
    requires MulAddEq(v', c, p, v, b, s) && v + b * s < p
    ensures v' == v + b * s
  {
    if c >= 1 {
      MulMono(1, c, p);
    }
  }

  /** The two multiply-accumulates of a round lose no carry, because the sum stays below BETA * 2N. */
  lemma RoundTotals(v1: nat, c1: Limb, v2: nat, c2: Limb, t: int, u0: Limb, b: int, u1: Limb, n: int, p: int, q: int)
    requires 0 <= t < 2 * n && 0 <= b <= n < p && q == BETA * (BETA * p)
    requires MulAddEq(v1, c1, q, t, u0, b) && MulAddEq(v2, c2, q, v1, u1, n)
    ensures RoundSum(v2, t, u0, b, u1, n) && v2 < BETA * (2 * n)
  {
    MulMono(u0, BETA - 1, b);
    MulMono(u1, BETA - 1, n);
    MulPos(u1, n);
    MulPos(u0, b);
    assert t + u0 * b + u1 * n < BETA * (2 * n) <= q;
    NoCarryOut(v1, c1, q, t, u0, b);
    NoCarryOut(v2, c2, q, v1, u1, n);
  }

  /** T * BETA^i == A[..i] * B + m * N: what the rounds so far have computed, exactly. */
  ghost predicate RoundsExact(t: int, p: int, a: int, b: int, m: int, n: int) {
    t * p == a * b + m * n
  }

  lemma RoundExact(total: int, t: int, t': int, u0: int, b: int, u1: int, n: int, a: int, m: int, p: int)
    requires total == BETA * t' && RoundSum(total, t, u0, b, u1, n)
    requires RoundsExact(t, p, a, b, m, n)
    ensures RoundsExact(t', BETA * p, a + u0 * p, b, m + u1 * p, n)
  {
    assert t' * (BETA * p) == (BETA * t') * p;
    assert (t + u0 * b + u1 * n) * p == t * p + (u0 * p) * b + (u1 * p) * n;
    assert (a + u0 * p) * b == a * b + (u0 * p) * b;
    assert (m + u1 * p) * n == m * n + (u1 * p) * n;
  }

  /** One round: T[i..] := (T[i..] + u0 * B + u1 * N), whose lowest limb becomes zero; the caller moves on to i + 1. */
  method Round(T: array<Limb>, i: nat, B: array<Limb>, bLimbs: nat, N: array<Limb>, n: nat, mm: Limb, u0: Limb)
    returns (ghost u1: Limb)
    requires i < n <= N.Length && 0 < bLimbs <= B.Length && 2 * n + 1 <= T.Length && T != B && T != N
    requires NegInverse(mm, N[0]) && Val(B[..bLimbs]) <= Val(N[..n])
    requires Val(T[i..i + n + 1]) < 2 * Val(N[..n])
    requires forall k :: i + n + 1 <= k < 2 * n + 1 ==> T[k] == 0
    modifies T
    ensures forall k :: i + n + 2 <= k < 2 * n + 1 ==> T[k] == 0
    ensures RoundSum(BETA * Val(T[i + 1..i + n + 2]), old(Val(T[i..i + n + 1])), u0, Val(B[..bLimbs]), u1, Val(N[..n]))
    ensures Val(T[i + 1..i + n + 2]) < 2 * Val(N[..n])
  {
    hide Val, BPow, NegInverse, RoundDigit, RoundSum, MulAddEq;
    ghost var w0, b, nv := T[i..i + n + 2], Val(B[..bLimbs]), Val(N[..n]);
    WindowValue(w0, n);
    assert w0[..n + 1] == T[i..i + n + 1] && w0[0] == T[i];
    var digit := RoundDigit(T[i], u0, B[0], mm);
    u1 := digit;
    var c := Mla(T, i, n + 2, B, bLimbs, u0);
    ghost var v1, c1 := Val(T[i..i + n + 2]), c;
    c := Mla(T, i, n + 2, N, n, digit);
    ghost var w2 := T[i..i + n + 2];
    OperandTrimmed(B[..bLimbs], N[..n]);
    assert B[..bLimbs][..Min(bLimbs, n + 2)] == B[..Min(bLimbs, n + 2)];
    ValBound(N[..n]);
    BPowTwo(n);
    RoundTotals(v1, c1, Val(w2), c, Val(w0), u0, b, u1, nv, BPow(n), BPow(n + 2));
    ValHead(w0);
    ValHead(B[..bLimbs]);
    ValHead(N[..n]);
    ValHead(w2);
    LowLimb(Val(w0), w0[0], Val(w0[1..]), u0, b, B[0], Val(B[..bLimbs][1..]),
            u1, nv, N[0], Val(N[..n][1..]), mm, Val(w2));
    ZeroLowLimb(Val(w2), w2[0], Val(w2[1..]));
    assert w2[1..] == T[i + 1..i + n + 2];
  }

  lemma ZeroLowLimb(v: int, lo: Limb, hi: int)
    requires v == lo + BETA * hi && v % BETA == 0
    ensures lo == 0 && v == BETA * hi
  {
  }

  lemma BPowTwo(n: nat)
    ensures BPow(n + 2) == BETA * (BETA * BPow(n))
  {
    assert BPow(n + 2) == BETA * BPow(n + 1);
  }

  /** The window grows by the zero limb above it. */
  lemma WindowValue(w: seq<Limb>, n: nat)
    requires |w| == n + 2 && w[n + 1] == 0
    ensures Val(w) == Val(w[..n + 1])
  {
    ValTrim(w, n + 1);
  }

  /** An operand not above N loses nothing when it is cut to the window. */
  lemma OperandTrimmed(b: seq<Limb>, n: seq<Limb>)
    requires Val(b) <= Val(n)
    ensures Val(b[..Min(|b|, |n| + 2)]) == Val(b)
  {
    if |b| <= |n| + 2 {
      assert b[..|b|] == b;
    } else {
      ValBound(n);
      BPowMonotone(|n|, |n| + 2);
      ValHighZero(b, |n| + 2);
    }
  }

  /** The final subtraction: which of T and T - N the flags select, and that carry without borrow cannot happen. */
  lemma FinalSubtraction(t: int, low: int, carry: int, x: int, borrow: int, n: int, r: int)
    requires 0 <= t == low + carry * r < 2 * n && 0 <= low < r && 0 <= carry && 0 < n < r
    requires 0 <= x < r && 0 <= borrow <= 1 && x - borrow * r == low - n
    ensures carry <= 1 && !(carry == 1 && borrow == 0)
    ensures if carry != borrow then t == low < n else t == x + n && x < n
  {
    if carry >= 2 {
      MulMono(2, carry, r);
    }
  }

  lemma ResultCong(res: int, t: int, r: int, a: int, b: int, m: int, n: int)
    requires RoundsExact(t, r, a, b, m, n)
    requires t == res || t == res + n
    ensures Cong(res * r, a * b, n)
  {
    if t == res {
      CongIntro(res * r, a * b, n, m);
    } else {
      assert (res + n) * r == res * r + r * n && (m - r) * n == m * n - r * n;
      CongIntro(res * r, a * b, n, m - r);
    }
  }

  lemma PositiveModulus(mm: int, N: seq<Limb>)
    requires N != [] && NegInverse(mm, N[0])
    ensures Val(N) > 0
  {
    ValHead(N);
  }

  /** X := A * B / R mod N with R = BETA^n. X may be A, B or N; T is scratch. Only B, not A, has to be at most N. */
  method Montmul(X: array<Limb>, A: array<Limb>, B: array<Limb>, bLimbs: nat, N: array<Limb>, n: nat, mm: Limb,
                 T: array<Limb>)
    requires 0 < n <= N.Length && n <= X.Length && n <= A.Length && 0 < bLimbs <= B.Length && 2 * n + 1 <= T.Length
    requires T != X && T != A && T != B && T != N
    requires NegInverse(mm, N[0]) && Val(B[..bLimbs]) <= Val(N[..n])
    modifies X, T
    ensures Val(X[..n]) < old(Val(N[..n]))
    ensures Cong(Val(X[..n]) * BPow(n), old(Val(A[..n])) * old(Val(B[..bLimbs])), old(Val(N[..n])))
    ensures forall k :: n <= k < X.Length ==> X[k] == old(X[k])
  {
    hide Val, BPow, NegInverse, RoundsExact, Cong, RoundSum;
    ghost var x0, a, bs, ns, m := X[..], A[..], B[..bLimbs], N[..n], 0;
    ghost var b, nv := Val(bs), Val(ns);
    assert ns[0] == N[0];
    PositiveModulus(mm, ns);
    Clear(T, 2 * n + 1);
    StartValues(T[0..n + 1], a, b, nv);
    for i := 0 to n
      invariant A[..] == a && B[..bLimbs] == bs && N[..n] == ns && X[..] == x0
      invariant forall k :: i + n + 1 <= k < 2 * n + 1 ==> T[k] == 0
      invariant Val(T[i..i + n + 1]) < 2 * nv
      invariant RoundsExact(Val(T[i..i + n + 1]), BPow(i), Val(a[..i]), b, m, nv)
    {
      ghost var t := Val(T[i..i + n + 1]);
      var u0 := A[i];
      ghost var u1 := Round(T, i, B, bLimbs, N, n, mm, u0);
      m := NextRound(t, Val(T[i + 1..i + n + 2]), u0, b, u1, nv, a, m, i);
    }
    assert a[..n] == old(A[..n]);
    Reduce(X, T, N, n, a[..n], b, m);
    assert ns == old(N[..n]);
    assert Val(a[..n]) * b == old(Val(A[..n])) * old(Val(B[..bLimbs]));
  }

  method Clear(T: array<Limb>, n: nat)
    requires n <= T.Length
    modifies T
    ensures forall k :: 0 <= k < n ==> T[k] == 0
  {
    for k := 0 to n
      invariant forall l :: 0 <= l < k ==> T[l] == 0
    {
      T[k] := 0;
    }
  }

  lemma StartValues(w: seq<Limb>, a: seq<Limb>, b: int, nv: int)
    requires forall k :: 0 <= k < |w| ==> w[k] == 0
    ensures Val(w) == 0 && RoundsExact(Val(w), BPow(0), Val(a[..0]), b, 0, nv)
  {
    ValZeros(w);
  }

  lemma NextRound(t: int, t': int, u0: Limb, b: int, u1: Limb, nv: int, a: seq<Limb>, m: int, i: nat) returns (m': int)
    requires i < |a| && u0 == a[i]
    requires RoundSum(BETA * t', t, u0, b, u1, nv) && RoundsExact(t, BPow(i), Val(a[..i]), b, m, nv)
    ensures RoundsExact(t', BPow(i + 1), Val(a[..i + 1]), b, m', nv)
  {
    RoundExact(BETA * t', t, t', u0, b, u1, nv, Val(a[..i]), m, BPow(i));
    ValStep(a, i);
    m' := m + u1 * BPow(i);
  }

  method Reduce(X: array<Limb>, T: array<Limb>, N: array<Limb>, n: nat, ghost a: seq<Limb>, ghost b: int, ghost m: int)
    requires 0 < n <= N.Length && n <= X.Length && 2 * n + 1 <= T.Length && T != X && T != N
    requires 0 < Val(N[..n]) && Val(T[n..2 * n + 1]) < 2 * Val(N[..n])
    requires RoundsExact(Val(T[n..2 * n + 1]), BPow(n), Val(a), b, m, Val(N[..n]))
    modifies X
    ensures Val(X[..n]) < old(Val(N[..n]))
    ensures Cong(Val(X[..n]) * BPow(n), Val(a) * b, old(Val(N[..n])))
    ensures forall k :: n <= k < X.Length ==> X[k] == old(X[k])
  {
    hide Val, BPow, RoundsExact, Cong;
    ghost var w, low, ns := T[n..2 * n + 1], T[n..2 * n], N[..n];
    var carry := T[2 * n];
    var borrow := Core.Sub(X, T, n, N, n);
    assert T[n..n + n] == low && w[..n] == low;
    ValStep(w, n);
    assert w[..n + 1] == w;
    ValBound(low);
    ValBound(X[..n]);
    ValBound(ns);
    FinalSubtraction(Val(w), Val(low), carry, Val(X[..n]), borrow, Val(ns), BPow(n));
    Core.CondAssign(X, T, n, n, carry != borrow);
    ResultCong(Val(X[..n]), Val(w), BPow(n), Val(a), b, m, Val(ns));
  }
}
