/** Shifts and low bits of an mpi (mbedtls_mpi_shift_l, _shift_r, _lsb, _get_bit, _bitlen). */
module MpiShift {
  import opened Arith
  import opened Words
  import opened Bits
  import opened CoreBits
  import opened Mpis
  import MpiAddSub

  method BitlenMpi(X: Mpi) returns (b: nat)
    ensures b == BitLength(X.Abs())
  {
    b := Bitlen(X.p);
  }

  method GetBit(X: Mpi, pos: nat) returns (b: nat)
    ensures b == Bit(X.Abs(), pos)
  {
    hide Val, BPow, Pow2;
    if |X.p| * 32 <= pos {
      ValBound(X.p);
      BPowBits(|X.p|);
      Pow2Monotone(32 * |X.p|, pos);
      PrefixEmpty(Val(X.p), pos);
      return 0;
    }
    LimbBit(X.p, pos / 32, pos % 32);
    b := Bit(X.p[pos / 32], pos % 32);
  }

  /** v has exactly k trailing zero bits. */
  ghost predicate LowestBit(v: nat, k: nat) {
    v % Pow2(k) == 0 && Bit(v, k) == 1
  }

  lemma OneMoreZero(v: nat, k: nat)
    requires v % Pow2(k) == 0 && Bit(v, k) == 0
    ensures v % Pow2(k + 1) == 0
  {
    hide Pow2;
    var q := v / Pow2(k);
    assert Pow2(k + 1) == 2 * Pow2(k) by { Pow2Step(k); }
    TwiceMultiple(v, Pow2(k), q);
  }

  lemma TwiceMultiple(v: int, p: int, q: int)
    requires p > 0 && v == p * q && q % 2 == 0
    ensures v % (2 * p) == 0
  {
    var h := q / 2;
    assert q == 2 * h;
    assert p * (2 * h) == h * (2 * p) + 0;
    DivUnique(v, 2 * p, h, 0);
  }

  lemma AllBitsZero(p: seq<Limb>)
    requires Val(p) % Pow2(32 * |p|) == 0
    ensures Val(p) == 0
  {
    ValBound(p);
    BPowBits(|p|);
    DivUnique(Val(p), Pow2(32 * |p|), 0, Val(p));
  }

  /** mbedtls_mpi_lsb: the number of trailing zero bits, 0 for the number 0. */
  method Lsb(X: Mpi) returns (count: nat)
    ensures if X.Abs() == 0 then count == 0 else LowestBit(X.Abs(), count)
  {
    hide Val, Pow2, Bit;
    count := 0;
    assert Val(X.p) % Pow2(0) == 0 by { Pow2Zero(); }
    for i := 0 to |X.p|
      invariant count == 32 * i && Val(X.p) % Pow2(count) == 0
    {
      for j := 0 to 32
        invariant count == 32 * i + j && Val(X.p) % Pow2(count) == 0
      {
        LimbBit(X.p, i, j);
        if Bit(X.p[i], j) != 0 {
          NonZero(Val(X.p), count);
          return;
        }
        OneMoreZero(Val(X.p), count);
        count := count + 1;
      }
    }
    AllBitsZero(X.p);
    count := 0;
  }

  lemma NonZero(v: nat, k: nat)
    requires Bit(v, k) == 1
    ensures v > 0
  {
    if v == 0 {
      DivUnique(0, Pow2(k), 0, 0);
    }
  }

  /** X >>= count, on the absolute value. */
  method ShiftRMpi(X: Mpi, count: nat)
    modifies X
    ensures X.s == old(X.s) && |X.p| == |old(X.p)|
    ensures X.Abs() == old(X.Abs()) / Pow2(count)
  {
    hide Val;
    if |X.p| != 0 {
      var n := |X.p|;
      var xs := MpiAddSub.ToArray(X.p);
      assert xs[..n] == X.p;
      ShiftR(xs, n, count);
      X.p := xs[..];
      assert xs[..n] == xs[..];
    } else {
      ValZeros(X.p);
      assert 0 / Pow2(count) == 0 by { DivUnique(0, Pow2(count), 0, 0); }
    }
  }

  // ---- Left shift ------------------------------------------------------------

  function BitsToLimbs(i: nat): nat {
    i / 32 + if i % 32 != 0 then 1 else 0
  }

  /** The limb shift: v0 zero limbs come in below. */
  lemma MovedUp(p: seq<Limb>, q: seq<Limb>, v0: nat)
    requires |p| == |q| && v0 <= |p|
    requires q == Zeros(v0) + p[..|p| - v0]
    requires Val(p) * BPow(v0) < BPow(|p|)
    ensures Val(q) == Val(p) * BPow(v0)
  {
    hide Val, BPow;
    var m := |p| - v0;
    BPowAdd(m, v0);
    FactorBound(Val(p), BPow(m), BPow(v0));
    ValHighZero(p, m);
    ValSplit(q, v0);
    assert q[..v0] == Zeros(v0) && q[v0..] == p[..m];
    ValZeros(q[..v0]);
    Commute(BPow(v0), Val(p));
  }

  lemma FactorBound(v: nat, a: nat, b: nat)
    requires b > 0 && v * b < a * b
    ensures v < a
  {
    if v >= a {
      MulMono(a, v, b);
    }
  }

  lemma LeftColumn(x: Limb, r0: int, p: int, q: int)
    requires p > 0 && q > 0 && p * q == BETA && 0 <= r0 < q
    ensures 0 <= x * q % BETA + r0 < BETA && 0 <= x / p < q
    ensures x * q % BETA + r0 + (x / p) * BETA == x * q + r0
  {
    LowBitsUp(x, p, q);
    var d, r := x / p, x % p;
    MulMono(r, p - 1, q);
    assert (p - 1) * q == BETA - q;
    assert r * q == q * r;
    LimbFits(x, d, p, q, 0);
    assert x * q == d * BETA + q * r by {
      assert (d * p + r) * q == d * (p * q) + q * r;
    }
  }

  /** The first i limbs of x hold q times those of x0, up to the register r0. */
  ghost predicate Scaled(x: seq<Limb>, x0: seq<Limb>, i: nat, q: int, r0: int)
    requires i <= |x| && i <= |x0|
  {
    Val(x[..i]) + r0 * BPow(i) == q * Val(x0[..i])
  }

  lemma ScaleStep(y: int, r1: int, x: int, r0: int, q: int, w: int, v: int, v0: int)
    requires y + r1 * BETA == x * q + r0
    requires v + r0 * w == q * v0
    ensures (v + y * w) + r1 * (BETA * w) == q * (v0 + x * w)
  {
    assert (y + r1 * BETA) * w == (x * q + r0) * w;
  }

  lemma ScaledNext(x: seq<Limb>, x0: seq<Limb>, i: nat, q: int, r0: int, y: Limb, r1: int)
    requires i < |x| == |x0| && Scaled(x, x0, i, q, r0)
    requires y + r1 * BETA == x0[i] * q + r0
    ensures Scaled(x[i := y], x0, i + 1, q, r1)
  {
    var x' := x[i := y];
    assert x'[..i] == x[..i];
    ValStep(x', i);
    ValStep(x0, i);
    ScaleStep(y, r1, x0[i], r0, q, BPow(i), Val(x[..i]), Val(x0[..i]));
  }

  lemma ScaledStart(x: seq<Limb>, i: nat, q: int)
    requires i <= |x| && forall k :: 0 <= k < i ==> x[k] == 0
    ensures Scaled(x, x, i, q, 0)
  {
    ValZeros(x[..i]);
  }

  lemma ScaledEnd(x: seq<Limb>, x0: seq<Limb>, q: int, r0: int)
    requires |x| == |x0| && r0 >= 0 && Scaled(x, x0, |x|, q, r0) && q * Val(x0) < BPow(|x|)
    ensures Val(x) == q * Val(x0)
  {
    assert x[..|x|] == x && x0[..|x|] == x0;
    NoCarry(Val(x), r0, BPow(|x|), q * Val(x0));
  }

  lemma NoCarry(v: nat, r: int, p: int, t: int)
    requires p > 0 && r >= 0 && v + r * p == t < p
    ensures v == t
  {
    if r >= 1 {
      MulMono(1, r, p);
    }
  }

  method ShiftBitsLeft(X: Mpi, t1: nat, v0: nat)
    requires 0 < t1 < 32 && v0 <= |X.p|
    requires forall k :: 0 <= k < v0 ==> X.p[k] == 0
    requires Pow2(t1) * X.Abs() < BPow(|X.p|)
    modifies X
    ensures X.s == old(X.s) && |X.p| == |old(X.p)|
    ensures X.Abs() == Pow2(t1) * old(X.Abs())
  {
    hide Val, Pow2, BPow, Scaled;
    Pow2Limb();
    Pow2Add(32 - t1, t1);
    ghost var x0 := X.p;
    var q, p := Pow2(t1), Pow2(32 - t1);
    var r0: nat := 0;
    ScaledStart(x0, v0, q);
    for i := v0 to |X.p|
      invariant X.s == old(X.s) && |X.p| == |x0| && r0 < q
      invariant forall k :: i <= k < |x0| ==> X.p[k] == x0[k]
      invariant Scaled(X.p, x0, i, q, r0)
    {
      var x: Limb := X.p[i];
      LeftColumn(x, r0, p, q);
      var r1 := x / p;
      var y: Limb := x * q % BETA + r0; // the two parts share no bit, so | is +
      ScaledNext(X.p, x0, i, q, r0, y, r1);
      X.p := X.p[i := y];
      r0 := r1;
    }
    ScaledEnd(X.p, x0, q, r0);
  }

  /** mbedtls_mpi_shift_l: X <<= count, on the absolute value; X grows to what the result needs. */
  method ShiftL(X: Mpi, count: nat)
    modifies X
    ensures X.s == old(X.s) && X.Abs() == old(X.Abs()) * Pow2(count)
    ensures |X.p| == Max(|old(X.p)|, BitsToLimbs(BitLength(old(X.Abs())) + count))
  {
    hide Val, Pow2, BPow, BitLength;
    var v0, t1 := count / 32, count % 32;
    var i := BitlenMpi(X);
    i := i + count;
    ghost var v := X.Abs();
    if |X.p| * 32 < i {
      Grow(X, BitsToLimbs(i));
    }
    assert v0 <= |X.p|;
    ResultFits(v, count, |X.p|);
    FactorCount(v, v0, t1, count);
    if v0 > 0 {
      MoveLimbsUp(X, v0);
    } else {
      BPowZero();
    }
    if t1 > 0 {
      ShiftBitsLeft(X, t1, v0);
    } else {
      Pow2Zero();
    }
  }

  lemma BPowZero()
    ensures BPow(0) == 1
  {
  }

  lemma ResultFits(v: nat, count: nat, n: nat)
    requires BitLength(v) + count <= 32 * n
    ensures v * Pow2(count) < BPow(n)
  {
    hide Pow2, BPow, BitLength;
    BitLengthBounds(v);
    Pow2Add(BitLength(v), count);
    Pow2Monotone(BitLength(v) + count, 32 * n);
    BPowBits(n);
    MulMono(v + 1, Pow2(BitLength(v)), Pow2(count));
    assert (v + 1) * Pow2(count) == v * Pow2(count) + Pow2(count);
  }

  /** A shift is a limb shift and a bit shift; the limb shift alone already fits. */
  lemma FactorCount(v: nat, v0: nat, t1: nat, count: nat)
    requires count == 32 * v0 + t1
    ensures v * Pow2(count) == Pow2(t1) * (v * BPow(v0))
    ensures v * BPow(v0) <= v * Pow2(count)
  {
    hide Pow2, BPow;
    BPowBits(v0);
    Pow2Add(32 * v0, t1);
    var p, t := BPow(v0), Pow2(t1);
    assert v * (p * t) == t * (v * p);
    MulPos(v, p);
    MulMono(1, t, v * p);
  }

  method MoveLimbsUp(X: Mpi, v0: nat)
    requires 0 < v0 <= |X.p| && X.Abs() * BPow(v0) < BPow(|X.p|)
    modifies X
    ensures X.s == old(X.s) && |X.p| == |old(X.p)|
    ensures X.Abs() == old(X.Abs()) * BPow(v0)
    ensures forall k :: 0 <= k < v0 ==> X.p[k] == 0
  {
    hide Val, BPow;
    ghost var p0, n := X.p, |X.p|;
    var i := |X.p|;
    while i > v0
      invariant v0 <= i <= |X.p| == n && X.s == old(X.s)
      invariant X.p[..i] == p0[..i] && X.p[i..] == p0[i - v0..n - v0]
    {
      assert X.p[i - v0 - 1] == p0[i - v0 - 1];
      X.p := X.p[i - 1 := X.p[i - v0 - 1]];
      i := i - 1;
    }
    assert X.p[v0..] == p0[..n - v0];
    while i > 0
      invariant 0 <= i <= v0 <= |X.p| == n && X.s == old(X.s)
      invariant X.p[v0..] == p0[..n - v0]
      invariant forall k :: i <= k < v0 ==> X.p[k] == 0
    {
      X.p := X.p[i - 1 := 0];
      i := i - 1;
    }
    assert X.p == Zeros(v0) + p0[..n - v0];
    MovedUp(p0, X.p, v0);
  }
}
