/** Bit lengths and right shifts of limb arrays (mbedtls_mpi_core_clz, _bitlen, _shift_r). */
module CoreBits {
  import opened Arith
  import opened Words
  import opened Bits

  /** The number of bits of v. */
  function BitLength(v: nat): nat {
    if v == 0 then 0 else 1 + BitLength(v / 2)
  }

  lemma {:induction false} BitLengthBounds(v: nat)
    ensures v < Pow2(BitLength(v))
    ensures v > 0 ==> BitLength(v) > 0 && Pow2(BitLength(v) - 1) <= v
  {
    if v > 0 {
      BitLengthBounds(v / 2);
      assert Pow2(BitLength(v)) == 2 * Pow2(BitLength(v / 2));
      if v / 2 > 0 {
        assert Pow2(BitLength(v) - 1) == 2 * Pow2(BitLength(v / 2) - 1);
      }
    }
  }

  lemma BitLengthUnique(v: nat, k: nat)
    requires v < Pow2(k) && (k > 0 ==> Pow2(k - 1) <= v)
    ensures BitLength(v) == k
  {
    BitLengthBounds(v);
    if v == 0 {
      if k > 0 {
        assert false;
      }
    } else if BitLength(v) < k {
      Pow2Monotone(BitLength(v), k - 1);
    } else if k < BitLength(v) {
      Pow2Monotone(k, BitLength(v) - 1);
    }
  }

  lemma BitLengthShift(v: nat, x: nat, lo: nat, k: nat)
    requires v == lo + Pow2(k) * x && lo < Pow2(k) && x > 0
    ensures BitLength(v) == k + BitLength(x)
  {
    hide Pow2, BitLength;
    BitLengthBounds(x);
    var b := BitLength(x);
    Pow2Add(k, b);
    Pow2Add(k, b - 1);
    MulMono(x + 1, Pow2(b), Pow2(k));
    MulMono(Pow2(b - 1), x, Pow2(k));
    Commute(x + 1, Pow2(k));
    Commute(x, Pow2(k));
    Commute(Pow2(b), Pow2(k));
    Commute(Pow2(b - 1), Pow2(k));
    assert Pow2(k) * (x + 1) == Pow2(k) * x + Pow2(k);
    BitLengthUnique(v, k + b);
  }

  lemma Commute(a: int, b: int)
    ensures a * b == b * a
  {
  }

  method Clz(a: Limb) returns (j: nat)
    ensures j <= 32 && j == 32 - BitLength(a)
  {
    hide BitLength;
    Pow2Limb();
    j := 0;
    while j < 32
      invariant 0 <= j <= 32 && a < Pow2(32 - j)
    {
      Pow2Step(31 - j);
      if Bit(a, 31 - j) == 1 {
        TopBit(a, 31 - j);
        break;
      }
      TopBit(a, 31 - j);
      j := j + 1;
    }
    if j == 32 {
      assert Pow2(0) == 1;
    }
    BitLengthUnique(a, 32 - j);
  }

  lemma TopBit(a: nat, k: nat)
    requires a < Pow2(k + 1)
    ensures Bit(a, k) == 1 <==> Pow2(k) <= a
  {
    if a < Pow2(k) {
      DivUnique(a, Pow2(k), 0, a);
    } else {
      DivUnique(a, Pow2(k), 1, a - Pow2(k));
    }
  }

  lemma BitLengthZero()
    ensures BitLength(0) == 0
  {
  }

  method Bitlen(A: seq<Limb>) returns (b: nat)
    ensures b == BitLength(Val(A))
  {
    hide Val, BitLength, BPow;
    if A == [] {
      ValZeros(A);
      assert BitLength(0) == 0 by { BitLengthZero(); }
      return 0;
    }
    var i := |A| - 1;
    while i > 0
      invariant 0 <= i < |A|
      invariant forall k :: i < k < |A| ==> A[k] == 0
    {
      if A[i] != 0 {
        break;
      }
      i := i - 1;
    }
    var z := Clz(A[i]);
    var j := 32 - z;
    b := i * 32 + j;
    TopLimbLength(A, i);
  }

  lemma TopLimbLength(A: seq<Limb>, i: nat)
    requires i < |A| && (forall k :: i < k < |A| ==> A[k] == 0) && (i > 0 ==> A[i] != 0)
    ensures BitLength(Val(A)) == 32 * i + BitLength(A[i])
  {
    hide Val, BitLength, BPow;
    ValTrim(A, i + 1);
    ValStep(A, i);
    ValBound(A[..i]);
    BPowBits(i);
    if A[i] == 0 {
      ValZeros(A[..i]);
    } else {
      Commute(A[i], BPow(i));
      BitLengthShift(Val(A), A[i], Val(A[..i]), 32 * i);
    }
  }

  // ---- Right shift ----------------------------------------------------------

  lemma DivideLimb(x: Limb, w: nat, p: int, q: int, a: int, b: int)
    requires p > 0 && q > 0 && p * q == BETA && w == p * a + b && 0 <= b < p
    ensures (x + BETA * w) / p == x / p + q * b + BETA * a
    ensures (x + BETA * w) % p == x % p
    ensures 0 <= x / p + q * b < BETA
  {
    var d, r := x / p, x % p;
    BaseTimes(w, p, q);
    Distribute(d, q * w, p);
    DivUnique(x + BETA * w, p, d + q * w, r);
    QuotientTimes(w, p, q, a, b);
    LimbFits(x, d, p, q, b);
  }

  lemma BaseTimes(w: int, p: int, q: int)
    requires p * q == BETA
    ensures BETA * w == (q * w) * p
  {
    assert (p * q) * w == (q * w) * p;
  }

  lemma Distribute(a: int, b: int, p: int)
    ensures (a + b) * p == a * p + b * p
  {
  }

  lemma QuotientTimes(w: int, p: int, q: int, a: int, b: int)
    requires p * q == BETA && w == p * a + b
    ensures q * w == BETA * a + q * b
  {
    assert q * (p * a + b) == (p * q) * a + q * b;
  }

  lemma LimbFits(x: Limb, d: int, p: int, q: int, b: int)
    requires p > 0 && q > 0 && p * q == BETA && 0 <= b < p && d * p <= x
    ensures d < q && d + q * b < BETA
    ensures d >= 0 ==> d + q * b >= 0
  {
    if d >= q {
      MulMono(q, d, p);
    }
    MulMono(b, p - 1, q);
    assert (p - 1) * q == BETA - q;
    MulPos(q, b);
  }

  /** The bits that leave a limb downwards, moved to the top: (x << (32 - v1)) truncated. */
  lemma LowBitsUp(x: Limb, p: int, q: int)
    requires p > 0 && q > 0 && p * q == BETA
    ensures x * q % BETA == q * (x % p)
  {
    var d, r := x / p, x % p;
    assert x * q == d * BETA + q * r by {
      assert (d * p + r) * q == d * (p * q) + q * r;
    }
    MulMono(r, p - 1, q);
    assert (p - 1) * q == BETA - q;
    MulPos(q, r);
    DivUnique(x * q, BETA, d, q * r);
  }

  method ShiftR(X: array<Limb>, limbs: nat, count: nat)
    requires limbs <= X.Length
    modifies X
    ensures Val(X[..limbs]) == old(Val(X[..limbs])) / Pow2(count)
    ensures forall k :: limbs <= k < X.Length ==> X[k] == old(X[k])
  {
    hide Val, BPow, Pow2;
    ghost var x0 := X[..limbs];
    var v0, v1 := count / 32, count % 32;
    if v0 > limbs || (v0 == limbs && v1 > 0) {
      for i := 0 to limbs
        invariant forall k :: 0 <= k < X.Length ==> X[k] == if k < i then 0 else old(X[k])
      {
        X[i] := 0;
      }
      ValZeros(X[..limbs]);
      ValBound(x0);
      ShiftedOut(x0, count);
      return;
    }
    if v0 > 0 {
      ShiftLimbs(X, limbs, v0);
    }
    ShiftWhole(x0, X[..limbs], v0);
    if v1 > 0 {
      ShiftBits(X, limbs, v1);
    } else {
      assert Pow2(0) == 1 by { Pow2Zero(); }
    }
    Pow2Add(32 * v0, v1);
    DivDiv(Val(x0), Pow2(32 * v0), Pow2(v1));
  }

  lemma ShiftedOut(x: seq<Limb>, count: nat)
    requires count / 32 >= |x|
    ensures Val(x) / Pow2(count) == 0
  {
    ValBound(x);
    BPowBits(|x|);
    Pow2Monotone(32 * |x|, count);
    PrefixEmpty(Val(x), count);
  }

  lemma ShiftWhole(x0: seq<Limb>, x1: seq<Limb>, v0: nat)
    requires v0 <= |x0| == |x1|
    requires forall k :: 0 <= k < |x0| ==> x1[k] == if k + v0 < |x0| then x0[k + v0] else 0
    ensures Val(x1) == Val(x0) / Pow2(32 * v0)
  {
    hide Val, BPow, Pow2;
    ValTrim(x1, |x0| - v0);
    assert x1[..|x0| - v0] == x0[v0..];
    ValSplit(x0, v0);
    ValBound(x0[..v0]);
    BPowBits(v0);
    ShiftedSum(Val(x0[..v0]), BPow(v0), Val(x0[v0..]));
  }

  method ShiftLimbs(X: array<Limb>, limbs: nat, v0: nat)
    requires v0 <= limbs <= X.Length
    modifies X
    ensures forall k :: 0 <= k < limbs ==> X[k] == if k + v0 < limbs then old(X[k + v0]) else 0
    ensures forall k :: limbs <= k < X.Length ==> X[k] == old(X[k])
  {
    var i := 0;
    while i < limbs - v0
      invariant 0 <= i <= limbs - v0
      invariant forall k :: 0 <= k < X.Length ==> X[k] == if k < i then old(X[k + v0]) else old(X[k])
    {
      X[i] := X[i + v0];
      i := i + 1;
    }
    while i < limbs
      invariant limbs - v0 <= i <= limbs
      invariant forall k :: 0 <= k < X.Length ==>
        X[k] == if k < limbs - v0 then old(X[k + v0]) else if k < i then 0 else old(X[k])
    {
      X[i] := 0;
      i := i + 1;
    }
  }

  /** What the limbs from i on hold, and what the register r0 has kept, when they stood for w before. */
  ghost predicate Shifted(xs: seq<Limb>, r0: int, w: nat, p: int, q: int)
    requires p > 0
  {
    Val(xs) == w / p && r0 == q * (w % p)
  }

  lemma ShiftedStep(x: Limb, xs: seq<Limb>, old_xs: seq<Limb>, r0: int, p: int, q: int)
    requires p > 0 && q > 0 && p * q == BETA
    requires Shifted(xs, r0, Val(old_xs), p, q)
    ensures 0 <= x / p + r0 < BETA
    ensures Shifted([x / p + r0] + xs, x * q % BETA, Val([x] + old_xs), p, q)
  {
    hide Val;
    var w := Val(old_xs);
    DivideLimb(x, w, p, q, w / p, w % p);
    LowBitsUp(x, p, q);
    ValHead([x] + old_xs);
    assert ([x] + old_xs)[1..] == old_xs;
    var y: Limb := x / p + r0;
    ValHead([y] + xs);
    assert ([y] + xs)[1..] == xs;
  }

  method ShiftBits(X: array<Limb>, limbs: nat, v1: nat)
    requires limbs <= X.Length && 0 < v1 < 32
    modifies X
    ensures Val(X[..limbs]) == old(Val(X[..limbs])) / Pow2(v1)
    ensures forall k :: limbs <= k < X.Length ==> X[k] == old(X[k])
  {
    hide Val, Pow2, Shifted;
    Pow2Limb();
    Pow2Add(v1, 32 - v1);
    ghost var x0 := X[..limbs];
    var p, q := Pow2(v1), Pow2(32 - v1);
    var r0: Limb := 0;
    EmptyShifted(p, q);
    var i := limbs;
    assert x0[i..] == [] && X[i..limbs] == [];
    while i > 0
      invariant 0 <= i <= limbs
      invariant forall k :: 0 <= k < X.Length && !(i <= k < limbs) ==> X[k] == old(X[k])
      invariant Shifted(X[i..limbs], r0, Val(x0[i..]), p, q)
    {
      var x := X[i - 1];
      ShiftedStep(x, X[i..limbs], x0[i..], r0, p, q);
      assert x0[i - 1..] == [x] + x0[i..];
      ghost var xs := X[i..limbs];
      var r1: Limb := x * q % BETA;
      X[i - 1] := x / p + r0; // the two parts share no bit, so | is +
      r0 := r1;
      assert X[i..limbs] == xs && X[i - 1..limbs] == [X[i - 1]] + xs;
      i := i - 1;
    }
    FullShifted(X[..limbs], r0, x0, p, q);
    assert X[0..limbs] == X[..limbs] && x0[0..] == x0;
  }

  lemma EmptyShifted(p: int, q: int)
    requires p > 0
    ensures Shifted([], 0, 0, p, q) && Val([]) == 0
  {
    DivUnique(0, p, 0, 0);
  }

  lemma FullShifted(xs: seq<Limb>, r0: int, x0: seq<Limb>, p: int, q: int)
    requires p > 0
    ensures Shifted(xs, r0, Val(x0), p, q) ==> Val(xs) == Val(x0) / p
  {
  }
}
