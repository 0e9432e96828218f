/** The signed multi-precision integer of bignum.c: representation, copying and comparison. */
module Mpis {
  import opened Arith
  import opened Words

  type Sign = x: int | x == 1 || x == -1 witness 1

  /** mbedtls_mpi: sign s and limbs p; the limb count n of the source is |p|. */
  class Mpi {
    var s: Sign
    var p: seq<Limb>

    constructor ()
      ensures s == 1 && p == []
    {
      s, p := 1, [];
    }

    ghost function Abs(): nat
      reads this
    {
      Val(p)
    }

    ghost function Value(): int
      reads this
    {
      s * Val(p)
    }
  }

  function Sgn(x: int): int {
    if x > 0 then 1 else if x < 0 then -1 else 0
  }

  /** Limb k of a number; zero above its limbs. */
  function LimbAt(p: seq<Limb>, k: nat): Limb {
    if k < |p| then p[k] else 0
  }

  function Zeros(n: nat): (z: seq<Limb>)
    ensures |z| == n && forall k :: 0 <= k < n ==> z[k] == 0
  {
    seq(n, _ => 0)
  }

  /** The number of limbs up to the most significant non-zero one. */
  function Sig(p: seq<Limb>): (n: nat)
    ensures n <= |p|
    ensures n > 0 ==> p[n - 1] != 0
    ensures forall k :: n <= k < |p| ==> p[k] == 0
  {
    if p == [] then 0 else if p[|p| - 1] != 0 then |p| else Sig(p[..|p| - 1])
  }

  /** The size of a number is between the powers of BETA its significant limbs give. */
  lemma SigBounds(p: seq<Limb>)
    ensures Val(p) < BPow(Sig(p))
    ensures Sig(p) > 0 ==> BPow(Sig(p) - 1) <= Val(p)
    ensures Sig(p) == 0 <==> Val(p) == 0
    ensures Val(p[..Sig(p)]) == Val(p)
  {
    hide BPow, Val, Sig;
    var n := Sig(p);
    ValTrim(p, n);
    ValBound(p[..n]);
    if n > 0 {
      ValStep(p, n - 1);
      MulMono(1, p[n - 1], BPow(n - 1));
    } else {
      ValZeros(p);
    }
  }

  /** Limb strings that agree limb by limb, zeros above included, have one value. */
  lemma SameLimbs(p: seq<Limb>, q: seq<Limb>)
    requires forall k :: 0 <= k < Max(|p|, |q|) ==> LimbAt(p, k) == LimbAt(q, k)
    ensures Val(p) == Val(q)
  {
    hide Val;
    if |p| <= |q| {
      LongerSame(p, q);
    } else {
      LongerSame(q, p);
    }
  }

  lemma LongerSame(p: seq<Limb>, q: seq<Limb>)
    requires |p| <= |q|
    requires forall k :: 0 <= k < |q| ==> LimbAt(p, k) == LimbAt(q, k)
    ensures Val(p) == Val(q)
  {
    forall k | |p| <= k < |q| ensures q[k] == 0 {
      assert LimbAt(p, k) == LimbAt(q, k);
    }
    forall k | 0 <= k < |p| ensures q[k] == p[k] {
      assert LimbAt(p, k) == LimbAt(q, k);
    }
    ValTrim(q, |p|);
    assert q[..|p|] == p;
  }

  lemma LowLimbParity(p: seq<Limb>)
    requires p != []
    ensures Val(p) % 2 == p[0] % 2
  {
  }

  /** The scan for the most significant non-zero limb. */
  method SignificantLimbs(p: seq<Limb>) returns (i: nat)
    ensures i == Sig(p)
  {
    i := |p|;
    while i > 0
      invariant i <= |p| && Sig(p) == Sig(p[..i])
    {
      if p[i - 1] != 0 {
        break;
      }
      assert p[..i][..i - 1] == p[..i - 1];
      i := i - 1;
    }
  }

  // ---- Growing, copying, setting -------------------------------------------

  method Grow(X: Mpi, nblimbs: nat)
    modifies X
    ensures X.s == old(X.s) && X.Abs() == old(X.Abs()) && X.Value() == old(X.Value())
    ensures X.p == old(X.p) + Zeros(Max(nblimbs, |old(X.p)|) - |old(X.p)|)
  {
    if |X.p| < nblimbs {
      ghost var p := X.p;
      X.p := X.p + Zeros(nblimbs - |X.p|);
      GrowValue(p, nblimbs - |p|);
    }
  }

  /** mbedtls_mpi_shrink: drops zero limbs on top, down to nblimbs; grows when there are fewer. */
  method Shrink(X: Mpi, nblimbs: nat)
    modifies X
    ensures X.s == old(X.s) && X.Abs() == old(X.Abs())
    ensures |X.p| == if |old(X.p)| <= nblimbs then nblimbs else Max(Max(1, Sig(old(X.p))), nblimbs)
  {
    hide Val;
    if |X.p| <= nblimbs {
      Grow(X, nblimbs);
      return;
    }
    var i := SignificantLimbs(X.p);
    i := Max(Max(1, i), nblimbs);
    ValTrim(X.p, i);
    X.p := X.p[..i];
  }

  lemma GrowValue(p: seq<Limb>, n: nat)
    ensures Val(p + Zeros(n)) == Val(p)
  {
    ValTrim(p + Zeros(n), |p|);
    assert (p + Zeros(n))[..|p|] == p;
  }

  /** X := Y. X never shrinks, and a fresh X gets no limb above the significant ones. */
  method Copy(X: Mpi, Y: Mpi)
    modifies X
    ensures X.Value() == old(Y.Value()) && X.Abs() == old(Y.Abs())
    ensures |old(Y.p)| > 0 ==> X.s == old(Y.s)
    ensures forall k: nat :: k < |X.p| ==> X.p[k] == LimbAt(old(Y.p), k)
    ensures X == Y ==> X.p == old(X.p) && X.s == old(X.s)
    ensures X != Y ==> |X.p| == Max(|old(X.p)|, if |Y.p| == 0 then 0 else Max(1, Sig(Y.p)))
  {
    hide Val;
    if X == Y {
      return;
    }
    if |Y.p| == 0 {
      if |X.p| != 0 {
        X.s := 1;
        X.p := Zeros(|X.p|);
      }
      ValZeros(X.p);
      ValZeros(Y.p);
      return;
    }
    var i := SignificantLimbs(Y.p);
    i := Max(1, i);
    X.s := Y.s;
    if |X.p| < i {
      Grow(X, i);
    }
    X.p := Y.p[..i] + Zeros(|X.p| - i);
    SameLimbs(X.p, Y.p);
  }

  /** X := z for a signed limb z. */
  method Lset(X: Mpi, z: int)
    requires -0x8000_0000 <= z < 0x8000_0000
    modifies X
    ensures X.Value() == z && X.Abs() == (if z < 0 then -z else z) && X.s == (if z < 0 then -1 else 1)
    ensures |X.p| == Max(1, |old(X.p)|)
    ensures X.p[0] == (if z < 0 then -z else z) && forall k :: 1 <= k < |X.p| ==> X.p[k] == 0
  {
    hide Val;
    Grow(X, 1);
    X.p := Zeros(|X.p|)[0 := if z < 0 then -z else z];
    X.s := if z < 0 then -1 else 1;
    ValHead(X.p);
    ValZeros(X.p[1..]);
  }

  // ---- Comparing -----------------------------------------------------------

  /** The most significant differing limb decides. */
  lemma FirstDifference(x: seq<Limb>, y: seq<Limb>, i: nat)
    requires i < |x| == |y| && x[i + 1..] == y[i + 1..] && x[i] > y[i]
    ensures Val(x) > Val(y)
  {
    hide Val, BPow;
    ValSplit(x, i + 1);
    ValSplit(y, i + 1);
    ValStep(x, i);
    ValStep(y, i);
    ValBound(y[..i]);
    MulMono(y[i] + 1, x[i], BPow(i));
    assert (y[i] + 1) * BPow(i) == y[i] * BPow(i) + BPow(i);
  }

  /** A number with more significant limbs is larger. */
  lemma MoreLimbs(x: seq<Limb>, y: seq<Limb>)
    requires Sig(x) > Sig(y)
    ensures Val(x) > Val(y)
  {
    SigBounds(x);
    SigBounds(y);
    BPowMonotone(Sig(y), Sig(x) - 1);
  }

  /** The common tail of the comparisons: both operands have i significant limbs. */
  method CompareLimbs(x: seq<Limb>, y: seq<Limb>, n: nat) returns (r: int)
    requires n == Sig(x) == Sig(y)
    ensures r == Sgn(Val(x) - Val(y))
  {
    hide Val, Sig;
    SigBounds(x);
    SigBounds(y);
    var i := n;
    while i > 0
      invariant 0 <= i <= n && x[i..n] == y[i..n]
    {
      if x[i - 1] > y[i - 1] {
        FirstDifference(x[..n], y[..n], i - 1);
        return 1;
      }
      if x[i - 1] < y[i - 1] {
        FirstDifference(y[..n], x[..n], i - 1);
        return -1;
      }
      i := i - 1;
    }
    return 0;
  }

  method CmpAbs(X: Mpi, Y: Mpi) returns (r: int)
    ensures r == Sgn(X.Abs() - Y.Abs())
  {
    hide Val, Sig;
    var i := SignificantLimbs(X.p);
    var j := SignificantLimbs(Y.p);
    SigBounds(X.p);
    SigBounds(Y.p);
    if i == 0 && j == 0 {
      return 0;
    }
    if i > j {
      MoreLimbs(X.p, Y.p);
      return 1;
    }
    if j > i {
      MoreLimbs(Y.p, X.p);
      return -1;
    }
    r := CompareLimbs(X.p, Y.p, i);
  }

  method CmpMpi(X: Mpi, Y: Mpi) returns (r: int)
    ensures r == Sgn(X.Value() - Y.Value())
  {
    hide Val, Sig;
    var i := SignificantLimbs(X.p);
    var j := SignificantLimbs(Y.p);
    SigBounds(X.p);
    SigBounds(Y.p);
    if i == 0 && j == 0 {
      return 0;
    }
    if i > j {
      MoreLimbs(X.p, Y.p);
      return X.s;
    }
    if j > i {
      MoreLimbs(Y.p, X.p);
      var ys: int := Y.s;
      return -ys;
    }
    if X.s > 0 && Y.s < 0 {
      return 1;
    }
    if Y.s > 0 && X.s < 0 {
      return -1;
    }
    r := CompareLimbs(X.p, Y.p, i);
    r := if X.s > 0 then r else -r;
  }

  method CmpInt(X: Mpi, z: int) returns (r: int)
    requires -0x8000_0000 <= z < 0x8000_0000
    ensures r == Sgn(X.Value() - z)
  {
    hide Val;
    var Y := new Mpi();
    Lset(Y, z);
    r := CmpMpi(X, Y);
  }
}
