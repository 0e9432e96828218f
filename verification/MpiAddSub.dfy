/** Addition and subtraction of bignum.c. The limb loops are the ones of Core, run on an array copy of the limbs. */
module MpiAddSub {
  import opened Arith
  import opened Words
  import opened Mpis
  import Core

  method ToArray(s: seq<Limb>) returns (a: array<Limb>)
    ensures fresh(a) && a[..] == s
  {
    a := new Limb[|s|](i requires 0 <= i < |s| => s[i]);
  }

  /** Replacing one limb changes the value by the difference, weighted. */
  lemma ValUpdate(p: seq<Limb>, j: nat, t: Limb)
    requires j < |p|
    ensures Val(p[j := t]) == Val(p) + (t - p[j]) * BPow(j)
  {
    hide Val, BPow;
    var q := p[j := t];
    ValSplit(p, j + 1);
    ValSplit(q, j + 1);
    ValStep(p, j);
    ValStep(q, j);
    assert q[..j] == p[..j] && q[j + 1..] == p[j + 1..];
    Spread(t, p[j], BPow(j));
  }

  lemma Spread(a: int, b: int, p: int)
    ensures (a - b) * p == a * p - b * p
  {
  }

  /** The number a carry chain stands for while a carry c waits at position j. */
  ghost function Pending(p: seq<Limb>, c: int, j: nat): int {
    Val(p) + c * BPow(j)
  }

  lemma PendingStep(p: seq<Limb>, c: Limb, j: nat)
    requires j < |p| && c <= 1
    ensures var t := (p[j] + c) % BETA;
            var c' := if t < c then 1 else 0;
            Pending(p[j := t], c', j + 1) == Pending(p, c, j)
  {
    hide Val, BPow;
    var t: int := (p[j] + c) % BETA;
    var c' := if t < c then 1 else 0;
    assert t + c' * BETA == p[j] + c;
    ValUpdate(p, j, t);
    BPowStep(j);
    CarryOn(t, c', p[j], c, BPow(j));
  }

  lemma BPowStep(j: nat)
    ensures BPow(j + 1) == BETA * BPow(j)
  {
  }

  lemma CarryOn(t: int, c': int, d: int, c: int, p: int)
    requires t + c' * BETA == d + c
    ensures (t - d) * p + c' * (BETA * p) == c * p
  {
    assert (t + c' * BETA) * p == (d + c) * p;
  }

  /** mbedtls_mpi_add_abs: X := |A| + |B|. */
  method AddAbs(X: Mpi, A0: Mpi, B0: Mpi)
    modifies X
    ensures X.s == 1 && X.Abs() == old(A0.Abs()) + old(B0.Abs())
    ensures |X.p| >= |old(X.p)|
  {
    hide Val, BPow, Pending, Sig;
    var A, B := A0, B0;
    if X == B {
      A, B := X, A0;
    }
    if X != A {
      Copy(X, A);
    }
    X.s := 1;
    var j := SignificantLimbs(B.p);
    ghost var b := B.p;
    SigBounds(b);
    if j == 0 {
      return;
    }
    Grow(X, j);
    assert B.p == b;
    var c := AddLow(X, B, j);
    PropagateUp(X, c, j);
  }

  lemma PendingSum(x: seq<Limb>, x0: seq<Limb>, b: seq<Limb>, j: nat, c: Limb)
    requires j <= |x| == |x0| && j <= |b| && x[j..] == x0[j..]
    requires Val(x[..j]) + c * BPow(j) == Val(x0[..j]) + Val(b[..j])
    requires Val(b[..j]) == Val(b)
    ensures Pending(x, c, j) == Val(x0) + Val(b)
  {
    ValSplit(x, j);
    ValSplit(x0, j);
  }

  method AddLow(X: Mpi, B: Mpi, j: nat) returns (c: Limb)
    requires j == Sig(B.p) && j <= |X.p|
    modifies X
    ensures c <= 1 && |X.p| == |old(X.p)| && X.s == old(X.s)
    ensures Pending(X.p, c, j) == old(X.Abs()) + old(B.Abs())
  {
    hide Val, BPow, Pending, Sig;
    var xs := ToArray(X.p);
    var bs := ToArray(B.p);
    ghost var x0, b := X.p, B.p;
    SigBounds(b);
    assert xs[..j] == x0[..j] && bs[..j] == b[..j];
    c := Core.Add(xs, xs, bs, j);
    PendingSum(xs[..], x0, b, j, c);
    X.p := xs[..];
  }

  method PropagateUp(X: Mpi, c0: Limb, j0: nat)
    requires c0 <= 1 && j0 <= |X.p|
    modifies X
    ensures X.s == old(X.s) && X.Abs() == old(Pending(X.p, c0, j0))
    ensures |X.p| >= |old(X.p)|
  {
    hide Val, BPow, Pending;
    var c: Limb, j: nat := c0, j0;
    while c != 0
      invariant c <= 1 && j <= |X.p| && X.s == old(X.s) && |X.p| >= |old(X.p)|
      invariant Pending(X.p, c, j) == old(Pending(X.p, c0, j0))
      decreases c, |X.p| - j
    {
      if j >= |X.p| {
        PendingGrow(X.p, c, j);
        Grow(X, j + 1);
        assert X.p[j] == 0;
      }
      PendingStep(X.p, c, j);
      var t: Limb := (X.p[j] + c) % BETA;
      X.p := X.p[j := t];
      c := if t < c then 1 else 0;
      j := j + 1;
    }
    NothingPending(X.p, j);
  }

  lemma PendingGrow(p: seq<Limb>, c: int, j: nat)
    requires j >= |p|
    ensures Pending(p + Zeros(Max(j + 1, |p|) - |p|), c, j) == Pending(p, c, j)
  {
    GrowValue(p, Max(j + 1, |p|) - |p|);
  }

  lemma NothingPending(p: seq<Limb>, j: nat)
    ensures Pending(p, 0, j) == Val(p)
  {
  }

  // ---- |A| - |B| ------------------------------------------------------------

  /** After the low subtraction: x stands for a - b with a borrow c waiting at position n. */
  lemma BorrowPending(x: seq<Limb>, a: seq<Limb>, b: seq<Limb>, n: nat, c: Limb)
    requires n <= |x| && n <= |a| <= |x| && n <= |b|
    requires Less(Val(x[..n]), c, BPow(n), Val(a[..n]), Val(b[..n]))
    requires forall k :: n <= k < |x| ==> x[k] == LimbAt(a, k)
    requires Val(b[..n]) == Val(b)
    ensures Borrowing(x, c, n, Val(a), Val(b))
  {
    hide Val, BPow, Less, Parts;
    ValParts(x, n);
    ValParts(a, n);
    SameHigh(x, a, n);
    CommonHigh(Val(x), Val(x[..n]), Val(x[n..]), Val(a), Val(a[..n]), Val(a[n..]), BPow(n), c, Val(b), Val(b[..n]));
  }

  lemma SameHigh(x: seq<Limb>, a: seq<Limb>, n: nat)
    requires n <= |a| <= |x|
    requires forall k :: n <= k < |x| ==> x[k] == LimbAt(a, k)
    ensures Val(x[n..]) == Val(a[n..])
  {
    hide Val;
    forall k | 0 <= k < Max(|x[n..]|, |a[n..]|)
      ensures LimbAt(x[n..], k) == LimbAt(a[n..], k)
    {
      assert x[n..][k] == LimbAt(a, n + k);
    }
    SameLimbs(x[n..], a[n..]);
  }

  /** x == a - b up to a borrow c of weight p. */
  ghost predicate Less(x: int, c: int, p: int, a: int, b: int) {
    x - c * p == a - b
  }

  lemma CommonHigh(x: int, xl: int, xh: int, a: int, al: int, ah: int, p: int, c: int, b: int, bl: int)
    requires Parts(x, xl, p, xh) && Parts(a, al, p, ah) && xh == ah && b == bl
    requires Less(xl, c, p, al, bl)
    ensures Less(x, c, p, a, b)
  {
  }

  /** x stands for a - b while a borrow c waits at position n. */
  ghost predicate Borrowing(x: seq<Limb>, c: int, n: nat, a: int, b: int) {
    Less(Val(x), c, BPow(n), a, b)
  }

  lemma BorrowResolved(x: seq<Limb>, x': seq<Limb>, n: nat, c': Limb, a: int, b: int)
    requires n <= |x| == |x'| && x[..n] == x'[..n] && c' <= 1
    requires Borrowing(x, 1, n, a, b)
    requires Val(x'[n..]) - c' * BPow(|x| - n) == Val(x[n..]) - 1
    ensures c' == 0 ==> Val(x') == a - b
    ensures c' == 1 ==> a < b
  {
    hide Val, BPow;
    ValSplit(x, n);
    ValSplit(x', n);
    ValBound(x[..n]);
    ValBound(x'[n..]);
    assert BPow(n) > 0;
    if c' == 1 {
      HighBorrow(Val(x), Val(x[..n]), BPow(n), Val(x[n..]), 1);
    } else {
      LowBorrow(BPow(n), Val(x'[n..]), Val(x[n..]), 1);
    }
  }

  lemma HighBorrow(x: int, lo: int, p: int, h: int, c: int)
    requires x == lo + p * h && lo < p && p > 0 && h - c < 0
    ensures x - c * p < 0
  {
    MulMono(h, c - 1, p);
    assert (c - 1) * p == c * p - p && h * p == p * h;
  }

  lemma LowBorrow(p: int, h': int, h: int, c: int)
    requires h' == h - c
    ensures p * h' == p * h - c * p
  {
  }

  lemma Negative(a: seq<Limb>, b: seq<Limb>)
    requires Sig(b) > |a|
    ensures Val(a) < Val(b)
  {
    SigBounds(b);
    ValBound(a);
    BPowMonotone(|a|, Sig(b) - 1);
  }

  /** mbedtls_mpi_sub_abs: X := |A| - |B|; fails exactly when that is negative. */
  method SubAbs(X: Mpi, A: Mpi, B: Mpi) returns (ok: bool)
    modifies X
    ensures ok <==> old(A.Abs()) >= old(B.Abs())
    ensures ok ==> X.s == 1 && X.Abs() == old(A.Abs()) - old(B.Abs())
    ensures ok ==> |X.p| == Max(|old(X.p)|, |old(A.p)|)
  {
    hide Val, BPow, Sig;
    var n := SignificantLimbs(B.p);
    ghost var a, b := A.p, B.p;
    if n > |A.p| {
      Negative(a, b);
      return false;
    }
    SigBounds(b);
    ghost var av, bv := A.Abs(), B.Abs();
    Grow(X, |A.p|);
    assert B.p[..n] == b[..n];
    var carry := SubLow(X, A, B, n);
    if carry != 0 {
      carry := BorrowUp(X, n, av, bv);
      if carry != 0 {
        return false;
      }
    } else {
      NothingBorrowed(X.p, n, av, bv);
    }
    X.s := 1;
    ok := true;
  }

  lemma NothingBorrowed(x: seq<Limb>, n: nat, a: int, b: int)
    requires Borrowing(x, 0, n, a, b)
    ensures Val(x) == a - b
  {
  }

  /** The limbs of X from n on become those of A; the low ones, still B's when X is B, become the difference. */
  method SubLow(X: Mpi, A: Mpi, B: Mpi, n: nat) returns (carry: Limb)
    requires n <= |A.p| <= |X.p| && n <= |B.p| && Val(B.p[..n]) == B.Abs()
    modifies X
    ensures carry <= 1 && |X.p| == |old(X.p)|
    ensures Borrowing(X.p, carry, n, old(A.Abs()), old(B.Abs()))
  {
    hide Val, BPow, Sig, Borrowing;
    ghost var a, b := A.p, B.p;
    var x := X.p[..n] + A.p[n..] + Zeros(|X.p| - |A.p|);
    var xs := ToArray(x);
    var al, bs := xs, xs;
    if A != X {
      al := ToArray(A.p);
    }
    if B != X {
      bs := ToArray(B.p);
    }
    assert al[0..0 + n] == a[..n] && bs[..n] == b[..n];
    carry := Core.Sub(xs, al, 0, bs, n);
    BorrowPending(xs[..], a, b, n, carry);
    X.p := xs[..];
  }

  method BorrowUp(X: Mpi, n: nat, ghost a: int, ghost b: int) returns (carry: Limb)
    requires n <= |X.p| && Borrowing(X.p, 1, n, a, b)
    modifies X
    ensures |X.p| == |old(X.p)|
    ensures if carry == 0 then X.Abs() == a - b else a < b
  {
    hide Val, BPow, Borrowing;
    ghost var x := X.p;
    var len := |X.p| - n;
    if len == 0 {
      FullBorrow(x, a, b);
      return 1;
    }
    var xs := ToArray(X.p);
    assert xs[n..n + len] == x[n..];
    carry := Core.SubInt(xs, xs, n, 1, len);
    assert xs[..][n..] == xs[n..n + len] && xs[..][..n] == x[..n];
    BorrowResolved(x, xs[..], n, carry, a, b);
    X.p := xs[..];
  }

  lemma FullBorrow(x: seq<Limb>, a: int, b: int)
    requires Borrowing(x, 1, |x|, a, b)
    ensures a < b
  {
    ValBound(x);
  }

  // ---- Signed addition and subtraction -------------------------------------

  lemma SignedSum(r: int, a: int, b: int, sa: Sign, sb: Sign, sr: int, flip: Sign)
    requires a >= 0 && b >= 0
    requires if sa * sb * flip < 0
             then if a >= b then r == a - b && sr == (if a == b then 1 else sa) else r == b - a && sr == 0 - sa
             else r == a + b && sr == sa
    ensures sr * r == sa * a + flip * (sb * b)
  {
  }

  /** add_sub_mpi: X := A + flip * B. X may be A or B. */
  method AddSub(X: Mpi, A: Mpi, B: Mpi, flip: Sign)
    modifies X
    ensures X.Value() == old(A.Value()) + flip * old(B.Value())
    ensures |X.p| >= |old(X.p)|
  {
    hide Val;
    var s := A.s;
    ghost var a, b, sa, sb := A.Abs(), B.Abs(), A.s, B.s;
    if A.s * B.s * flip < 0 {
      var cmp := CmpAbs(A, B);
      if cmp >= 0 {
        var ok := SubAbs(X, A, B);
        X.s := if cmp == 0 then 1 else s;
      } else {
        var ok := SubAbs(X, B, A);
        X.s := if s == 1 then -1 else 1;
      }
    } else {
      AddAbs(X, A, B);
      X.s := s;
    }
    SignedSum(X.Abs(), a, b, sa, sb, X.s, flip);
  }

  method AddMpi(X: Mpi, A: Mpi, B: Mpi)
    modifies X
    ensures X.Value() == old(A.Value()) + old(B.Value())
    ensures |X.p| >= |old(X.p)|
  {
    hide Val;
    AddSub(X, A, B, 1);
  }

  method SubMpi(X: Mpi, A: Mpi, B: Mpi)
    modifies X
    ensures X.Value() == old(A.Value()) - old(B.Value())
    ensures |X.p| >= |old(X.p)|
  {
    hide Val;
    AddSub(X, A, B, -1);
  }

  method AddInt(X: Mpi, A: Mpi, b: int)
    requires -0x8000_0000 <= b < 0x8000_0000
    modifies X
    ensures X.Value() == old(A.Value()) + b
    ensures |X.p| >= |old(X.p)|
  {
    hide Val;
    var B := OneLimb(b);
    AddMpi(X, A, B);
  }

  /** The one-limb operand that add_int, sub_int and cmp_int build on the stack. */
  method OneLimb(b: int) returns (B: Mpi)
    requires -0x8000_0000 <= b < 0x8000_0000
    ensures fresh(B) && |B.p| == 1 && B.Value() == b && B.s == (if b < 0 then -1 else 1)
  {
    B := new Mpi();
    Lset(B, b);
  }
}
