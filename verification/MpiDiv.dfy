/** Long division (mbedtls_mpi_div_mpi), Algorithm D of Knuth, section 4.3.1. */
module MpiDiv {
  import opened Arith
  import opened Words
  import opened CoreBits
  import opened Mpis
  import opened MpiAddSub
  import opened MpiShift
  import MpiMul
  import IntDiv

  // ---- The estimate of a quotient digit ----------------------------------------

  /** lead leading limbs describe v: lead * e <= v < (lead + 1) * e. */
  ghost predicate Leads(lead: int, e: int, v: int) {
    lead * e <= v < (lead + 1) * e
  }

  /** q is the exact digit of x by d, or more: it is not below x / d. */
  ghost predicate NotBelow(q: int, x: int, d: int) {
    x < (q + 1) * d
  }

  /** q is at most one above the exact digit: q * d < x + d. */
  ghost predicate AtMostOneAbove(q: int, x: int, d: int) {
    q * d < x + d
  }

  lemma CancelFactor(a: int, b: int, f: int)
    requires f > 0 && a * f < b * f
    ensures a < b
  {
    if b <= a {
      MulMono(b, a, f);
    }
  }

  /** The starting digit (x_i, x_{i-1}) / y_t is not too small. */
  lemma StartDigit(q: int, top: int, yt: int, e: int, x: int, d: int)
    requires e > 0 && yt > 0 && 0 <= top && q == top / yt
    requires x * BETA < (top + 1) * e && yt * e <= d * BETA
    ensures NotBelow(q, x, d)
  {
    var r := top % yt;
    assert top == q * yt + r;
    MulMono(top + 1, (q + 1) * yt, e) by { assert (q + 1) * yt == q * yt + yt; }
    assert (q + 1) * yt * e == (q + 1) * (yt * e) by { MulAssoc(q + 1, yt, e); }
    QuotientNonNegative(top, yt);
    MulMono(yt * e, d * BETA, q + 1);
    assert (yt * e) * (q + 1) == (q + 1) * (yt * e);
    assert (d * BETA) * (q + 1) == ((q + 1) * d) * BETA;
    CancelFactor(x, (q + 1) * d, BETA);
  }

  lemma QuotientNonNegative(a: int, b: int)
    requires a >= 0 && b > 0
    ensures a / b >= 0
  {
    if a / b <= -1 {
      MulMono(a / b, -1, b);
    }
  }

  /** The 3-limb by 2-limb test only fails for digits that are too large. */
  lemma TestFails(q: int, y2: int, x3: int, e: int, x: int, d: int)
    requires e > 0 && q > 0 && q * y2 > x3
    requires Leads(y2, e, d * (BETA * BETA)) && Leads(x3, e, x * (BETA * BETA))
    ensures NotBelow(q - 1, x, d)
  {
    MulMono(x3 + 1, q * y2, e);
    assert q * y2 * e == q * (y2 * e) by { MulAssoc(q, y2, e); }
    MulMono(y2 * e, d * (BETA * BETA), q);
    assert (y2 * e) * q == q * (y2 * e);
    assert (d * (BETA * BETA)) * q == (q * d) * (BETA * BETA);
    CancelFactor(x, q * d, BETA * BETA);
    assert (q - 1 + 1) * d == q * d;
  }

  /** A digit that passes the test is at most one too large. */
  lemma TestPasses(q: int, y2: int, x3: int, e: int, x: int, d: int)
    requires e > 0 && 0 <= q < BETA && BETA <= y2 && q * y2 <= x3 && d > 0 && x >= 0
    requires Leads(y2, e, d * (BETA * BETA)) && Leads(x3, e, x * (BETA * BETA))
    ensures AtMostOneAbove(q, x, d)
  {
    var d2, x2 := d * (BETA * BETA), x * (BETA * BETA);
    MulMono(d2, (y2 + 1) * e, q);
    assert (y2 + 1) * e * q == (q * y2) * e + q * e by {
      assert (y2 + 1) * e * q == q * ((y2 + 1) * e);
      assert q * ((y2 + 1) * e) == q * (y2 * e) + q * e by { assert (y2 + 1) * e == y2 * e + e; }
      MulAssoc(q, y2, e);
    }
    MulMono(q * y2, x3, e);
    MulMono(q + 1, y2, e);
    assert (q + 1) * e == q * e + e;
    assert d2 * q == (q * d) * (BETA * BETA);
    assert (x + d) * (BETA * BETA) == x2 + d2;
    CancelFactor(q * d, x + d, BETA * BETA);
  }

  lemma ScaleLeads(lead: int, e: int, v: int, f: int)
    requires f > 0 && Leads(lead, e, v)
    ensures Leads(lead, e * f, v * f)
  {
    MulMono(lead * e, v, f);
    MulMono(v + 1, (lead + 1) * e, f);
    MulAssoc(lead, e, f);
    MulAssoc(lead + 1, e, f);
    assert (v + 1) * f == v * f + f;
  }

  lemma LeadTwoInts(v: int, p: int, s1: int, s0: int, lo: int)
    requires 0 <= lo < p && v == lo + s0 * p + s1 * (BETA * p)
    ensures Leads(s1 * BETA + s0, BETA * p, v * BETA)
  {
    var e := BETA * p;
    assert (s1 * BETA + s0) * e == s1 * BETA * e + s0 * e;
    assert (s1 * BETA + s0 + 1) * e == (s1 * BETA + s0) * e + e;
    assert v * BETA == lo * BETA + s0 * e + s1 * BETA * e;
  }

  lemma LeadThreeInts(v: int, p: int, s2: int, s1: int, s0: int, lo: int)
    requires 0 <= lo < p && v == lo + s0 * p + s1 * (BETA * p) + s2 * (BETA * (BETA * p))
    ensures Leads((s2 * BETA + s1) * BETA + s0, BETA * (BETA * p), v * (BETA * BETA))
  {
    var e := BETA * (BETA * p);
    var b := BETA * BETA;
    assert ((s2 * BETA + s1) * BETA + s0) * e == s2 * b * e + s1 * BETA * e + s0 * e;
    assert ((s2 * BETA + s1) * BETA + s0 + 1) * e == ((s2 * BETA + s1) * BETA + s0) * e + e;
    assert v * b == lo * b + s0 * e + s1 * BETA * e + s2 * b * e by {
      assert s0 * p * b == s0 * e;
      assert s1 * (BETA * p) * b == s1 * BETA * e;
      assert s2 * (BETA * (BETA * p)) * b == s2 * b * e;
    }
  }

  /** The two leading limbs from position n, as the source reads them (0 below the lowest limb). */
  function LeadTwo(s: seq<Limb>, n: nat): nat
    requires n < |s|
  {
    s[n] * BETA + if n < 1 then 0 else s[n - 1]
  }

  function LeadThree(s: seq<Limb>, n: nat): nat
    requires n < |s|
  {
    (s[n] * BETA + (if n < 1 then 0 else s[n - 1])) * BETA + if n < 2 then 0 else s[n - 2]
  }

  ghost predicate TopAt(s: seq<Limb>, n: nat) {
    n < |s| && forall k :: n < k < |s| ==> s[k] == 0
  }

  lemma LeadOneOf(s: seq<Limb>, n: nat)
    requires TopAt(s, n)
    ensures s[n] * BPow(n) <= Val(s)
  {
    hide Val, BPow;
    ValTrim(s, n + 1);
    ValStep(s, n);
  }

  lemma LeadTwoOf(s: seq<Limb>, n: nat)
    requires TopAt(s, n)
    ensures Leads(LeadTwo(s, n), BPow(n), Val(s) * BETA)
  {
    hide Val, Leads;
    ValTrim(s, n + 1);
    ValStep(s, n);
    if n == 0 {
      assert Val(s[..0]) == 0 by { ValZeros(s[..0]); }
      OneLimbLeads(s[0]);
    } else {
      ValStep(s, n - 1);
      ValBound(s[..n - 1]);
      LeadTwoInts(Val(s), BPow(n - 1), s[n], s[n - 1], Val(s[..n - 1]));
    }
  }

  lemma OneLimbLeads(x: int)
    ensures Leads(x * BETA + 0, 1, x * BETA)
  {
  }

  lemma LeadThreeOf(s: seq<Limb>, n: nat)
    requires TopAt(s, n) && n >= 1
    ensures Leads(LeadThree(s, n), BPow(n), Val(s) * (BETA * BETA))
  {
    hide Val, Leads;
    ValTrim(s, n + 1);
    ValStep(s, n);
    ValStep(s, n - 1);
    if n == 1 {
      assert Val(s[..0]) == 0 by { ValZeros(s[..0]); }
      TwoLimbsLead(s[1], s[0], Val(s));
    } else {
      ValStep(s, n - 2);
      ValBound(s[..n - 2]);
      LeadThreeInts(Val(s), BPow(n - 2), s[n], s[n - 1], s[n - 2], Val(s[..n - 2]));
    }
  }

  lemma TwoLimbsLead(s1: int, s0: int, v: int)
    requires v == s0 + s1 * BETA
    ensures Leads((s1 * BETA + s0) * BETA + 0, BETA, v * (BETA * BETA))
  {
  }

  lemma ShiftedPowers(t: nat, i: nat)
    requires t < i
    ensures BPow(t) * (BETA * BPow(i - t - 1)) == BPow(i)
  {
    hide BPow;
    BPowStep(i - t - 1);
    BPowAdd(t, i - t);
  }

  /** What the leading limbs of x and y say about x and the shifted divisor d. */
  lemma LeadingLimbs(xs: seq<Limb>, ys: seq<Limb>, i: nat, t: nat, d: nat)
    requires TopAt(xs, i) && TopAt(ys, t) && t < i && d == Val(ys) * BPow(i - t - 1)
    ensures Leads(LeadTwo(ys, t), BPow(i), d * (BETA * BETA))
    ensures Leads(LeadThree(xs, i), BPow(i), Val(xs) * (BETA * BETA))
  {
    hide Val, BPow, Leads;
    LeadThreeOf(xs, i);
    LeadTwoOf(ys, t);
    ShiftedPowers(t, i);
    var f := BETA * BPow(i - t - 1);
    MulPos(BETA - 1, BPow(i - t - 1));
    ScaleLeads(LeadTwo(ys, t), BPow(t), Val(ys) * BETA, f);
    Regroup(Val(ys), BPow(i - t - 1));
  }

  lemma Regroup(y: int, b: int)
    ensures y * BETA * (BETA * b) == y * b * (BETA * BETA)
  {
  }

  lemma FirstGuess(xs: seq<Limb>, ys: seq<Limb>, i: nat, t: nat, d: nat)
    requires TopAt(xs, i) && TopAt(ys, t) && t < i && d == Val(ys) * BPow(i - t - 1) && ys[t] > 0
    ensures NotBelow((xs[i] * BETA + xs[i - 1]) / ys[t], Val(xs), d)
  {
    hide Val, BPow, NotBelow;
    LeadTwoOf(xs, i);
    LeadOneOf(ys, t);
    ShiftedPowers(t, i);
    ScaledLead(ys[t], BPow(t), Val(ys), BPow(i - t - 1));
    StartDigit((xs[i] * BETA + xs[i - 1]) / ys[t], xs[i] * BETA + xs[i - 1], ys[t], BPow(i), Val(xs), d);
  }

  lemma ScaledLead(yt: int, p: int, y: int, b: int)
    requires yt * p <= y && b > 0
    ensures yt * (p * (BETA * b)) <= y * b * BETA
  {
    MulMono(yt * p, y, BETA * b);
    assert yt * p * (BETA * b) == yt * (p * (BETA * b)) by { MulAssoc(yt, p, BETA * b); }
    assert y * (BETA * b) == y * b * BETA;
  }

  lemma LeadAtLeastBase(ys: seq<Limb>, t: nat)
    requires t < |ys| && ys[t] > 0
    ensures LeadTwo(ys, t) >= BETA
  {
  }

  lemma DigitsNonNegative(ys: seq<Limb>, t: nat, b: nat)
    requires TopAt(ys, t) && ys[t] > 0 && b > 0
    ensures Val(ys) > 0 && Val(ys) * b > 0
  {
    hide Val, BPow;
    LeadOneOf(ys, t);
    MulMono(1, ys[t], BPow(t));
    MulMono(1, b, Val(ys));
  }

  lemma LargestDigit(x: int, d: int)
    requires x < d * BETA
    ensures NotBelow(BETA - 1, x, d)
  {
  }

  lemma TwoLimbs(p: seq<Limb>)
    requires |p| >= 2 && forall k :: 2 <= k < |p| ==> p[k] == 0
    ensures Val(p) == p[0] + BETA * p[1]
  {
    ValHead(p);
    ValHead(p[1..]);
    ValZeros(p[2..]);
    assert p[1..][1..] == p[2..];
  }

  lemma ThreeLimbs(p: seq<Limb>)
    requires |p| == 3
    ensures Val(p) == p[0] + BETA * (p[1] + BETA * p[2])
  {
    ValHead(p);
    TwoLimbs(p[1..]);
  }

  /** T1 := the two leading limbs of Y, times z. */
  method TimesLead(T1: Mpi, Y: Mpi, t: nat, z: Limb)
    requires T1 != Y && |T1.p| >= 2 && t < |Y.p|
    modifies T1
    ensures T1.Value() == z * LeadTwo(Y.p, t) && |T1.p| >= |old(T1.p)|
  {
    hide Val;
    Lset(T1, 0);
    T1.p := T1.p[0 := if t < 1 then 0 else Y.p[t - 1]];
    T1.p := T1.p[1 := Y.p[t]];
    TwoLimbs(T1.p);
    MpiMul.MulInt(T1, T1, z);
    Commute(z, LeadTwo(Y.p, t));
  }

  /** The quotient digit of x by d = y * BETA^(i - t - 1): exact or one too large. */
  method EstimateDigit(X: Mpi, Y: Mpi, T1: Mpi, T2: Mpi, i: nat, t: nat, ghost d: nat) returns (z: Limb)
    requires X != T1 && X != T2 && Y != T1 && Y != T2 && T1 != T2
    requires TopAt(X.p, i) && TopAt(Y.p, t) && t < i && Y.p[t] > 0 && |T1.p| >= 2 && |T2.p| == 3 && T2.s == 1
    requires d == Y.Abs() * BPow(i - t - 1) && X.Abs() < d * BETA
    modifies T1, T2
    ensures NotBelow(z, X.Abs(), d) && AtMostOneAbove(z, X.Abs(), d)
    ensures |T1.p| >= 2 && |T2.p| == 3 && T2.s == 1
  {
    hide Val, BPow, Leads, NotBelow, AtMostOneAbove, LeadTwo, LeadThree;
    if X.p[i] >= Y.p[t] {
      z := BETA - 1;
      LargestDigit(X.Abs(), d);
    } else {
      var r;
      z, r := IntDiv.IntDivInt(X.p[i], X.p[i - 1], Y.p[t]);
      FirstGuess(X.p, Y.p, i, t, d);
    }
    T2.p := [if i < 2 then 0 else X.p[i - 2], if i < 1 then 0 else X.p[i - 1], X.p[i]];
    z := CorrectDigit(X.p, Y, T1, T2, i, t, d, z);
  }

  lemma LeadThreeValue(p: seq<Limb>, xs: seq<Limb>, i: nat)
    requires 1 <= i < |xs| && p == [if i < 2 then 0 else xs[i - 2], xs[i - 1], xs[i]]
    ensures Val(p) == LeadThree(xs, i)
  {
    hide Val;
    ThreeLimbs(p);
  }

  /** The do-while loop: decrement while digit * (leading limbs of Y) exceeds T2. */
  method CorrectDigit(ghost xs: seq<Limb>, Y: Mpi, T1: Mpi, T2: Mpi, i: nat, t: nat, ghost d: nat, z0: Limb)
    returns (z: Limb)
    requires Y != T1 && Y != T2 && T1 != T2 && |T1.p| >= 2 && T2.s == 1
    requires TopAt(xs, i) && TopAt(Y.p, t) && t < i && Y.p[t] > 0
    requires T2.p == [if i < 2 then 0 else xs[i - 2], xs[i - 1], xs[i]]
    requires d == Y.Abs() * BPow(i - t - 1) && NotBelow(z0, Val(xs), d)
    modifies T1
    ensures NotBelow(z, Val(xs), d) && AtMostOneAbove(z, Val(xs), d) && |T1.p| >= 2
  {
    hide Val, BPow, Leads, NotBelow, AtMostOneAbove, LeadTwo, LeadThree;
    ghost var y2, x3, e := LeadTwo(Y.p, t), LeadThree(xs, i), BPow(i);
    LeadingLimbs(xs, Y.p, i, t, d);
    LeadThreeValue(T2.p, xs, i);
    LeadAtLeastBase(Y.p, t);
    DigitsNonNegative(Y.p, t, BPow(i - t - 1));
    z := (z0 + 1) % BETA;
    ghost var next: int := z0;
    var again := true;
    while again
      invariant |T1.p| >= 2 && 0 <= next < BETA
      invariant z == if again then (next + 1) % BETA else next
      invariant NotBelow(next, Val(xs), d) && (!again ==> next * y2 <= x3)
      decreases again, next
    {
      z := (z - 1) % BETA;
      TimesLead(T1, Y, t, z);
      var c := CmpMpi(T1, T2);
      again := c > 0;
      assert z == next;
      if again {
        DigitPositive(next, y2, x3);
        TestFails(next, y2, x3, e, Val(xs), d);
        next := next - 1;
      }
    }
    TestPasses(next, y2, x3, e, Val(xs), d);
  }

  lemma DigitPositive(q: nat, y2: int, x3: nat)
    requires q * y2 > x3
    ensures q > 0
  {
  }

  // ---- One step of the division -------------------------------------------------

  lemma AbsOfNonNegative(s: Sign, v: nat)
    requires s * v >= 0
    ensures s * v == v
  {
  }

  lemma ShiftByLimbs(y: nat, m: nat)
    ensures y * Pow2(32 * m) == y * BPow(m)
  {
    BPowBits(m);
  }

  lemma DigitOff(z: int, y: int, b: int, d: int, x: int)
    requires d == y * b && d > 0
    requires NotBelow(z, x, d) && AtMostOneAbove(z, x, d) && x >= 0
    ensures y * z * b == z * d
    ensures x - z * d < 0 ==> z > 0 && 0 <= x - z * d + d == x - (z - 1) * d < d
    ensures x - z * d >= 0 ==> x - z * d < d
  {
    assert y * z * b == z * (y * b);
    assert (z + 1) * d == z * d + d && (z - 1) * d == z * d - d;
  }

  /** X := X - z * Y * BETA^m, added back once when that is negative. */
  method SubtractDigit(X: Mpi, Y: Mpi, T1: Mpi, m: nat, z0: Limb, ghost d: nat) returns (z: Limb)
    requires X != Y && X != T1 && Y != T1 && Y.s == 1 && X.Value() >= 0 && |T1.p| >= 2
    requires d == Y.Abs() * BPow(m) && d > 0
    requires NotBelow(z0, X.Value(), d) && AtMostOneAbove(z0, X.Value(), d)
    modifies X, T1
    ensures X.Value() == old(X.Value()) - z * d && 0 <= X.Value() < d
    ensures |X.p| >= |old(X.p)| && |T1.p| >= 2
  {
    hide Val, BPow, Pow2, NotBelow, AtMostOneAbove, BitLength;
    z := z0;
    ghost var y, x := Y.Abs(), X.Value();
    DigitOff(z, y, BPow(m), d, x);
    MpiMul.MulInt(T1, Y, z);
    assert T1.Value() == y * z;
    AbsOfNonNegative(T1.s, T1.Abs());
    ShiftByLimbs(T1.Abs(), m);
    ShiftedSign(T1.s, T1.Abs(), Pow2(32 * m));
    ShiftL(T1, 32 * m);
    assert T1.Value() == z * d;
    SubMpi(X, X, T1);
    var c := CmpInt(X, 0);
    if c < 0 {
      Copy(T1, Y);
      assert T1.s * T1.Abs() == y;
      AbsOfNonNegative(T1.s, T1.Abs());
      ShiftByLimbs(y, m);
      ShiftedSign(T1.s, y, Pow2(32 * m));
      ShiftL(T1, 32 * m);
      assert T1.Value() == d;
      AddMpi(X, X, T1);
      z := z - 1;
    }
  }

  lemma ShiftedSign(s: Sign, v: nat, p: nat)
    requires s * v == v
    ensures s * (v * p) == v * p
  {
    assert s * v * p == s * (v * p) by { MulAssoc(s, v, p); }
  }

  /** q times y with x left over makes total. */
  ghost predicate Quotient(q: int, y: int, x: int, total: int) {
    q * y + x == total
  }

  lemma QuotientStep(zs: seq<Limb>, j: nat, z: Limb, y: nat, x: int, x': int, total: int, d: nat)
    requires j < |zs| && zs[j] == 0 && d == y * BPow(j) && x' == x - z * d
    requires Quotient(Val(zs), y, x, total)
    ensures Quotient(Val(zs[j := z]), y, x', total)
  {
    hide Val, BPow;
    ValUpdate(zs, j, z);
    SameDigit(z, BPow(j), y, Val(zs), Val(zs[j := z]));
  }

  lemma SameDigit(z: int, b: int, y: int, v: int, v': int)
    requires v' == v + (z - 0) * b
    ensures v' * y == v * y + z * (y * b)
  {
    assert (v + z * b) * y == v * y + z * (y * b);
  }

  lemma TopFromValue(p: seq<Limb>, y: nat, t: nat, i: nat)
    requires t <= i < |p| && y < BPow(t + 1) && Val(p) < y * BPow(i - t)
    ensures TopAt(p, i)
  {
    hide Val, BPow;
    BPowAdd(t + 1, i - t);
    MulMono(y, BPow(t + 1), BPow(i - t));
    ValHighZero(p, i + 1);
  }

  lemma TopBound(p: seq<Limb>, t: nat)
    requires TopAt(p, t)
    ensures Val(p) < BPow(t + 1)
  {
    hide Val, BPow;
    ValTrim(p, t + 1);
    ValBound(p[..t + 1]);
  }

  /** The digits below the first, most significant first. */
  method LowerDigits(X: Mpi, Y: Mpi, Z: Mpi, T1: Mpi, T2: Mpi, n: nat, t: nat, ghost total: nat)
    requires X != Y && X != Z && X != T1 && X != T2 && Y != Z && Y != T1 && Y != T2 && Z != T1 && Z != T2 && T1 != T2
    requires Y.s == 1 && TopAt(Y.p, t) && Y.p[t] > 0 && t <= n < |X.p| && n - t < |Z.p|
    requires |T1.p| >= 2 && |T2.p| == 3 && T2.s == 1
    requires 0 <= X.Value() < Y.Abs() * BPow(n - t) && Quotient(Z.Abs(), Y.Abs(), X.Value(), total)
    requires forall j :: 0 <= j < n - t ==> Z.p[j] == 0
    modifies X, Z, T1, T2
    ensures 0 <= X.Value() < Y.Abs() && Quotient(Z.Abs(), Y.Abs(), X.Value(), total)
    ensures Z.s == old(Z.s) && |Z.p| == |old(Z.p)| && |X.p| >= |old(X.p)|
  {
    hide Val, BPow, Pow2, NotBelow, AtMostOneAbove, Quotient, TopAt;
    ghost var y := Y.Abs();
    TopBound(Y.p, t);
    var i := n;
    while i > t
      invariant t <= i <= n < |X.p| && |X.p| >= |old(X.p)| && |Z.p| == |old(Z.p)| && Z.s == old(Z.s)
      invariant |T1.p| >= 2 && |T2.p| == 3 && T2.s == 1
      invariant 0 <= X.Value() < y * BPow(i - t) && Quotient(Z.Abs(), y, X.Value(), total)
      invariant forall j :: 0 <= j < i - t ==> Z.p[j] == 0
    {
      OneDigit(X, Y, Z, T1, T2, i, t, total);
      i := i - 1;
    }
    OneTimes(y);
  }

  lemma OneTimes(y: int)
    ensures y * BPow(0) == y
  {
  }

  method OneDigit(X: Mpi, Y: Mpi, Z: Mpi, T1: Mpi, T2: Mpi, i: nat, t: nat, ghost total: nat)
    requires X != Y && X != Z && X != T1 && X != T2 && Y != Z && Y != T1 && Y != T2 && Z != T1 && Z != T2 && T1 != T2
    requires Y.s == 1 && TopAt(Y.p, t) && Y.p[t] > 0 && Y.Abs() < BPow(t + 1) && t < i < |X.p| && i - t - 1 < |Z.p|
    requires |T1.p| >= 2 && |T2.p| == 3 && T2.s == 1 && Z.p[i - t - 1] == 0
    requires 0 <= X.Value() < Y.Abs() * BPow(i - t) && Quotient(Z.Abs(), Y.Abs(), X.Value(), total)
    modifies X, Z, T1, T2
    ensures 0 <= X.Value() < Y.Abs() * BPow(i - t - 1) && Quotient(Z.Abs(), Y.Abs(), X.Value(), total)
    ensures Z.s == old(Z.s) && |X.p| >= |old(X.p)| && |T1.p| >= 2 && |T2.p| == 3 && T2.s == 1
    ensures |Z.p| == |old(Z.p)| && Z.p[..i - t - 1] == old(Z.p[..i - t - 1])
  {
    hide Val, BPow, Pow2, NotBelow, AtMostOneAbove, Quotient, TopAt;
    ghost var d := Y.Abs() * BPow(i - t - 1);
    ghost var x, zs := X.Value(), Z.p;
    AbsOfNonNegative(X.s, X.Abs());
    TopFromValue(X.p, Y.Abs(), t, i);
    DigitsNonNegative(Y.p, t, BPow(i - t - 1));
    NextPower(Y.Abs(), i - t - 1);
    var z := EstimateDigit(X, Y, T1, T2, i, t, d);
    z := SubtractDigit(X, Y, T1, i - t - 1, z, d);
    Z.p := Z.p[i - t - 1 := z];
    QuotientStep(zs, i - t - 1, z, Y.Abs(), x, X.Value(), total, d);
  }

  lemma NextPower(y: int, m: nat)
    ensures y * BPow(m + 1) == y * BPow(m) * BETA
  {
    assert y * (BETA * BPow(m)) == y * BPow(m) * BETA;
  }

  // ---- The first digit ------------------------------------------------------------

  lemma FirstDigitFits(count: int, x: int, total: int, d: int, p: int)
    requires Quotient(count, d, x, total) && d <= x && p <= d && total < BETA * p && 0 < p && 0 <= count
    ensures Quotient(count + 1, d, x - d, total) && count + 1 < BETA
  {
    assert (count + 1) * d == count * d + d;
    MulMono(p, d, count + 1);
    if count + 1 >= BETA {
      MulMono(BETA, count + 1, p);
    }
  }

  lemma ShiftedDivisor(y: nat, ys: seq<Limb>, t: nat, n: nat)
    requires TopAt(ys, t) && ys[t] > 0 && y == Val(ys) && t <= n
    ensures y * BPow(n - t) >= BPow(n)
  {
    hide Val, BPow;
    LeadOneOf(ys, t);
    MulMono(1, ys[t], BPow(t));
    BPowAdd(t, n - t);
    MulMono(BPow(t), y, BPow(n - t));
  }

  /** The digit at n - t, by repeated subtraction of the shifted divisor. */
  method FirstDigitLoop(X: Mpi, Y: Mpi, Z: Mpi, j: nat, ghost total: nat, ghost p: nat)
    requires X != Y && X != Z && Y != Z && X.Value() == total && Y.Value() >= p > 0 && total < BETA * p
    requires j < |Z.p| && Z.p == Zeros(|Z.p|)
    modifies X, Z
    ensures 0 <= X.Value() < Y.Value() && |X.p| >= |old(X.p)|
    ensures |Z.p| == |old(Z.p)| && Z.s == old(Z.s) && Z.p == Zeros(|Z.p|)[j := Z.p[j]]
    ensures Quotient(Z.p[j], Y.Value(), X.Value(), total)
  {
    hide Val, Quotient, Zeros;
    assert Quotient(Z.p[j], Y.Value(), X.Value(), total) by {
      StartQuotient(Y.Value(), total);
    }
    var c := CmpMpi(X, Y);
    while c >= 0
      invariant c == Sgn(X.Value() - Y.Value()) && X.Value() >= 0 && |X.p| >= |old(X.p)|
      invariant |Z.p| == |old(Z.p)| && Z.s == old(Z.s) && Z.p == Zeros(|Z.p|)[j := Z.p[j]]
      invariant Quotient(Z.p[j], Y.Value(), X.Value(), total)
      decreases X.Value()
    {
      FirstDigitFits(Z.p[j], X.Value(), total, Y.Value(), p);
      Z.p := Z.p[j := (Z.p[j] + 1) % BETA];
      SubMpi(X, X, Y);
      c := CmpMpi(X, Y);
    }
  }

  lemma StartQuotient(y: int, total: int)
    ensures Quotient(0, y, total, total)
  {
  }

  lemma FirstDigitValue(zs: seq<Limb>, n: nat, j: nat, y: nat, x: int, total: int)
    requires j < n && n == |zs| && zs == Zeros(n)[j := zs[j]]
    requires Quotient(zs[j], y * BPow(j), x, total)
    ensures Quotient(Val(zs), y, x, total)
  {
    hide Val, BPow;
    ValUpdate(Zeros(n), j, zs[j]);
    ValZeros(Zeros(n));
    SameDigit(zs[j], BPow(j), y, 0, Val(zs));
  }

  // ---- The absolute values --------------------------------------------------------

  /** The length that copying and shifting leave is the one with a non-zero top limb. */
  lemma TopLimbSet(p: seq<Limb>)
    requires Val(p) > 0 && |p| == BitsToLimbs(BitLength(Val(p)))
    ensures |p| > 0 && p[|p| - 1] > 0 && TopAt(p, |p| - 1)
  {
    hide Val, BPow, Pow2, BitLength;
    var v := Val(p);
    BitLengthBounds(v);
    if p[|p| - 1] == 0 {
      ValTrim(p, |p| - 1);
      ValBound(p[..|p| - 1]);
      BPowBits(|p| - 1);
      Pow2Monotone(32 * (|p| - 1), BitLength(v) - 1);
    }
  }

  /** The significant limbs hold exactly the bits. */
  lemma SigIsLimbs(p: seq<Limb>)
    ensures Sig(p) == BitsToLimbs(BitLength(Val(p)))
  {
    hide Val, BPow, Pow2, BitLength, Sig;
    var v, n := Val(p), Sig(p);
    SigBounds(p);
    BitLengthBounds(v);
    BPowBits(n);
    if n > 0 {
      BPowBits(n - 1);
      if BitLength(v) <= 32 * (n - 1) {
        Pow2Monotone(BitLength(v), 32 * (n - 1));
      }
      if BitLength(v) > 32 * n {
        Pow2Monotone(32 * n, BitLength(v) - 1);
      }
    } else {
      BitLengthZero();
    }
  }

  /** A copy shifted to make room: value, length and top limb. */
  method ShiftedCopy(A: Mpi, k: nat) returns (X: Mpi)
    requires A.Abs() > 0 && k < 32
    ensures fresh(X) && X.s == 1 && X.Abs() == A.Abs() * Pow2(k)
    ensures |X.p| > 0 && X.p[|X.p| - 1] > 0 && TopAt(X.p, |X.p| - 1)
    ensures Sig(A.p) <= |X.p| <= Sig(A.p) + 1
  {
    hide Val, BPow, Pow2, BitLength, Sig, TopAt;
    X := new Mpi();
    ghost var a := A.Abs();
    SigIsLimbs(A.p);
    SigBounds(A.p);
    Copy(X, A);
    X.s := 1;
    if k > 0 {
      BitLengthTimes(a, k);
      ShiftL(X, k);
    } else {
      Pow2Zero();
    }
    MulMono(1, Pow2(k), a);
    TopLimbSet(X.p);
  }

  lemma BitLengthTimes(v: nat, k: nat)
    requires v > 0
    ensures BitLength(v * Pow2(k)) == BitLength(v) + k
  {
    hide Pow2, BitLength;
    Commute(v, Pow2(k));
    BitLengthShift(v * Pow2(k), v, 0, k);
  }

  lemma ScaledQuotient(a: nat, b: nat, q: nat, x: int, p: nat)
    requires b > 0 && p > 0 && Quotient(q, b * p, x, a * p) && 0 <= x < b * p
    ensures q == a / b && x == a % b * p && x / p == a % b
  {
    IntDiv.ScaledDivision(a, b, p);
    DivUnique(a * p, b * p, q, x);
    DivUnique(x, p, a % b, 0);
  }

  lemma LengthOrder(xs: seq<Limb>, ys: seq<Limb>)
    requires |ys| > 0 && ys[|ys| - 1] > 0 && TopAt(ys, |ys| - 1) && Val(xs) >= Val(ys)
    ensures |xs| >= |ys|
  {
    hide Val, BPow;
    LeadOneOf(ys, |ys| - 1);
    MulMono(1, ys[|ys| - 1], BPow(|ys| - 1));
    ValBound(xs);
    if |xs| < |ys| {
      BPowMonotone(|xs|, |ys| - 1);
    }
  }

  lemma ShiftUpDown(y: nat, m: nat)
    ensures y * Pow2(m) / Pow2(m) == y
  {
    DivUnique(y * Pow2(m), Pow2(m), y, 0);
  }

  /** The divisor aligned with the dividend, shifted back afterwards: length and top limb. */
  lemma Aligned(ys: seq<Limb>, n: nat, t: nat)
    requires |ys| == n + 1 && t <= n && exists y0: seq<Limb> :: |y0| == t + 1 && y0[t] > 0 && Val(y0) == Val(ys)
    ensures TopAt(ys, t) && ys[t] > 0
  {
    hide Val, BPow;
    var y0: seq<Limb> :| |y0| == t + 1 && y0[t] > 0 && Val(y0) == Val(ys);
    ValBound(y0);
    ValHighZero(ys, t + 1);
    ValInjective(ys[..t + 1], y0);
  }

  lemma AlignedLength(ys: seq<Limb>, n: nat, t: nat)
    requires |ys| == t + 1 && ys[t] > 0 && t <= n
    ensures BitsToLimbs(BitLength(Val(ys)) + 32 * (n - t)) == n + 1
  {
    hide Val, BitLength;
    TopLimbLength(ys, t);
    LimbLength(ys[t]);
  }

  lemma LimbLength(x: Limb)
    requires x > 0
    ensures 1 <= BitLength(x) <= 32
  {
    BitLengthBounds(x);
    Pow2Limb();
    if BitLength(x) > 32 {
      Pow2Monotone(32, BitLength(x) - 1);
    }
  }

  lemma ScaledOrder(b: nat, a: nat, p: nat)
    requires 0 < b <= a && p > 0
    ensures 0 < b * p <= a * p
  {
    MulMono(b, a, p);
    MulMono(1, b, p);
  }

  /** A quotient of n zero limbs, and the two numbers the digit test compares. */
  method WorkSpace(n: nat) returns (Z: Mpi, T1: Mpi, T2: Mpi)
    requires n >= 2
    ensures fresh(Z) && fresh(T1) && fresh(T2) && Z != T1 && Z != T2 && T1 != T2
    ensures Z.s == 1 && Z.p == Zeros(|Z.p|) && |Z.p| == n && |T1.p| >= 2 && |T2.p| == 3 && T2.s == 1
  {
    hide Val;
    Z := new Mpi();
    T1 := new Mpi();
    T2 := new Mpi();
    Grow(Z, n);
    Lset(Z, 0);
    assert Z.p == Zeros(|Z.p|);
    Grow(T1, n);
    T2.p := Zeros(3);
  }

  /** Quotient and remainder of |A| by |B|; the remainder is still shifted left by k bits. */
  method DivAbs(A: Mpi, B: Mpi) returns (X: Mpi, Z: Mpi, k: nat)
    requires A.Abs() >= B.Abs() > 0
    ensures fresh(X) && fresh(Z) && X != Z && |X.p| > 0 && |Z.p| > 0 && X.Value() >= 0 && Z.s == 1
    ensures Z.Abs() == A.Abs() / B.Abs() && X.Abs() / Pow2(k) == A.Abs() % B.Abs()
  {
    hide Val, BPow, Pow2, BitLength, Sig, TopAt, Quotient, Zeros;
    ghost var a, b := A.Abs(), B.Abs();
    k := BitlenMpi(B);
    k := k % 32;
    k := if k < 31 then 31 - k else 0;
    X := ShiftedCopy(A, k);
    var Y := ShiftedCopy(B, k);
    var T1, T2;
    Z, T1, T2 := WorkSpace(|A.p| + 2);
    ScaledOrder(b, a, Pow2(k));
    LengthOrder(X.p, Y.p);
    var n, t := |X.p| - 1, |Y.p| - 1;
    DivideAligned(X, Y, Z, T1, T2, n, t);
    AbsOfNonNegative(X.s, X.Abs());
    ScaledQuotient(a, b, Z.Abs(), X.Value(), Pow2(k));
  }

  method DivideAligned(X: Mpi, Y: Mpi, Z: Mpi, T1: Mpi, T2: Mpi, n: nat, t: nat)
    requires X != Y && X != Z && X != T1 && X != T2 && Y != Z && Y != T1 && Y != T2 && Z != T1 && Z != T2 && T1 != T2
    requires X.s == 1 && Y.s == 1 && Z.s == 1 && |T1.p| >= 2 && |T2.p| == 3 && T2.s == 1
    requires |X.p| == n + 1 && |Y.p| == t + 1 && t <= n && Y.p[t] > 0 && n - t < |Z.p| && Z.p == Zeros(|Z.p|)
    modifies X, Y, Z, T1, T2
    ensures 0 <= X.Value() < old(Y.Abs()) && |X.p| > 0
    ensures Quotient(Z.Abs(), old(Y.Abs()), X.Value(), old(X.Abs())) && Z.s == 1 && |Z.p| == |old(Z.p)|
  {
    hide Val, BPow, Pow2, BitLength, Sig, TopAt, Quotient, Zeros;
    ghost var total, y, y0 := X.Abs(), Y.Abs(), Y.p;
    TopAtEnd(Y.p, t);
    AlignedLength(Y.p, n, t);
    ShiftByLimbs(y, n - t);
    ShiftL(Y, 32 * (n - t));
    ShiftedDivisor(y, y0, t, n);
    ValBound(X.p);
    BPowStep(n);
    FirstDigitLoop(X, Y, Z, n - t, total, BPow(n));
    FirstDigitValue(Z.p, |Z.p|, n - t, y, X.Value(), total);
    assert Quotient(Z.Abs(), y, X.Value(), total);
    ShiftUpDown(y, 32 * (n - t));
    ShiftRMpi(Y, 32 * (n - t));
    Aligned(Y.p, n, t);
    assert forall j :: 0 <= j < n - t ==> Z.p[j] == 0;
    LowerDigits(X, Y, Z, T1, T2, n, t, total);
  }

  lemma TopAtEnd(p: seq<Limb>, t: nat)
    requires |p| == t + 1
    ensures TopAt(p, t)
  {
  }

  // ---- Signs ------------------------------------------------------------------------

  function AbsInt(x: int): nat {
    if x < 0 then -x else x
  }

  function SignInt(x: int): Sign {
    if x < 0 then -1 else 1
  }

  /** What ends up in Q: dividing into an operand makes that operand's sign read as positive. */
  function DivQ(a: int, b: int, qIsA: bool, qIsB: bool): int
    requires b != 0
  {
    (if qIsA then 1 else SignInt(a)) * (if qIsB then 1 else SignInt(b)) * (AbsInt(a) / AbsInt(b))
  }

  /** What ends up in R. */
  function DivR(a: int, b: int, qIsA: bool, qIsB: bool): int
    requires b != 0
  {
    if !qIsA then SignInt(a) * (AbsInt(a) % AbsInt(b))
    else if AbsInt(a) < AbsInt(b) then 0
    else (if qIsB then 1 else SignInt(b)) * (AbsInt(a) % AbsInt(b))
  }

  /** a == q * b + r with |r| < |b| and r zero or of a's sign. */
  ghost predicate Divided(a: int, b: int, q: int, r: int) {
    a == q * b + r && AbsInt(r) < AbsInt(b) && (r == 0 || SignInt(r) == SignInt(a))
  }

  /** When the quotient may be written over an operand: exactly when this holds, the division is right. */
  predicate AliasingHarmless(a: int, b: int, qIsA: bool, qIsB: bool)
    requires b != 0
  {
    if qIsA && qIsB then true
    else if qIsA then if AbsInt(a) < AbsInt(b) then a == 0 else a > 0 && (b > 0 || AbsInt(a) % AbsInt(b) == 0)
    else qIsB ==> b > 0 || AbsInt(a) < AbsInt(b)
  }

  lemma EuclidAbs(a: int, b: int) returns (q: nat, r: nat)
    requires b != 0
    ensures q == AbsInt(a) / AbsInt(b) && r == AbsInt(a) % AbsInt(b)
    ensures AbsInt(a) == q * AbsInt(b) + r && r < AbsInt(b)
    ensures q == 0 <==> AbsInt(a) < AbsInt(b)
  {
    q, r := EuclidParts(AbsInt(a), AbsInt(b));
  }

  lemma EuclidParts(n: nat, d: nat) returns (q: nat, r: nat)
    requires d > 0
    ensures q == n / d && r == n % d && n == q * d + r && r < d && (q == 0 <==> n < d)
  {
    q, r := n / d, n % d;
    if q >= 1 {
      MulMono(1, q, d);
    }
  }

  lemma SignsOfProduct(q: int, d: int)
    ensures (-q) * d == -(q * d) && q * (-d) == -(q * d) && (-q) * (-d) == q * d
  {
  }

  /** The law of division, for every way Q may alias an operand (R may be any operand). */
  lemma DivisionLaw(a: int, b: int, qIsA: bool, qIsB: bool)
    requires b != 0 && (qIsA && qIsB ==> a == b)
    ensures Divided(a, b, DivQ(a, b, qIsA, qIsB), DivR(a, b, qIsA, qIsB)) <==> AliasingHarmless(a, b, qIsA, qIsB)
  {
    hide Divided, DivQ, DivR, AliasingHarmless;
    if qIsA && qIsB {
      LawOverBoth(a);
    } else if qIsA {
      LawOverDividend(a, b);
    } else {
      LawElsewhere(a, b, qIsB);
    }
  }

  lemma LawOverBoth(a: int)
    requires a != 0
    ensures Divided(a, a, DivQ(a, a, true, true), DivR(a, a, true, true)) && AliasingHarmless(a, a, true, true)
  {
    DivUnique(AbsInt(a), AbsInt(a), 1, 0);
  }

  lemma LawOverDividend(a: int, b: int)
    requires b != 0
    ensures Divided(a, b, DivQ(a, b, true, false), DivR(a, b, true, false)) <==> AliasingHarmless(a, b, true, false)
  {
    var q, r := EuclidAbs(a, b);
    if q > 0 {
      MulMono(1, q, AbsInt(b));
    }
    SignsOfProduct(q, AbsInt(b));
  }

  lemma LawElsewhere(a: int, b: int, qIsB: bool)
    requires b != 0
    ensures Divided(a, b, DivQ(a, b, false, qIsB), DivR(a, b, false, qIsB)) <==> AliasingHarmless(a, b, false, qIsB)
  {
    var q, r := EuclidAbs(a, b);
    if q > 0 {
      MulMono(1, q, AbsInt(b));
    }
    SignsOfProduct(q, AbsInt(b));
  }

  // ---- The signed operations ----------------------------------------------------------

  /** What a caller can check beforehand: Q apart, or Q over a divisor above zero, or over a dividend not below it. */
  lemma ChecksSuffice(a: int, b: int, qIsA: bool, qIsB: bool)
    requires b != 0 && (qIsA && qIsB ==> a == b)
    requires if qIsA then a >= b > 0 else qIsB ==> b > 0
    ensures Divided(a, b, DivQ(a, b, qIsA, qIsB), DivR(a, b, qIsA, qIsB))
  {
    DivisionLaw(a, b, qIsA, qIsB);
  }

  /** Positive operands alone are not enough: Q over a dividend below the divisor loses it. */
  lemma SmallDividendLost()
    ensures !Divided(1, 2, DivQ(1, 2, true, false), DivR(1, 2, true, false))
  {
    DivisionLaw(1, 2, true, false);
  }

  lemma SignsOfValues(s: Sign, v: nat)
    ensures AbsInt(s * v) == v && (v > 0 ==> SignInt(s * v) == s)
  {
  }

  /** mbedtls_mpi_div_mpi. Q and R may be null and may be operands. */
  method DivMpi(Q: Mpi?, R: Mpi?, A: Mpi, B: Mpi) returns (ok: bool)
    modifies Q, R
    ensures ok <==> old(B.Value()) != 0
    ensures ok && Q != null && Q != R ==> Q.Value() == DivQ(old(A.Value()), old(B.Value()), Q == A, Q == B)
    ensures ok && R != null ==> R.Value() == DivR(old(A.Value()), old(B.Value()), Q == A, Q == B)
    ensures ok && R != null ==> |R.p| >= |old(R.p)|
    ensures !ok ==> (Q != null ==> Q.s == old(Q.s) && Q.p == old(Q.p)) && (R != null ==> R.s == old(R.s) && R.p == old(R.p))
  {
    hide Val, Pow2;
    ghost var a, b := A.Abs(), B.Abs();
    SignsOfValues(A.s, a);
    SignsOfValues(B.s, b);
    var zero := CmpInt(B, 0);
    if zero == 0 {
      return false;
    }
    ok := true;
    var cmp := CmpAbs(A, B);
    if cmp < 0 {
      DivUnique(a, b, 0, a);
      if Q != null {
        Lset(Q, 0);
      }
      if R != null {
        Copy(R, A);
      }
      return;
    }
    var X, Z, k := DivAbs(A, B);
    Deliver(Q, R, A, B, X, Z, k);
  }

  /** Quotient Z and shifted remainder X go out, with the signs read from A and B as they are by then. */
  method Deliver(Q: Mpi?, R: Mpi?, A: Mpi, B: Mpi, X: Mpi, Z: Mpi, k: nat)
    requires X != Q && X != R && X != A && X != B && X != Z && Z != Q && Z != R && |X.p| > 0 && |Z.p| > 0
    requires A.Abs() >= B.Abs() > 0 && Z.s == 1
    requires Z.Abs() == A.Abs() / B.Abs() && X.Abs() / Pow2(k) == A.Abs() % B.Abs()
    modifies Q, R, X
    ensures Q != null && Q != R ==> Q.Value() == DivQ(old(A.Value()), old(B.Value()), Q == A, Q == B)
    ensures R != null ==> R.Value() == DivR(old(A.Value()), old(B.Value()), Q == A, Q == B)
    ensures R != null ==> |R.p| >= |old(R.p)|
  {
    hide Val, Pow2;
    SignsOfValues(A.s, A.Abs());
    SignsOfValues(B.s, B.Abs());
    if Q != null {
      Copy(Q, Z);
      Q.s := if A.s == B.s then 1 else -1;
    }
    if R != null {
      ShiftRMpi(X, k);
      X.s := A.s;
      Copy(R, X);
      var zero := CmpInt(R, 0);
      if zero == 0 {
        R.s := 1;
      }
    }
  }

  /** mbedtls_mpi_div_int. */
  method DivInt(Q: Mpi?, R: Mpi?, A: Mpi, b: int) returns (ok: bool)
    requires -0x8000_0000 <= b < 0x8000_0000
    modifies Q, R
    ensures ok <==> b != 0
    ensures ok && Q != null && Q != R ==> Q.Value() == DivQ(old(A.Value()), b, Q == A, false)
    ensures ok && R != null ==> R.Value() == DivR(old(A.Value()), b, Q == A, false)
    ensures !ok ==> (Q != null ==> Q.s == old(Q.s) && Q.p == old(Q.p)) && (R != null ==> R.s == old(R.s) && R.p == old(R.p))
  {
    var B := OneLimb(b);
    ok := DivMpi(Q, R, A, B);
  }

  datatype Status = Ok | NegativeValue | DivisionByZero | BadInput | NotAcceptable | BufferTooSmall | InvalidCharacter
                  | Corrupted | AllocFailed

  /** The residue in [0, b). */
  lemma RemainderStep(a: int, b: int, r: int, r': int, k: int)
    requires Cong(r, a, b) && r' == r + k * b
    ensures Cong(r', a, b)
  {
    CongIntro(r', r, b, k);
    CongTrans(r', r, a, b);
  }

  lemma TruncatedRemainder(a: int, b: int)
    requires b > 0
    ensures Cong(DivR(a, b, false, false), a, b) && AbsInt(DivR(a, b, false, false)) < b
  {
    var q, r := EuclidAbs(a, b);
    SignsOfProduct(q, b);
    var s: int := SignInt(a);
    CongIntro(DivR(a, b, false, false), a, b, -s * q);
  }

  lemma RemainderIsMod(r: int, a: int, b: int)
    requires 0 <= r < b && Cong(r, a, b)
    ensures r == a % b
  {
    CongSym(r, a, b);
    CongIsMod(a, r, b);
  }

  /** The value of R after k rounds of the loops of mod_mpi when R is the modulus itself: doubled while negative, then
      subtracted from itself. */
  function SelfReduced(r: int, k: nat): int {
    if k == 0 then r else var x := SelfReduced(r, k - 1); if x < 0 then x + x else x - x
  }

  /** A negative value is doubled for as long as there is memory; any other is never below itself, so that case never ends. */
  lemma {:induction false} SelfReductionEndless(r: int, k: nat)
    ensures r < 0 ==> SelfReduced(r, k) == r * Pow2(k) && SelfReduced(r, k) + Pow2(k) <= 0
    ensures r >= 0 && k > 0 ==> SelfReduced(r, k) == 0
  {
    if k > 0 {
      SelfReductionEndless(r, k - 1);
      Pow2Step(k - 1);
      MulAssoc(r, 2, Pow2(k - 1));
    }
  }

  /** MBEDTLS_MPI_MAX_LIMBS. */
  const MAX_LIMBS := 10000

  /** The first absolute value for which mbedtls_mpi_grow has no room. */
  ghost function Bound(): nat {
    Pow2(32 * MAX_LIMBS)
  }

  lemma BelowItsLength(r: int, bits: nat, limit: nat)
    requires r < 0 && bits == BitLength(-r) < limit
    ensures 2 * -r <= Pow2(limit)
  {
    BitLengthBounds(-r);
    Pow2Monotone(bits + 1, limit);
    Pow2Step(bits);
  }

  lemma HasRoom(R: Mpi, bits: nat)
    requires R.Value() < 0 && bits == BitLength(R.Abs()) < 32 * MAX_LIMBS
    ensures -2 * R.Value() <= Bound()
  {
    hide Val, Pow2, BitLength;
    BelowItsLength(R.Value(), bits, 32 * MAX_LIMBS);
  }

  /** The first loop of mod_mpi: B is added until R is not negative, or, when R is B itself, until it cannot grow. */
  method AddUp(R: Mpi, B: Mpi, ghost a: int) returns (st: Status)
    requires R == B ==> R.Value() < 0
    requires R != B ==> Cong(R.Value(), a, B.Value()) && -B.Value() < R.Value() < B.Value()
    modifies R
    ensures st == (if R == B then AllocFailed else Ok) && |R.p| >= |old(R.p)|
    ensures R != B ==> 0 <= R.Value() < B.Value() && Cong(R.Value(), a, B.Value())
  {
    hide Val, Cong, Bound, Mpi.Value;
    var neg := CmpInt(R, 0);
    while neg < 0
      invariant neg == Sgn(R.Value()) && |R.p| >= |old(R.p)|
      invariant if R == B then neg < 0 else Cong(R.Value(), a, B.Value()) && -B.Value() < R.Value() < B.Value()
      decreases if R == B then R.Value() + Bound() else -R.Value()
    {
      var bits := BitlenMpi(R);
      if R == B && bits >= 32 * MAX_LIMBS {
        return AllocFailed; // the sum has more limbs than mbedtls_mpi_grow gives
      }
      if R == B {
        HasRoom(R, bits);
      } else {
        RemainderStep(a, B.Value(), R.Value(), R.Value() + B.Value(), 1);
      }
      AddMpi(R, R, B);
      neg := CmpInt(R, 0);
    }
    st := Ok;
  }

  /** mbedtls_mpi_mod_mpi: R := A mod B. R may be A, and B as well if the remainder is negative; if it is not, the source
      does not return. */
  method ModMpi(R: Mpi, A: Mpi, B: Mpi) returns (st: Status)
    requires R == B && B.Value() > 0 ==> DivR(A.Value(), B.Value(), false, false) < 0
    modifies R
    ensures st == if old(B.Value()) < 0 then NegativeValue else if old(B.Value()) == 0 then DivisionByZero
                  else if R == B then AllocFailed else Ok
    ensures st == Ok ==> R.Value() == old(A.Value()) % B.Value()
    ensures st == Ok ==> |R.p| >= |old(R.p)|
    ensures st != Ok && st != AllocFailed ==> R.s == old(R.s) && R.p == old(R.p)
  {
    hide Val, Cong, DivR, Mpi.Value;
    ghost var a, b := A.Value(), B.Value();
    var neg := CmpInt(B, 0);
    if neg < 0 {
      return NegativeValue;
    }
    var ok := DivMpi(null, R, A, B);
    if !ok {
      return DivisionByZero;
    }
    TruncatedRemainder(a, b);
    st := AddUp(R, B, a);
    if st != Ok {
      return;
    }
    var c := CmpMpi(R, B);
    ghost var rounds := 2; // the division already leaves less than b, so not even one is needed
    while c >= 0
      invariant R != B && c == Sgn(R.Value() - b) && Cong(R.Value(), a, b) && |R.p| >= |old(R.p)|
      invariant 1 <= rounds <= 2 && 0 <= R.Value() < (if rounds == 2 then 2 * b else b)
      decreases rounds
    {
      rounds := 1;
      RemainderStep(a, b, R.Value(), R.Value() - b, -1);
      SubMpi(R, R, B);
      c := CmpMpi(R, B);
    }
    RemainderIsMod(R.Value(), a, b);
    st := Ok;
  }
}
