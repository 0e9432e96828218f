/** The binary gcd of bignum.c (mbedtls_mpi_gcd). */
module MpiGcd {
  import opened Arith
  import Words
  import opened Bits
  import opened CoreBits
  import opened Gcds
  import IntDiv
  import opened Mpis
  import MpiAddSub
  import opened MpiShift

  // ---- Gcds and factors of two ------------------------------------------------

  lemma {:induction false} GcdScale(a: nat, b: nat, c: nat)
    requires c > 0
    ensures Gcd(a * c, b * c) == Gcd(a, b) * c
    decreases b
  {
    if b > 0 {
      IntDiv.ScaledDivision(a, b, c);
      GcdScale(b, a % b, c);
    }
  }

  lemma OddDivisor(d: int, n: int)
    requires Divides(d, n) && n % 2 == 1
    ensures d % 2 == 1
  {
    var q :| n == d * q;
    EvenTimes(d, q);
  }

  lemma EvenTimes(d: int, q: int)
    ensures d % 2 == 0 ==> d * q % 2 == 0
  {
    if d % 2 == 0 {
      var h := d / 2;
      assert d * q == 2 * (h * q);
    }
  }

  lemma OddDividesHalf(d: int, a: int)
    requires d % 2 == 1 && Divides(d, 2 * a)
    ensures Divides(d, a)
  {
    var q :| 2 * a == d * q;
    var h, g := d / 2, q / 2;
    assert d * q == 2 * (h * q) + q;
    assert q == 2 * g;
    assert d * (2 * g) == 2 * (d * g);
    DividesIntro(d, a, g);
  }

  lemma GcdHalf(a: nat, b: nat)
    requires b % 2 == 1
    ensures Gcd(2 * a, b) == Gcd(a, b)
  {
    forall d: int
      ensures Divides(d, 2 * a) && Divides(d, b) <==> Divides(d, a) && Divides(d, b)
    {
      if Divides(d, 2 * a) && Divides(d, b) {
        OddDivisor(d, b);
        OddDividesHalf(d, a);
      }
      if Divides(d, a) && Divides(d, b) {
        DividesCombine(d, a, b, 2, 0);
      }
    }
    GcdSame(2 * a, b, a, b);
  }

  lemma {:induction false} GcdDropTwos(a: nat, b: nat, k: nat)
    requires b % 2 == 1
    ensures Gcd(a * Pow2(k), b) == Gcd(a, b)
  {
    if k > 0 {
      GcdDropTwos(a, b, k - 1);
      GcdHalf(a * Pow2(k - 1), b);
      assert a * Pow2(k) == 2 * (a * Pow2(k - 1));
    }
  }

  lemma OddQuotient(v: nat, k: nat)
    requires LowestBit(v, k)
    ensures v == v / Pow2(k) * Pow2(k) && v / Pow2(k) % 2 == 1 && v / Pow2(k) > 0
  {
  }

  /** Odd parts: the gcd keeps the smaller power of two. */
  lemma GcdOddParts(a: nat, b: nat, ka: nat, kb: nat)
    requires LowestBit(a, ka) && LowestBit(b, kb)
    ensures Gcd(a, b) == Gcd(a / Pow2(ka), b / Pow2(kb)) * Pow2(Min(ka, kb))
  {
    hide Pow2, LowestBit, Divides;
    OddQuotient(a, ka);
    OddQuotient(b, kb);
    var a', b' := a / Pow2(ka), b / Pow2(kb);
    if ka >= kb {
      GcdOddPartsOrdered(a', b', ka, kb);
    } else {
      GcdOddPartsOrdered(b', a', kb, ka);
      GcdSymmetric(a, b);
      GcdSymmetric(a', b');
    }
  }

  lemma GcdOddPartsOrdered(a: nat, b: nat, ka: nat, kb: nat)
    requires a % 2 == 1 && b % 2 == 1 && ka >= kb
    ensures Gcd(a * Pow2(ka), b * Pow2(kb)) == Gcd(a, b) * Pow2(kb)
  {
    hide Pow2, Divides;
    Pow2Add(ka - kb, kb);
    MulAssoc(a, Pow2(ka - kb), Pow2(kb));
    GcdScale(a * Pow2(ka - kb), b, Pow2(kb));
    GcdDropTwos(a, b, ka - kb);
  }

  lemma GcdSubtract(a: nat, b: nat)
    requires a >= b
    ensures Gcd(a - b, b) == Gcd(a, b)
  {
    hide Divides;
    forall d: int
      ensures Divides(d, a - b) && Divides(d, b) <==> Divides(d, a) && Divides(d, b)
    {
      if Divides(d, a - b) && Divides(d, b) {
        DividesCombine(d, a - b, b, 1, 1);
      }
      if Divides(d, a) && Divides(d, b) {
        DividesCombine(d, a, b, 1, -1);
      }
    }
    GcdSame(a - b, b, a, b);
  }

  /** The step of the loop: half the difference of two odd numbers. */
  lemma GcdHalfDifference(a: nat, b: nat)
    requires a % 2 == 1 && b % 2 == 1 && a >= b
    ensures Gcd((a - b) / 2, b) == Gcd(a, b) == Gcd(b, (a - b) / 2)
    ensures (a - b) / 2 < a && (a > b ==> (a - b) / 2 > 0)
  {
    hide Divides, Gcd;
    GcdSubtract(a, b);
    GcdHalf((a - b) / 2, b);
    GcdSymmetric((a - b) / 2, b);
  }

  // ---- The loop ------------------------------------------------------------------

  /** Before the first round (a, b) are the operands; afterwards one of them is odd. */
  ghost predicate Underway(a: nat, b: nat, a0: nat, b0: nat, lz: nat) {
    || (a == a0 && b == b0)
    || (Gcd(a0, b0) == Gcd(a, b) * Pow2(lz) && (a % 2 == 1 || b % 2 == 1))
  }

  /** lz is the smaller count of trailing zeros; a count of 0 for the operand 0. */
  ghost predicate CommonTwos(a0: nat, b0: nat, lz: nat) {
    if a0 == 0 then lz == 0 else exists ka: nat, kb: nat :: LowestBit(a0, ka) && LowestBit(b0, kb) && lz == Min(ka, kb)
  }

  lemma LowestBitUnique(v: nat, j: nat, k: nat)
    requires LowestBit(v, j) && LowestBit(v, k)
    ensures j == k
  {
    LowestBitOrder(v, j, k);
    LowestBitOrder(v, k, j);
  }

  lemma LowestBitOrder(v: nat, j: nat, k: nat)
    requires LowestBit(v, j) && LowestBit(v, k)
    ensures k <= j
  {
    hide Pow2;
    OddQuotient(v, j);
    OddQuotient(v, k);
    if j < k {
      Pow2Add(k - j - 1, j);
      Pow2Step(k - 1);
      EvenMultiple(v, Pow2(j), v / Pow2(k), Pow2(k - j - 1));
    }
  }

  lemma EvenMultiple(v: nat, b: nat, q: nat, p: nat)
    requires b > 0 && v == q * (2 * (p * b))
    ensures v / b % 2 == 0
  {
    assert v == (2 * (q * p)) * b + 0 by {
      assert q * (2 * (p * b)) == 2 * (q * (p * b));
      MulAssoc(q, p, b);
      MulAssoc(2, q * p, b);
    }
    DivUnique(v, b, 2 * (q * p), 0);
  }

  lemma OddLowest(v: nat, k: nat)
    requires LowestBit(v, k) && v % 2 == 1
    ensures k == 0
  {
    hide LowestBit, Pow2;
    OddQuotient(v, k);
    if k > 0 {
      Pow2Step(k - 1);
      Commute(v / Pow2(k), Pow2(k));
      EvenTimes(Pow2(k), v / Pow2(k));
    }
  }

  /** After the shifts both numbers are odd and lz accounts for the powers of two removed. */
  lemma ShiftsUnderway(a: nat, b: nat, ka: nat, kb: nat, a0: nat, b0: nat, lz: nat)
    requires Underway(a, b, a0, b0, lz) && CommonTwos(a0, b0, lz) && a > 0
    requires LowestBit(a, ka) && LowestBit(b, kb)
    ensures Gcd(a0, b0) == Gcd(a / Pow2(ka), b / Pow2(kb)) * Pow2(lz)
  {
    hide Pow2, LowestBit, Divides;
    GcdOddParts(a, b, ka, kb);
    if a == a0 && b == b0 {
      var k, l: nat :| LowestBit(a0, k) && LowestBit(b0, l) && lz == Min(k, l);
      LowestBitUnique(a, k, ka);
      LowestBitUnique(b, l, kb);
    } else {
      if a % 2 == 1 {
        OddLowest(a, ka);
      } else {
        OddLowest(b, kb);
      }
      Pow2Zero();
    }
  }

  lemma FinishedGcd(b: nat, a0: nat, b0: nat, lz: nat)
    requires Underway(0, b, a0, b0, lz) && CommonTwos(a0, b0, lz)
    ensures b * Pow2(lz) == Gcd(a0, b0)
  {
    hide Divides;
    GcdSymmetric(0, b);
    GcdSymmetric(a0, b0);
  }

  lemma ShrinkByShift(v: nat, k: nat)
    ensures v / Pow2(k) <= v
  {
    var q, r := v / Pow2(k), v % Pow2(k);
    assert v == q * Pow2(k) + r;
    if q >= 0 {
      MulMono(1, Pow2(k), q);
    }
  }

  /** mbedtls_mpi_gcd. For B == 0 the result is A, sign included. G may be A or B. */
  method BinaryGcd(G: Mpi, A: Mpi, B: Mpi)
    modifies G
    ensures G.Value() == if old(B.Abs()) == 0 then old(A.Value()) else Gcd(old(A.Abs()), old(B.Abs()))
  {
    hide Words.Val, Pow2, Gcd, Bit, LowestBit, Underway, CommonTwos, BitLength;
    ghost var a0, b0 := A.Abs(), B.Abs();
    var TA := new Mpi();
    var TB := new Mpi();
    Copy(TA, A);
    Copy(TB, B);
    var lz := Lsb(TA);
    var lzt := Lsb(TB);
    var low := GetBit(TB, 0);
    ZeroTest(b0, lzt);
    if lzt == 0 && low == 0 {
      Copy(G, A);
      return;
    }
    ghost var ka := lz;
    if lzt < lz {
      lz := lzt;
    }
    StartTwos(a0, b0, ka, lzt);
    TA.s := 1;
    TB.s := 1;
    Loop(TA, TB, a0, b0, lz);
    FinishedGcd(TB.Abs(), a0, b0, lz);
    ShiftL(TB, lz);
    Copy(G, TB);
  }

  lemma ZeroTest(b: nat, k: nat)
    requires if b == 0 then k == 0 else LowestBit(b, k)
    ensures k == 0 && Bit(b, 0) == 0 <==> b == 0
  {
  }

  lemma StartTwos(a0: nat, b0: nat, ka: nat, kb: nat)
    requires (if a0 == 0 then ka == 0 else LowestBit(a0, ka)) && LowestBit(b0, kb)
    ensures CommonTwos(a0, b0, if kb < ka then kb else ka) && Underway(a0, b0, a0, b0, if kb < ka then kb else ka)
  {
    if a0 > 0 {
      assert (if kb < ka then kb else ka) == Min(ka, kb);
    }
  }

  method Loop(TA: Mpi, TB: Mpi, ghost a0: nat, ghost b0: nat, ghost lz: nat)
    requires TA != TB && TA.s == 1 && TB.s == 1 && TB.Abs() > 0
    requires CommonTwos(a0, b0, lz) && Underway(TA.Abs(), TB.Abs(), a0, b0, lz)
    modifies TA, TB
    ensures TA.Abs() == 0 && TB.s == 1 && Underway(0, TB.Abs(), a0, b0, lz)
  {
    hide Words.Val, Pow2, Gcd, Bit, LowestBit, Underway, CommonTwos, BitLength;
    var zero := CmpInt(TA, 0);
    while zero != 0
      invariant TA.s == 1 && TB.s == 1 && TB.Abs() > 0 && zero == Sgn(TA.Abs())
      invariant Underway(TA.Abs(), TB.Abs(), a0, b0, lz)
      decreases TA.Abs() + TB.Abs()
    {
      Round(TA, TB, a0, b0, lz);
      zero := CmpInt(TA, 0);
    }
  }

  method Round(TA: Mpi, TB: Mpi, ghost a0: nat, ghost b0: nat, ghost lz: nat)
    requires TA != TB && TA.s == 1 && TB.s == 1 && TB.Abs() > 0 && TA.Abs() > 0
    requires CommonTwos(a0, b0, lz) && Underway(TA.Abs(), TB.Abs(), a0, b0, lz)
    modifies TA, TB
    ensures TA.s == 1 && TB.s == 1 && TB.Abs() > 0
    ensures TA.Abs() + TB.Abs() < old(TA.Abs() + TB.Abs())
    ensures Underway(TA.Abs(), TB.Abs(), a0, b0, lz)
  {
    hide Words.Val, Pow2, Gcd, Bit, LowestBit, Underway, CommonTwos, BitLength;
    ghost var a, b := TA.Abs(), TB.Abs();
    var ka := Lsb(TA);
    ShiftRMpi(TA, ka);
    var kb := Lsb(TB);
    ShiftRMpi(TB, kb);
    ShiftsUnderway(a, b, ka, kb, a0, b0, lz);
    OddQuotient(a, ka);
    OddQuotient(b, kb);
    ShrinkByShift(a, ka);
    ShrinkByShift(b, kb);
    Pow2One();
    var c := CmpMpi(TA, TB);
    if c >= 0 {
      GcdHalfDifference(TA.Abs(), TB.Abs());
      var ok := MpiAddSub.SubAbs(TA, TA, TB);
      ShiftRMpi(TA, 1);
    } else {
      GcdHalfDifference(TB.Abs(), TA.Abs());
      GcdSymmetric(TB.Abs(), TA.Abs());
      var ok := MpiAddSub.SubAbs(TB, TB, TA);
      ShiftRMpi(TB, 1);
    }
    OneOdd(TA.Abs(), TB.Abs(), a0, b0, lz);
  }

  lemma OneOdd(a: nat, b: nat, a0: nat, b0: nat, lz: nat)
    requires Gcd(a0, b0) == Gcd(a, b) * Pow2(lz) && (a % 2 == 1 || b % 2 == 1)
    ensures Underway(a, b, a0, b0, lz)
  {
  }
}
