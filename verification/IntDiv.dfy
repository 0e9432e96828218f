/** Division of two limbs by one (mbedtls_int_div_int), with a double-width type and with half-width digits. */
module IntDiv {
  import opened Arith
  import opened Words
  import opened CoreBits
  import opened MulAdd

  lemma QuotientFits(u1: int, u0: Limb, d: int)
    requires 0 <= u1 < d
    ensures 0 <= (u1 * BETA + u0) / d < BETA
  {
    var n := u1 * BETA + u0;
    var q, r := n / d, n % d;
    assert n == q * d + r;
    MulMono(u1 + 1, d, BETA);
    if q >= BETA {
      MulMono(BETA, q, d);
    } else if q <= -1 {
      MulMono(q, -1, d);
    }
  }

  method DivideWide(u1: Limb, u0: Limb, d: Limb) returns (q: Limb, r: Limb)
    requires u1 < d
    ensures q == (u1 * BETA + u0) / d && r == (u1 * BETA + u0) % d
  {
    QuotientFits(u1, u0, d);
    var dividend: int := u1 * BETA + u0;
    var quotient: int := dividend / d;
    if quotient > BETA - 1 {
      quotient := BETA - 1;
    }
    DivRemainder(dividend, d);
    q, r := quotient, (dividend - quotient * d) % BETA;
  }

  lemma DivRemainder(n: int, d: Limb)
    requires d > 0
    ensures (n - n / d * d) % BETA == n % d
  {
    assert n - n / d * d == n % d;
  }

  // ---- Half-width digits ------------------------------------------------------

  /** What the digit loop keeps: u == q * d1 + r, and q is not below the exact digit. */
  ghost predicate DigitState(q: int, r: int, u: int, d1: int, exact: int) {
    0 <= q && 0 <= r && u == q * d1 + r && exact <= q
  }

  /** The loop test: true means that q is too large. */
  ghost predicate TooLarge(q: int, r: int, d0: int, low: int) {
    q >= HALF || q * d0 > HALF * r + low
  }

  lemma DigitEquation(q: int, r: int, u: int, d1: int, d0: int, low: int)
    requires u == q * d1 + r
    ensures HALF * u + low - q * (HALF * d1 + d0) == HALF * r + low - q * d0
  {
    assert q * (HALF * d1 + d0) == HALF * (q * d1) + q * d0;
  }

  lemma DigitStart(u: int, d1: int, d0: int, low: int)
    requires d1 >= 1 && 0 <= d0 < HALF && 0 <= low < HALF && 0 <= u < HALF * d1 + d0
    ensures DigitState(u / d1, u % d1, u, d1, (HALF * u + low) / (HALF * d1 + d0))
    ensures 0 <= (HALF * u + low) / (HALF * d1 + d0) < HALF
  {
    var d, t := HALF * d1 + d0, HALF * u + low;
    ExactDigitRange(t, d, u, low);
    StartNotBelow(t / d, u, d1, d0, low);
    var q := u / d1;
    assert u == q * d1 + u % d1;
    if q < 0 {
      MulMono(q, -1, d1);
    }
  }

  lemma ExactDigitRange(t: int, d: int, u: int, low: int)
    requires t == HALF * u + low && 0 <= u < d && 0 <= low < HALF
    ensures 0 <= t / d < HALF
  {
    var e := t / d;
    assert t == e * d + t % d;
    if e >= HALF {
      MulMono(HALF, e, d);
    } else if e <= -1 {
      MulMono(e, -1, d);
    }
  }

  lemma StartNotBelow(e: int, u: int, d1: int, d0: int, low: int)
    requires d1 >= 1 && 0 <= d0 && low < HALF && e >= 0
    requires e == (HALF * u + low) / (HALF * d1 + d0)
    ensures e <= u / d1
  {
    var q := u / d1;
    assert u == q * d1 + u % d1;
    var d := HALF * d1 + d0;
    assert HALF * u + low == e * d + (HALF * u + low) % d;
    assert e * d == HALF * (e * d1) + e * d0 && (q + 1) * d1 == q * d1 + d1;
    MulPos(e, d0);
    if e > q {
      MulMono(q + 1, e, d1);
    }
  }

  /** A q that fails the test is above the exact digit, so it may go down by one. */
  lemma DigitDown(q: int, r: int, u: int, d1: int, d0: int, low: int)
    requires d1 >= 1 && 0 <= d0 < HALF && 0 <= low < HALF && 0 <= u < HALF * d1 + d0
    requires DigitState(q, r, u, d1, (HALF * u + low) / (HALF * d1 + d0)) && TooLarge(q, r, d0, low)
    ensures DigitState(q - 1, r + d1, u, d1, (HALF * u + low) / (HALF * d1 + d0))
  {
    hide DigitState;
    StateParts(q, r, u, d1, (HALF * u + low) / (HALF * d1 + d0));
    DigitStart(u, d1, d0, low);
    AboveExact(q, r, u, d1, d0, low);
    StateMake(q - 1, r + d1, u, d1, (HALF * u + low) / (HALF * d1 + d0));
  }

  lemma StateParts(q: int, r: int, u: int, d1: int, exact: int)
    requires DigitState(q, r, u, d1, exact)
    ensures 0 <= q && 0 <= r && exact <= q
    ensures u == q * d1 + r && u == (q - 1) * d1 + (r + d1)
  {
  }

  lemma StateMake(q: int, r: int, u: int, d1: int, exact: int)
    requires 0 <= q && 0 <= r && exact <= q && u == q * d1 + r
    ensures DigitState(q, r, u, d1, exact)
  {
  }

  lemma AboveExact(q: int, r: int, u: int, d1: int, d0: int, low: int)
    requires d1 >= 1 && 0 <= d0 && u == q * d1 + r && TooLarge(q, r, d0, low)
    requires 0 <= (HALF * u + low) / (HALF * d1 + d0) < HALF
    ensures (HALF * u + low) / (HALF * d1 + d0) < q
  {
    if q < HALF {
      DigitEquation(q, r, u, d1, d0, low);
      QuotientBelow(HALF * u + low, HALF * d1 + d0, q);
    }
  }

  lemma QuotientExact(t: int, d: int, q: int)
    requires d > 0 && q * d <= t && t / d <= q
    ensures t / d == q && t % d == t - q * d
  {
    var e, m := t / d, t % d;
    assert (q - 1) * d == q * d - d;
    if e <= q - 1 {
      MulMono(e, q - 1, d);
    }
  }

  /** When the test passes, or r has left the half-limb range, q is the exact digit. */
  lemma DigitDone(q: int, r: int, u: int, d1: int, d0: int, low: int)
    requires d1 >= 1 && 0 <= d0 < HALF && 0 <= low < HALF && 0 <= u < HALF * d1 + d0
    requires DigitState(q, r, u, d1, (HALF * u + low) / (HALF * d1 + d0))
    requires !TooLarge(q, r, d0, low) || r >= HALF
    ensures q == (HALF * u + low) / (HALF * d1 + d0) && 0 <= q < HALF
    ensures HALF * u + low - q * (HALF * d1 + d0) == (HALF * u + low) % (HALF * d1 + d0)
  {
    if r >= HALF {
      if q >= HALF {
        MulMono(HALF, q, d1);
      }
      ProductBound(q, d0, HALF - 1, HALF - 1);
    }
    DigitEquation(q, r, u, d1, d0, low);
    QuotientExact(HALF * u + low, HALF * d1 + d0, q);
  }

  /** One quotient digit of (u, low) by the two-digit divisor (d1, d0): estimate and correct. */
  method HalfDigit(u: Limb, low: Limb, d1: Limb, d0: Limb) returns (q: Limb)
    requires 1 <= d1 < HALF && d0 < HALF && low < HALF && u < HALF * d1 + d0
    ensures q == (HALF * u + low) / (HALF * d1 + d0) && q < HALF
    ensures HALF * u + low - q * (HALF * d1 + d0) == (HALF * u + low) % (HALF * d1 + d0)
  {
    hide DigitState, TooLarge;
    DigitStart(u, d1, d0, low);
    var q1: int := u / d1;
    QuotientRemainder(u, d1);
    var r0: int := u - d1 * q1;
    ghost var exact := (HALF * u + low) / (HALF * d1 + d0);
    TestMeaning(q1, r0, d0, low);
    while q1 >= HALF || q1 * d0 > HALF * r0 + low
      invariant DigitState(q1, r0, u, d1, exact)
      decreases q1
    {
      TestMeaning(q1, r0, d0, low);
      StateParts(q1, r0, u, d1, exact);
      DigitDown(q1, r0, u, d1, d0, low);
      q1 := q1 - 1;
      r0 := r0 + d1;
      if r0 >= HALF {
        break;
      }
    }
    TestMeaning(q1, r0, d0, low);
    DigitDone(q1, r0, u, d1, d0, low);
    q := q1;
  }

  lemma QuotientRemainder(u: int, d: int)
    requires d > 0
    ensures u - d * (u / d) == u % d
  {
  }

  lemma TestMeaning(q: int, r: int, d0: int, low: int)
    ensures TooLarge(q, r, d0, low) <==> q >= HALF || q * d0 > HALF * r + low
  {
  }

  // ---- The half-width division ------------------------------------------------

  /** Shifting dividend and divisor by the same amount keeps the quotient and scales the remainder. */
  lemma ScaledDivision(n: int, d: int, p: int)
    requires d > 0 && p > 0
    ensures d * p > 0 && n * p / (d * p) == n / d && n * p % (d * p) == n % d * p
  {
    var q, r := n / d, n % d;
    MulMono(1, p, d);
    MulMono(r + 1, d, p);
    assert (r + 1) * p == r * p + p;
    MulPos(r, p);
    assert n * p == q * (d * p) + r * p by {
      assert (q * d + r) * p == q * (d * p) + r * p;
    }
    DivUnique(n * p, d * p, q, r * p);
  }

  /** The normalised operands: u1 and u0 shifted left together by s bits, with p = 2^s and m = 2^(32 - s). */
  lemma NormalisedDividend(u1: Limb, u0: Limb, d: Limb, p: int, m: int)
    requires p > 0 && m > 0 && p * m == BETA && u1 < d && d * p < BETA
    ensures 0 <= u1 * p % BETA + u0 / m < d * p
    ensures u1 * p % BETA == u1 * p
    ensures (u1 * p + u0 / m) * BETA + u0 * p % BETA == (u1 * BETA + u0) * p
  {
    MulMono(u1 + 1, d, p);
    assert (u1 + 1) * p == u1 * p + p;
    MulPos(u1, p);
    assert m * p == BETA by { assert m * p == p * m; }
    LowBitsUp(u0, m, p);
    LimbFits(u0, u0 / m, m, p, 0);
    var h, l := u0 / m, u0 % m;
    assert u0 * p == h * BETA + p * l by {
      assert (h * m + l) * p == h * (m * p) + p * l;
    }
    assert (u1 * p + h) * BETA + p * l == (u1 * BETA) * p + (h * BETA + p * l);
    assert (u1 * BETA + u0) * p == (u1 * BETA) * p + u0 * p;
  }

  /** The two digits put together. */
  lemma TwoDigits(u: int, hi: int, lo: int, d: int, q1: int, q0: int, r1: int)
    requires d > 0 && 0 <= hi < HALF && 0 <= lo < HALF
    requires r1 == HALF * u + hi - q1 * d
    requires q0 == (HALF * r1 + lo) / d
    ensures (u * BETA + (HALF * hi + lo)) / d == HALF * q1 + q0
    ensures (u * BETA + (HALF * hi + lo)) % d == HALF * r1 + lo - q0 * d
  {
    var r0 := (HALF * r1 + lo) % d;
    assert HALF * r1 + lo == q0 * d + r0;
    assert u * BETA + (HALF * hi + lo) == (HALF * q1 + q0) * d + r0 by {
      assert (HALF * q1 + q0) * d == HALF * (q1 * d) + q0 * d;
    }
    DivUnique(u * BETA + (HALF * hi + lo), d, HALF * q1 + q0, r0);
  }

  /** A two-limb dividend over a normalised divisor, by two half-width digits. */
  method DivideNormalised(u: Limb, u0: Limb, d: Limb) returns (q: Limb, r: Limb)
    requires HALF <= d && u < d
    ensures q == (u * BETA + u0) / d && r == (u * BETA + u0) % d
  {
    var d1: int, d0: int := d / HALF, d % HALF;
    var msw: int, lsw: int := u0 / HALF, u0 % HALF;
    var q1 := HalfDigit(u, msw, d1, d0);
    var rAX: Limb := (u * HALF + (msw - q1 * d)) % BETA; // wraps: the exact value is the first remainder
    ghost var r1: int := HALF * u + msw - q1 * d;
    RemainderRange(HALF * u + msw, d);
    assert rAX == r1;
    var q0 := HalfDigit(rAX, lsw, d1, d0);
    RemainderRange(HALF * r1 + lsw, d);
    TwoDigits(u, msw, lsw, d, q1, q0, r1);
    q := q1 * HALF + q0;
    r := (rAX * HALF + lsw - q0 * d) % BETA;
  }

  lemma RemainderRange(t: int, d: int)
    requires d > 0
    ensures 0 <= t % d < d
  {
  }

  method DivideHalf(u1: Limb, u0: Limb, d: Limb) returns (q: Limb, r: Limb)
    requires u1 < d
    ensures q == (u1 * BETA + u0) / d && r == (u1 * BETA + u0) % d
  {
    hide Pow2;
    var s := Clz(d);
    NormalisingShift(d, s);
    Pow2Limb();
    Pow2Add(s, 32 - s);
    var p, m := Pow2(s), Pow2(32 - s);
    NormalisedDividend(u1, u0, d, p, m);
    var dn: Limb := d * p % BETA;
    var un: Limb := u1 * p % BETA + u0 / m; // the second part is 0 when s is 0
    var u0n: Limb := u0 * p % BETA;
    ScaledDivision(u1 * BETA + u0, d, p);
    var rn: Limb;
    q, rn := DivideNormalised(un, u0n, dn);
    UnscaledRemainder(u1 * BETA + u0, d, p);
    r := rn / p;
  }

  lemma UnscaledRemainder(n: int, d: Limb, p: int)
    requires d > 0 && p > 0
    ensures n % d * p / p == n % d && 0 <= n % d < BETA
  {
    DivUnique(n % d * p, p, n % d, 0);
  }

  /** Shifting by the leading zeros fills the limb and loses nothing. */
  lemma NormalisingShift(d: Limb, s: nat)
    requires d > 0 && s == 32 - BitLength(d)
    ensures HALF <= d * Pow2(s) < BETA
  {
    hide Pow2, BitLength;
    BitLengthBounds(d);
    Pow2Limb();
    var b := BitLength(d);
    Pow2Add(b, s);
    Pow2Add(b - 1, s);
    MulMono(d + 1, Pow2(b), Pow2(s));
    assert (d + 1) * Pow2(s) == d * Pow2(s) + Pow2(s);
    MulMono(Pow2(b - 1), d, Pow2(s));
    Pow2Monotone(16, 31);
  }

  /** mbedtls_int_div_int: quotient and remainder of (u1, u0) by d, or all ones when that overflows. */
  method IntDivInt(u1: Limb, u0: Limb, d: Limb) returns (q: Limb, r: Limb)
    ensures if u1 < d then q == (u1 * BETA + u0) / d && r == (u1 * BETA + u0) % d
            else q == r == BETA - 1
  {
    if d == 0 || u1 >= d {
      return BETA - 1, BETA - 1;
    }
    if * { // MBEDTLS_HAVE_UDBL defined or not
      q, r := DivideWide(u1, u0, d);
    } else {
      q, r := DivideHalf(u1, u0, d);
    }
  }
}
