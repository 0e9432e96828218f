/** Helpers of the server (src/utility.c): the next power of two, and the search for a keyword. */
module Utility {
  import opened Arith
  import Bits
  import CoreBits

  const INT_MAX := 0x7FFF_FFFF
  const OTHER_ERROR := -1

  // ---- Bits of signed words -------------------------------------------------------------

  /** Bit k of an int in two's complement, the sign bit repeated for ever. */
  function BitAt(v: int, k: nat): (b: int)
    ensures 0 <= b <= 1
  {
    v / Pow2(k) % 2
  }

  /** The bitwise or of two ints. */
  function Or(a: int, b: int): int
    decreases if a < 0 then -a else a
  {
    if a == 0 then b else if a == -1 then -1
    else 2 * Or(a / 2, b / 2) + if a % 2 == 1 || b % 2 == 1 then 1 else 0
  }

  lemma BitOfHalf(v: int, k: nat)
    ensures BitAt(v, k + 1) == BitAt(v / 2, k) && v / Pow2(k + 1) == v / 2 / Pow2(k)
  {
    Bits.DivDiv(v, 2, Pow2(k));
  }

  lemma MinusOneShifted(k: nat)
    ensures -1 / Pow2(k) == -1 && BitAt(-1, k) == 1
  {
    DivUnique(-1, Pow2(k), -1, Pow2(k) - 1);
  }

  lemma OrStep(a: int, b: int)
    ensures Or(0, b) == b && Or(-1, b) == -1
    ensures Or(a, b) % 2 == Max(a % 2, b % 2)
    ensures a != 0 && a != -1 ==> Or(a, b) / 2 == Or(a / 2, b / 2)
  {
  }

  /** An or has the bits either operand has. */
  lemma {:induction false} OrBit(a: int, b: int, k: nat)
    ensures BitAt(Or(a, b), k) == Max(BitAt(a, k), BitAt(b, k))
    decreases k
  {
    hide BitAt, Or;
    OrStep(a, b);
    if a == 0 {
      ZeroBit(k);
    } else if a == -1 {
      MinusOneShifted(k);
    } else if k == 0 {
      BitZero(Or(a, b));
      BitZero(a);
      BitZero(b);
    } else {
      OrBit(a / 2, b / 2, k - 1);
      BitOfHalf(Or(a, b), k - 1);
      BitOfHalf(a, k - 1);
      BitOfHalf(b, k - 1);
    }
  }

  lemma ZeroBit(k: nat)
    ensures 0 / Pow2(k) == 0 && BitAt(0, k) == 0
  {
    DivUnique(0, Pow2(k), 0, 0);
  }

  lemma BitZero(v: int)
    ensures BitAt(v, 0) == v % 2
  {
  }

  /** Above bit m both operands are all zeros or all ones, and so is their or. */
  lemma {:induction false} OrHigh(a: int, b: int, m: nat, t: int)
    requires (t == 0 || t == -1) && a / Pow2(m) == t && b / Pow2(m) == t
    ensures Or(a, b) / Pow2(m) == t
    decreases m
  {
    if m > 0 && a != 0 && a != -1 {
      BitOfHalf(a, m - 1);
      BitOfHalf(b, m - 1);
      OrHigh(a / 2, b / 2, m - 1, t);
      BitOfHalf(Or(a, b), m - 1);
      assert Or(a, b) / 2 == Or(a / 2, b / 2);
    } else if a == -1 {
      MinusOneShifted(m);
    } else if a == 0 {
      ZeroBit(m);
    }
  }

  // ---- Smearing -----------------------------------------------------------------------------

  /** All bits from lo to m are set; above them there is only the sign. */
  ghost predicate Smeared(s: int, lo: nat, m: nat, t: int) {
    s / Pow2(m) == t && forall k :: lo <= k < m ==> BitAt(s, k) == 1
  }

  /** One line of the bit trick: as many more bits are set below. */
  lemma SmearStep(s: int, lo: nat, m: nat, t: int, w: nat)
    requires (t == 0 || t == -1) && lo <= m && (w <= m - lo || lo == 0) && Smeared(s, lo, m, t)
    ensures Smeared(Or(s, s / Pow2(w)), if lo <= w then 0 else lo - w, m, t)
  {
    hide BitAt, Or, Pow2;
    var h := s / Pow2(w);
    assert h / Pow2(m) == t by { ShiftBoth(s, w, m, t); }
    OrHigh(s, h, m, t);
    var lo' := if lo <= w then 0 else lo - w;
    forall k | lo' <= k < m
      ensures BitAt(Or(s, h), k) == 1
    {
      OrBit(s, h, k);
      if k < lo {
        BitShifted(s, w, k);
        assert BitAt(s, k + w) == 1;
      }
    }
  }

  lemma ShiftBoth(s: int, w: nat, m: nat, t: int)
    requires (t == 0 || t == -1) && s / Pow2(m) == t
    ensures s / Pow2(w) / Pow2(m) == t
  {
    Bits.DivDiv(s, Pow2(w), Pow2(m));
    Bits.DivDiv(s, Pow2(m), Pow2(w));
    assert Pow2(w) * Pow2(m) == Pow2(m) * Pow2(w);
    ZeroBit(w);
    MinusOneShifted(w);
  }

  lemma BitShifted(s: int, w: nat, k: nat)
    ensures BitAt(s / Pow2(w), k) == BitAt(s, k + w)
  {
    Pow2Add(w, k);
    Bits.DivDiv(s, Pow2(w), Pow2(k));
  }

  /** All bits below m set: one less than a power of two, or minus one. */
  lemma {:induction false} AllOnes(s: int, m: nat, t: int)
    requires Smeared(s, 0, m, t)
    ensures s == t * Pow2(m) + Pow2(m) - 1
    decreases m
  {
    if m == 0 {
      assert Pow2(0) == 1;
    } else {
      BitOfHalf(s, m - 1);
      forall k | 0 <= k < m - 1
        ensures BitAt(s / 2, k) == 1
      {
        BitOfHalf(s, k);
        assert BitAt(s, k + 1) == 1;
      }
      AllOnes(s / 2, m - 1, t);
      BitZero(s);
      assert BitAt(s, 0) == 1;
      Doubled(t, Pow2(m - 1));
    }
  }

  lemma Doubled(t: int, p: int)
    ensures t * (2 * p) == 2 * (t * p)
  {
  }

  /** Before the first line: the leading bit of x, or the sign bits of a negative x. */
  function Width(x: int): nat {
    if x < 0 then 62 else CoreBits.BitLength(x)
  }

  function Lead(x: int): nat {
    if x < 0 then 31 else if x == 0 then 0 else CoreBits.BitLength(x) - 1
  }

  lemma LeadingBit(x: int)
    requires -0x8000_0000 <= x < 0x4000_0000
    ensures var t := if x < 0 then -1 else 0;
            Smeared(x, Lead(x), Width(x), t) && Lead(x) <= 31 && Lead(x) <= Width(x)
            && (Lead(x) == 0 || x < 0 || Width(x) == Lead(x) + 1)
  {
    hide BitAt, Pow2, CoreBits.BitLength;
    if x < 0 {
      forall k | 31 <= k <= 62
        ensures x / Pow2(k) == -1 && BitAt(x, k) == 1
      {
        SignBits(x, k);
      }
    } else if x == 0 {
      CoreBits.BitLengthZero();
      ZeroBit(0);
    } else {
      TopBitSet(x, CoreBits.BitLength(x));
    }
  }

  lemma SignBits(x: int, k: nat)
    requires -0x8000_0000 <= x < 0 && 31 <= k
    ensures x / Pow2(k) == -1 && BitAt(x, k) == 1
  {
    PowThirtyOne();
    Pow2Monotone(31, k);
    DivUnique(x, Pow2(k), -1, x + Pow2(k));
  }

  lemma PowThirtyOne()
    ensures Pow2(31) == 0x8000_0000
  {
    Pow2Add(8, 8);
    Pow2Add(16, 8);
    Pow2Add(24, 7);
    assert Pow2(4) == 16;
    assert Pow2(8) == 256;
  }

  lemma TopBitSet(x: int, m: nat)
    requires 0 < x < 0x4000_0000 && m == CoreBits.BitLength(x)
    ensures 0 < m <= 31 && x / Pow2(m) == 0 && BitAt(x, m - 1) == 1
  {
    hide Pow2, CoreBits.BitLength;
    CoreBits.BitLengthBounds(x);
    Pow2Zero();
    PowThirtyOne();
    if m == 0 || m > 31 {
      if m > 31 {
        Pow2Monotone(31, m - 1);
      }
      assert false;
    }
    DivUnique(x, Pow2(m), 0, x);
    Pow2Step(m - 1);
    DivUnique(x, Pow2(m - 1), 1, x - Pow2(m - 1));
  }

  /** The least power of two that is not below v. */
  function CeilPow2(v: nat): nat
    requires v > 0
  {
    Pow2(CoreBits.BitLength(v - 1))
  }

  lemma CeilPow2Least(v: nat, k: nat)
    requires v > 0
    ensures v <= CeilPow2(v) < 2 * v && (v <= Pow2(k) ==> CeilPow2(v) <= Pow2(k))
  {
    hide Pow2;
    CoreBits.BitLengthBounds(v - 1);
    var m := CoreBits.BitLength(v - 1);
    Pow2Zero();
    if v > 1 {
      Pow2Step(m - 1);
    }
    if v <= Pow2(k) < CeilPow2(v) {
      if k >= m {
        Pow2Monotone(m, k);
      } else {
        Pow2Monotone(k, m - 1);
      }
      assert false;
    }
  }

  /** v is its own next power exactly if it is a power of two. */
  lemma CeilPow2Fixed(v: nat)
    requires v > 0
    ensures v == CeilPow2(v) <==> exists k: nat :: v == Pow2(k)
  {
    if v == CeilPow2(v) {
      assert v == Pow2(CoreBits.BitLength(v - 1));
    }
    if k: nat :| v == Pow2(k) {
      CeilPow2Least(v, k);
    }
  }

  /** Past a power of two the next one is twice as large; otherwise it stays. */
  lemma CeilPow2Next(v: nat)
    requires v > 0
    ensures CeilPow2(v + 1) == if v == CeilPow2(v) then 2 * v else CeilPow2(v)
  {
    hide Pow2;
    var m := CoreBits.BitLength(v - 1);
    CeilPow2Least(v, 0);
    CoreBits.BitLengthBounds(v - 1);
    Pow2Zero();
    Pow2Step(m);
    if v == Pow2(m) {
      CoreBits.BitLengthUnique(v, m + 1);
    } else {
      CoreBits.BitLengthUnique(v, m);
    }
  }

  /** NextHighestPowerOfTwo: overflow beyond 2^30 and at INT_MIN is left to the caller. */
  method NextHighestPowerOfTwo(v0: int) returns (v: int)
    requires -0x8000_0000 < v0 <= 0x4000_0000
    ensures v == if v0 <= 0 then 0 else CeilPow2(v0)
  {
    hide Smeared, Or, Pow2;
    v := v0 - 1;
    ghost var m, lo, t := Width(v), Lead(v), if v < 0 then -1 else 0;
    LeadingBit(v);
    SmearStep(v, lo, m, t, 1);
    v := Or(v, v / Pow2(1));
    lo := if lo <= 1 then 0 else lo - 1;
    SmearStep(v, lo, m, t, 2);
    v := Or(v, v / Pow2(2));
    lo := if lo <= 2 then 0 else lo - 2;
    SmearStep(v, lo, m, t, 4);
    v := Or(v, v / Pow2(4));
    lo := if lo <= 4 then 0 else lo - 4;
    SmearStep(v, lo, m, t, 8);
    v := Or(v, v / Pow2(8));
    lo := if lo <= 8 then 0 else lo - 8;
    SmearStep(v, lo, m, t, 16);
    v := Or(v, v / Pow2(16));
    AllOnes(v, m, t);
    v := v + 1;
  }

  // ---- Keywords ---------------------------------------------------------------------------------

  ghost predicate OccursAt(s: string, key: string, i: nat) {
    i + |key| <= |s| && s[i..i + |key|] == key
  }

  /** strstr: the first place where key occurs, from position i on; -1 for none. */
  function Strstr(s: string, key: string, i: nat := 0): (r: int)
    requires i <= |s|
    ensures r == -1 || (i <= r <= |s| && OccursAt(s, key, r))
    ensures forall j: nat :: i <= j < (if r < 0 then |s| + 1 else r) ==> !OccursAt(s, key, j)
    decreases |s| - i
  {
    if i + |key| > |s| then -1
    else if s[i..i + |key|] == key then i
    else Strstr(s, key, i + 1)
  }

  /** Where the first occurrence of the keyword ends. */
  function GetKeywordIndex(s: string, key: string): (r: int)
    requires |s| <= INT_MAX
    ensures r == -1 <==> forall j: nat :: !OccursAt(s, key, j)
    ensures r != -1 ==>
              |key| <= r <= |s| && OccursAt(s, key, r - |key|) && forall j: nat :: j < r - |key| ==> !OccursAt(s, key, j)
  {
    var at := Strstr(s, key);
    if at == -1 then OTHER_ERROR else at + |key|
  }
}
