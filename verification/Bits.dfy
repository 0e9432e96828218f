/** Bits of limb strings. */
module Bits {
  import opened Arith
  import opened Words

  /** Bit k of v. */
  function Bit(v: nat, k: nat): (b: nat)
    ensures b <= 1
  {
    v / Pow2(k) % 2
  }

  lemma DivDiv(v: int, a: int, b: int)
    requires a > 0 && b > 0
    ensures a * b > 0 && v / (a * b) == v / a / b
  {
    var q, r := v / a, v % a;
    var q', r' := q / b, q % b;
    MulPos(a, b);
    assert a * b > 0 by {
      MulMono(1, a, b);
    }
    assert v == q' * (a * b) + (r' * a + r) by {
      assert v == a * q + r && q == b * q' + r';
      assert a * (b * q' + r') == q' * (a * b) + r' * a;
    }
    MulMono(r', b - 1, a);
    assert (b - 1) * a == a * b - a;
    MulPos(r', a);
    DivUnique(v, a * b, q', r' * a + r);
  }

  /** Dropping one bit less: v >> k == 2 * (v >> (k + 1)) + bit k. */
  lemma PrefixStep(v: nat, k: nat)
    ensures v / Pow2(k) == 2 * (v / Pow2(k + 1)) + Bit(v, k)
  {
    DivDiv(v, Pow2(k), 2);
    assert Pow2(k + 1) == Pow2(k) * 2;
  }

  /** A shift past the length leaves nothing. */
  lemma PrefixEmpty(v: nat, k: nat)
    requires v < Pow2(k)
    ensures v / Pow2(k) == 0
  {
    DivUnique(v, Pow2(k), 0, v);
  }

  lemma ShiftedSum(lo: int, p: int, x: int)
    requires p > 0 && 0 <= lo < p
    ensures (lo + p * x) / p == x && (lo + p * x) % p == lo
  {
    DivUnique(lo + p * x, p, x, lo);
  }

  /** Bit 32 * i + j of a number is bit j of its limb i. */
  lemma LimbBit(s: seq<Limb>, i: nat, j: nat)
    requires i < |s| && j < 32
    ensures Bit(Val(s), 32 * i + j) == Bit(s[i], j)
  {
    hide Val, BPow, Pow2;
    ValSplit(s, i);
    ValHead(s[i..]);
    ValBound(s[..i]);
    BPowBits(i);
    var hi := Val(s[i..][1..]);
    ShiftedSum(Val(s[..i]), BPow(i), Val(s[i..]));
    Pow2Add(32 * i, j);
    DivDiv(Val(s), Pow2(32 * i), Pow2(j));
    LowBit(s[i], hi, j);
  }

  lemma LowBit(x: Limb, hi: nat, j: nat)
    requires j < 32
    ensures (x + BETA * hi) / Pow2(j) % 2 == x / Pow2(j) % 2
  {
    Pow2Limb();
    Pow2Add(j, 32 - j);
    ParityUnderShift(x, hi, Pow2(j), Pow2(31 - j));
  }

  lemma ParityUnderShift(x: int, hi: int, p: int, m: int)
    requires p > 0 && p * (2 * m) == BETA
    ensures (x + BETA * hi) / p % 2 == x / p % 2
  {
    var q, r := x / p, x % p;
    assert BETA * hi == (2 * (m * hi)) * p by {
      assert (p * (2 * m)) * hi == (2 * (m * hi)) * p;
    }
    assert x + BETA * hi == (q + 2 * (m * hi)) * p + r;
    DivUnique(x + BETA * hi, p, q + 2 * (m * hi), r);
    DivUnique(q + 2 * (m * hi), 2, q / 2 + m * hi, q % 2);
  }
}
