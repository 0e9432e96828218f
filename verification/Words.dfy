/** Machine words: limbs, their numeric value, and the powers of the limb base. */
module Words {
  import opened Arith

  /** The limb base 2^biL, for limbs of biL = 32 bits. */
  const BETA: nat := 0x1_0000_0000

  type Limb = x: int | 0 <= x < 0x1_0000_0000

  /** BETA^k. */
  function BPow(k: nat): (p: nat)
    ensures p > 0
  {
    if k == 0 then 1 else BETA * BPow(k - 1)
  }

  /** The number a little-endian limb string denotes. */
  function Val(s: seq<Limb>): nat {
    if s == [] then 0 else s[0] + BETA * Val(s[1..])
  }

  lemma ValHead(s: seq<Limb>)
    requires s != []
    ensures Val(s) == s[0] + BETA * Val(s[1..])
  {
  }

  lemma {:induction false} BPowAdd(a: nat, b: nat)
    ensures BPow(a + b) == BPow(a) * BPow(b)
  {
    if a > 0 {
      BPowAdd(a - 1, b);
      MulAssoc(BETA, BPow(a - 1), BPow(b));
    }
  }

  lemma {:induction false} ValSplit(s: seq<Limb>, i: nat)
    requires i <= |s|
    ensures Val(s) == Val(s[..i]) + BPow(i) * Val(s[i..])
  {
    if i == 0 {
      assert s[..0] == [] && s[0..] == s;
    } else {
      ValSplit(s[1..], i - 1);
      assert s[1..][..i - 1] == s[..i][1..] && s[1..][i - 1..] == s[i..];
      MulAssoc(BETA, BPow(i - 1), Val(s[i..]));
    }
  }

  /** v is lo below position p and hi from there on. */
  ghost predicate Parts(v: int, lo: int, p: int, hi: int) {
    v == lo + p * hi
  }

  lemma ValParts(s: seq<Limb>, i: nat)
    requires i <= |s|
    ensures Parts(Val(s), Val(s[..i]), BPow(i), Val(s[i..]))
  {
    ValSplit(s, i);
  }

  lemma {:induction false} ValStep(s: seq<Limb>, i: nat)
    requires i < |s|
    ensures Val(s[..i + 1]) == Val(s[..i]) + s[i] * BPow(i)
  {
    ValSplit(s[..i + 1], i);
    assert s[..i + 1][..i] == s[..i] && s[..i + 1][i..] == [s[i]];
    assert Val([s[i]]) == s[i] + BETA * Val([s[i]][1..]);
    assert Val([s[i]]) == s[i];
  }

  lemma {:induction false} ValBound(s: seq<Limb>)
    ensures Val(s) < BPow(|s|)
  {
    if s != [] {
      ValBound(s[1..]);
    }
  }

  lemma {:induction false} ValZeros(s: seq<Limb>)
    requires forall k :: 0 <= k < |s| ==> s[k] == 0
    ensures Val(s) == 0
  {
    if s != [] {
      ValZeros(s[1..]);
    }
  }

  /** A value below BETA^k leaves no non-zero limb from position k upwards. */
  lemma {:induction false} ValHighZero(s: seq<Limb>, k: nat)
    requires k <= |s|
    requires Val(s) < BPow(k)
    ensures Val(s[..k]) == Val(s)
    ensures forall j :: k <= j < |s| ==> s[j] == 0
  {
    ValSplit(s, k);
    NoHighPart(Val(s), Val(s[..k]), BPow(k), Val(s[k..]));
    ValZeroLimbs(s[k..]);
    forall j | k <= j < |s| ensures s[j] == 0 {
      assert s[j] == s[k..][j - k];
    }
  }

  lemma {:induction false} ValZeroLimbs(s: seq<Limb>)
    requires Val(s) == 0
    ensures forall j :: 0 <= j < |s| ==> s[j] == 0
  {
    if s != [] {
      ValZeroLimbs(s[1..]);
      forall j | 0 <= j < |s| ensures s[j] == 0 {
        if j > 0 {
          assert s[j] == s[1..][j - 1];
        }
      }
    }
  }

  /** Zero limbs on top do not change the value. */
  lemma ValTrim(s: seq<Limb>, k: nat)
    requires k <= |s|
    requires forall j :: k <= j < |s| ==> s[j] == 0
    ensures Val(s) == Val(s[..k])
  {
    ValSplit(s, k);
    ValZeros(s[k..]);
  }

  /** Limb strings of one length are equal when their values are. */
  lemma {:induction false} ValInjective(s: seq<Limb>, t: seq<Limb>)
    requires |s| == |t| && Val(s) == Val(t)
    ensures s == t
  {
    if s != [] {
      assert s[0] == t[0] && Val(s[1..]) == Val(t[1..]);
      ValInjective(s[1..], t[1..]);
      assert s == [s[0]] + s[1..] && t == [t[0]] + t[1..];
    }
  }

  lemma {:induction false} BPowMonotone(m: nat, n: nat)
    requires m <= n
    ensures BPow(m) <= BPow(n)
    decreases n - m
  {
    if m < n {
      BPowMonotone(m + 1, n);
    }
  }

  lemma Pow2Limb()
    ensures Pow2(4) == 16 && Pow2(8) == 0x100 && Pow2(16) == 0x1_0000 && Pow2(32) == BETA
  {
    assert Pow2(2) == 4;
    Pow2Add(2, 2);
    Pow2Add(4, 4);
    Pow2Add(8, 8);
    Pow2Add(16, 16);
  }

  lemma {:induction false} BPowBits(k: nat)
    ensures BPow(k) == Pow2(32 * k)
  {
    if k > 0 {
      BPowBits(k - 1);
      Pow2Add(32, 32 * (k - 1));
      Pow2Limb();
    }
  }
}
