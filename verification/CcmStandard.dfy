/** The definitions of Ccm written out byte by byte, as sections 2.2 and 2.3 of RFC 3610 have them. */
module CcmStandard {
  import opened Arith
  import opened Bytes
  import opened Blocks
  import opened Ccm

  // ---- Fields ------------------------------------------------------------------------------

  lemma ModParts(n: nat, p: nat)
    requires p > 0
    ensures n % (256 * p) == n / 256 % p * 256 + n % 256
  {
    var q, e := n / 256, n % 256;
    var f, g := q / p, q % p;
    assert n == f * (256 * p) + (256 * g + e) by {
      assert 256 * (f * p + g) == f * (256 * p) + 256 * g;
    }
    DivUnique(n, 256 * p, f, 256 * g + e);
  }

  /** A field of q bytes holds the number modulo 256^q, and is the only one that does. */
  lemma {:induction false} FieldValue(n: nat, q: nat)
    ensures BeVal(BeBytes(n, q)) == n % Pow256(q)
  {
    var s := BeBytes(n, q);
    if q == 0 {
      assert Rev(s) == [];
    } else {
      FieldValue(n / 256, q - 1);
      assert Rev(s)[0] == n % 256 && Rev(s)[1..] == Rev(BeBytes(n / 256, q - 1));
      ModParts(n, Pow256(q - 1));
    }
  }

  lemma FieldIs(c: seq<Byte>, n: nat)
    requires BeVal(c) == n % Pow256(|c|)
    ensures c == BeBytes(n, |c|)
  {
    FieldValue(n, |c|);
    BeInjective(c, BeBytes(n, |c|));
  }

  // ---- Section 2.3: encryption ------------------------------------------------------------------

  /** Byte n of the message is combined with byte n % 16 of the encryption of flags, nonce and counter 1 + n / 16. */
  lemma CtrByteMeans(E: Block -> Block, nonce: seq<Byte>, from: nat, data: seq<Byte>, k: nat, counter: seq<Byte>)
    requires 7 <= |nonce| <= 13 && k < |data| && |counter| == 15 - |nonce|
    requires BeVal(counter) == (1 + (from + k) / 16) % Pow256(|counter|)
    ensures CtrCrypt(E, nonce, from, data)[k] == Xor8(data[k], E([14 - |nonce|] + nonce + counter)[(from + k) % 16])
  {
    hide Xor8, BeVal, BeBytes;
    FieldIs(counter, 1 + (from + k) / 16);
    assert CtrCrypt(E, nonce, from, data)[k] == Xor8(data[k], KeyByte(E, nonce, from + k));
  }

  // ---- Section 2.2: authentication ----------------------------------------------------------------

  ghost predicate AllZero(s: seq<Byte>) {
    forall k :: 0 <= k < |s| ==> s[k] == 0
  }

  /** B_0, B_1, ...: flags, nonce and message length; the length of the associated data and that data, filled up with
      zeros; the message, filled up with zeros. */
  ghost predicate Formatted(b: seq<Byte>, nonce: seq<Byte>, ad: seq<Byte>, msg: seq<Byte>, t: nat,
                            length: seq<Byte>, z: seq<Byte>, y: seq<Byte>)
    requires 7 <= |nonce| <= 13 && t in {4, 6, 8, 10, 12, 14, 16} && |ad| < 0xFF00
  {
    && |length| == 15 - |nonce| && BeVal(length) == |msg|
    && AllZero(z) && AllZero(y) && |z| < 16 && |y| < 16
    && (ad == [] ==> z == []) && (ad != [] ==> (2 + |ad| + |z|) % 16 == 0) && (|msg| + |y|) % 16 == 0
    && b == [(if ad == [] then 0 else 64) + 8 * ((t - 2) / 2) + (14 - |nonce|)] + nonce + length
          + (if ad == [] then [] else [|ad| / 256, |ad| % 256] + ad + z) + (msg + y)
  }

  /** X_1 is the encryption of B_0, and X_{i+1} that of X_i combined with B_i. */
  ghost predicate Chained(E: Block -> Block, b: seq<Byte>, X: seq<Block>)
    requires |b| > 0 && |b| % 16 == 0
  {
    && |X| == |b| / 16 && X[0] == E(b[..16])
    && forall i :: 0 < i < |X| ==> X[i] == E(Xor(X[i - 1], b[16 * i..16 * i + 16]))
  }

  lemma XorAtIsXor(x: Block, b: Block)
    ensures XorAt(x, 0, b) == Xor(x, b)
  {
  }

  lemma {:induction false} FoldIsChain(E: Block -> Block, b: seq<Byte>, X: seq<Block>, i: nat)
    requires |b| > 0 && |b| % 16 == 0 && Chained(E, b, X) && i < |X|
    ensures Fold(E, X[i], b[16 * i + 16..]) == X[|X| - 1]
    decreases |X| - i
  {
    hide Xor, XorAt;
    var s := b[16 * i + 16..];
    if i + 1 < |X| {
      assert s[..16] == b[16 * (i + 1)..16 * (i + 1) + 16] && s[16..] == b[16 * (i + 1) + 16..];
      XorAtIsXor(X[i], s[..16]);
      FoldIsChain(E, b, X, i + 1);
    } else {
      assert s == [];
    }
  }

  lemma FillsUp(s: seq<Byte>, z: seq<Byte>)
    requires AllZero(z) && |z| < 16 && (|s| + |z|) % 16 == 0
    ensures Pad16(s) == s + z
  {
    assert |z| == (16 - |s| % 16) % 16;
    assert z == Zeros(|z|);
  }

  /** The formatted blocks are those of the definition. */
  lemma FormattedIs(b: seq<Byte>, nonce: seq<Byte>, ad: seq<Byte>, msg: seq<Byte>, t: nat,
                    length: seq<Byte>, z: seq<Byte>, y: seq<Byte>)
    requires 7 <= |nonce| <= 13 && t in {4, 6, 8, 10, 12, 14, 16} && |ad| < 0xFF00 && |msg| < Pow(256, 15 - |nonce|)
    requires Formatted(b, nonce, ad, msg, t, length, z, y)
    ensures b == MacInput(FirstBlock(nonce, |ad|, |msg|, t), AdBlocks(ad), Pad16(msg))
  {
    hide BeBytes, BeVal, Pad16, AdBlocks, FirstBlock;
    FirstIs(nonce, ad, |msg|, t, length);
    AdIs(ad, z);
    FillsUp(msg, y);
  }

  lemma FirstIs(nonce: seq<Byte>, ad: seq<Byte>, l: nat, t: nat, length: seq<Byte>)
    requires 7 <= |nonce| <= 13 && t in {4, 6, 8, 10, 12, 14, 16} && |length| == 15 - |nonce|
    requires l < Pow(256, |length|) && BeVal(length) == l
    ensures FirstBlock(nonce, |ad|, l, t)
         == [(if ad == [] then 0 else 64) + 8 * ((t - 2) / 2) + (14 - |nonce|)] + nonce + length
  {
    hide BeBytes, BeVal;
    PowersOf256(|length|);
    BelowPower(l, Pow256(|length|));
    FieldIs(length, l);
  }

  lemma AdIs(ad: seq<Byte>, z: seq<Byte>)
    requires |ad| < 0xFF00 && AllZero(z) && |z| < 16 && (ad == [] ==> z == []) && (ad != [] ==> (2 + |ad| + |z|) % 16 == 0)
    ensures AdBlocks(ad) == if ad == [] then [] else [|ad| / 256, |ad| % 256] + ad + z
  {
    hide BeBytes, Pad16;
    if ad != [] {
      TwoOctets(|ad|);
      FillsUp(AdField(|ad|, ad), z);
    }
  }

  lemma BelowPower(n: nat, p: int)
    requires n < p
    ensures n % p == n
  {
    DivUnique(n, p, 0, n);
  }

  /** The authentication value is the last of the chain, combined with the encryption of counter zero. */
  lemma TagMeans(E: Block -> Block, nonce: seq<Byte>, ad: seq<Byte>, msg: seq<Byte>, t: nat,
                 b: seq<Byte>, length: seq<Byte>, z: seq<Byte>, y: seq<Byte>, X: seq<Block>, zeros: seq<Byte>)
    requires 7 <= |nonce| <= 13 && t in {4, 6, 8, 10, 12, 14, 16} && |ad| < 0xFF00 && |msg| < Pow(256, 15 - |nonce|)
    requires Formatted(b, nonce, ad, msg, t, length, z, y) && |b| > 0 && |b| % 16 == 0 && Chained(E, b, X)
    requires |zeros| == 15 - |nonce| && AllZero(zeros)
    ensures RfcTag(E, nonce, ad, msg, t) == Xor(X[|X| - 1], E([14 - |nonce|] + nonce + zeros))
  {
    hide Fold, Xor, BeBytes, FirstBlock, AdBlocks, Formatted;
    FormattedIs(b, nonce, ad, msg, t, length, z, y);
    FoldFirst(E, b);
    FoldIsChain(E, b, X, 0);
    SmallField(15 - |nonce|);
    assert zeros == Zeros(15 - |nonce|);
  }

  lemma FoldFirst(E: Block -> Block, b: seq<Byte>)
    requires |b| > 0 && |b| % 16 == 0
    ensures Fold(E, Zeros(16), b) == Fold(E, E(b[..16]), b[16..])
  {
    hide XorAt;
    XorZeroBlock(b[..16]);
  }
}
