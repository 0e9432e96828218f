/** Camellia's data path and its decryption keys (camellia.c), section 2.3 of RFC 3713, for arbitrary S-boxes. */
module Camellia {
  import opened Rotations
  import opened CamelliaF
  import opened CamelliaKeys

  datatype State = State(a: Word, b: Word, c: Word, d: Word)

  // ---- The layers --------------------------------------------------------------------

  /** A round from the left half into the right one. */
  function LeftRound(t: Boxes, s: State, k0: Word, k1: Word): State {
    var f := F(t, s.a, s.b, k0, k1);
    s.(c := Mix(s.c, f.0), d := Mix(s.d, f.1))
  }

  /** A round from the right half into the left one. */
  function RightRound(t: Boxes, s: State, k0: Word, k1: Word): State {
    var f := F(t, s.c, s.d, k0, k1);
    s.(a := Mix(s.a, f.0), b := Mix(s.b, f.1))
  }

  /** FL on the left half, its inverse on the right one. */
  function Layer(s: State, k0: Word, k1: Word, k2: Word, k3: Word): State {
    var l, r := FL((s.a, s.b), k0, k1), FLInv((s.c, s.d), k2, k3);
    State(l.0, l.1, r.0, r.1)
  }

  function SixRounds(t: Boxes, s: State, rk: seq<Word>, p: nat): State
    requires p + 12 <= |rk|
  {
    var s1 := LeftRound(t, s, rk[p], rk[p + 1]);
    var s2 := RightRound(t, s1, rk[p + 2], rk[p + 3]);
    var s3 := LeftRound(t, s2, rk[p + 4], rk[p + 5]);
    var s4 := RightRound(t, s3, rk[p + 6], rk[p + 7]);
    var s5 := LeftRound(t, s4, rk[p + 8], rk[p + 9]);
    RightRound(t, s5, rk[p + 10], rk[p + 11])
  }

  /** n groups of six rounds with an FL layer between them, keys from position p on. */
  function Groups(t: Boxes, s: State, rk: seq<Word>, p: nat, n: nat): State
    requires n > 0 && p + 16 * n - 4 <= |rk|
    decreases n
  {
    var x := SixRounds(t, s, rk, p);
    if n == 1 then x
    else Groups(t, Layer(x, rk[p + 12], rk[p + 13], rk[p + 14], rk[p + 15]), rk, p + 16, n - 1)
  }

  function Whitened(s: State, rk: seq<Word>, p: nat): State
    requires p + 4 <= |rk|
  {
    State(Mix(s.a, rk[p]), Mix(s.b, rk[p + 1]), Mix(s.c, rk[p + 2]), Mix(s.d, rk[p + 3]))
  }

  function Swap(s: State): State {
    State(s.c, s.d, s.a, s.b)
  }

  /** Where the last four key words start. */
  function LastKeys(nr: nat): nat
    requires nr > 0
  {
    16 * nr
  }

  /** One block: whitening, the groups, halves swapped, whitening. */
  function Crypt(t: Boxes, rk: seq<Word>, nr: nat, s: State): State
    requires nr > 0 && LastKeys(nr) + 4 <= |rk|
  {
    Whitened(Swap(Groups(t, Whitened(s, rk, 0), rk, 4, nr)), rk, LastKeys(nr))
  }

  // ---- Decryption keys undo encryption ---------------------------------------------------

  /** Keys x hold the pairs of keys y in the opposite order, n pairs from p and from q on. */
  ghost predicate PairsReversed(x: seq<Word>, p: nat, y: seq<Word>, q: nat, n: nat) {
    && p + 2 * n <= |x| && q + 2 * n <= |y|
    && forall i :: 0 <= i < n ==> x[p + 2 * i] == y[q + 2 * (n - 1 - i)] && x[p + 2 * i + 1] == y[q + 2 * (n - 1 - i) + 1]
  }

  lemma PairAt(x: seq<Word>, p: nat, y: seq<Word>, q: nat, n: nat, i: nat)
    requires i < n && PairsReversed(x, p, y, q, n)
    ensures x[p + 2 * i] == y[q + 2 * (n - 1 - i)] && x[p + 2 * i + 1] == y[q + 2 * (n - 1 - i) + 1]
  {
  }

  /** What setkey_dec makes of the encryption keys. */
  ghost predicate DecryptionKeys(rkd: seq<Word>, rk: seq<Word>, nr: nat)
    requires nr > 0
  {
    && LastKeys(nr) + 4 <= |rk| && LastKeys(nr) + 4 <= |rkd|
    && rkd[..4] == rk[LastKeys(nr)..LastKeys(nr) + 4]
    && PairsReversed(rkd, 4, rk, 4, 8 * nr - 2)
    && rkd[LastKeys(nr)..LastKeys(nr) + 4] == rk[..4]
  }

  lemma RightUndone(t: Boxes, s: State, k0: Word, k1: Word)
    ensures LeftRound(t, Swap(RightRound(t, s, k0, k1)), k0, k1) == Swap(s)
  {
    hide F, Mix;
    var f := F(t, s.c, s.d, k0, k1);
    MixTwice(s.a, f.0);
    MixTwice(s.b, f.1);
  }

  lemma LeftUndone(t: Boxes, s: State, k0: Word, k1: Word)
    ensures RightRound(t, Swap(LeftRound(t, s, k0, k1)), k0, k1) == Swap(s)
  {
    hide F, Mix;
    var f := F(t, s.a, s.b, k0, k1);
    MixTwice(s.c, f.0);
    MixTwice(s.d, f.1);
  }

  lemma FLUndone(x: (Word, Word), k0: Word, k1: Word)
    ensures FLInv(FL(x, k0, k1), k0, k1) == x && FL(FLInv(x, k0, k1), k0, k1) == x
  {
    hide AndRotate, Or, Mix;
    var r := Mix(AndRotate(x.0, k0), x.1);
    MixTwice(Or(r, k1), x.0);
    MixTwice(AndRotate(x.0, k0), x.1);
    var l := Mix(Or(x.1, k1), x.0);
    MixTwice(Or(x.1, k1), x.0);
    MixTwice(AndRotate(l, k0), x.1);
  }

  lemma LayerUndone(s: State, k0: Word, k1: Word, k2: Word, k3: Word)
    ensures Layer(Swap(Layer(s, k0, k1, k2, k3)), k2, k3, k0, k1) == Swap(s)
  {
    hide FL, FLInv;
    FLUndone((s.a, s.b), k0, k1);
    FLUndone((s.c, s.d), k2, k3);
  }

  lemma SixUndone(t: Boxes, s: State, rk: seq<Word>, p: nat, rkd: seq<Word>, q: nat)
    requires p + 12 <= |rk| && PairsReversed(rkd, q, rk, p, 6)
    ensures SixRounds(t, Swap(SixRounds(t, s, rk, p)), rkd, q) == Swap(s)
  {
    hide LeftRound, RightRound, Swap, PairsReversed;
    PairAt(rkd, q, rk, p, 6, 0);
    PairAt(rkd, q, rk, p, 6, 1);
    PairAt(rkd, q, rk, p, 6, 2);
    PairAt(rkd, q, rk, p, 6, 3);
    PairAt(rkd, q, rk, p, 6, 4);
    PairAt(rkd, q, rk, p, 6, 5);
    var s1 := LeftRound(t, s, rk[p], rk[p + 1]);
    var s2 := RightRound(t, s1, rk[p + 2], rk[p + 3]);
    var s3 := LeftRound(t, s2, rk[p + 4], rk[p + 5]);
    var s4 := RightRound(t, s3, rk[p + 6], rk[p + 7]);
    var s5 := LeftRound(t, s4, rk[p + 8], rk[p + 9]);
    RightUndone(t, s5, rk[p + 10], rk[p + 11]);
    LeftUndone(t, s4, rk[p + 8], rk[p + 9]);
    RightUndone(t, s3, rk[p + 6], rk[p + 7]);
    LeftUndone(t, s2, rk[p + 4], rk[p + 5]);
    RightUndone(t, s1, rk[p + 2], rk[p + 3]);
    LeftUndone(t, s, rk[p], rk[p + 1]);
  }

  /** The last group, taken off the end. */
  lemma {:induction false} LastGroup(t: Boxes, s: State, rk: seq<Word>, p: nat, n: nat)
    requires n > 1 && p + 16 * n - 4 <= |rk|
    ensures var e := p + 16 * (n - 1);
            Groups(t, s, rk, p, n)
            == SixRounds(t, Layer(Groups(t, s, rk, p, n - 1), rk[e - 4], rk[e - 3], rk[e - 2], rk[e - 1]), rk, e)
    decreases n
  {
    hide SixRounds, Layer;
    if n > 2 {
      LastGroup(t, Layer(SixRounds(t, s, rk, p), rk[p + 12], rk[p + 13], rk[p + 14], rk[p + 15]), rk, p + 16, n - 1);
    }
  }

  /** A range of reversed pairs, cut: the first m of x are the last m of y. */
  lemma CutPairs(x: seq<Word>, p: nat, y: seq<Word>, q: nat, n: nat, m: nat)
    requires m <= n && PairsReversed(x, p, y, q, n)
    ensures PairsReversed(x, p, y, q + 2 * (n - m), m)
    ensures PairsReversed(x, p + 2 * m, y, q, n - m)
  {
    forall i | 0 <= i < m
      ensures x[p + 2 * i] == y[q + 2 * (n - m) + 2 * (m - 1 - i)] && x[p + 2 * i + 1] == y[q + 2 * (n - m) + 2 * (m - 1 - i) + 1]
    {
      PairAt(x, p, y, q, n, i);
    }
    forall i | 0 <= i < n - m
      ensures x[p + 2 * m + 2 * i] == y[q + 2 * (n - m - 1 - i)] && x[p + 2 * m + 2 * i + 1] == y[q + 2 * (n - m - 1 - i) + 1]
    {
      PairAt(x, p, y, q, n, m + i);
    }
  }

  lemma {:induction false} GroupsUndone(t: Boxes, s: State, rk: seq<Word>, p: nat, rkd: seq<Word>, q: nat, n: nat)
    requires n > 0 && p + 16 * n - 4 <= |rk| && PairsReversed(rkd, q, rk, p, 8 * n - 2)
    ensures q + 16 * n - 4 <= |rkd| && Groups(t, Swap(Groups(t, s, rk, p, n)), rkd, q, n) == Swap(s)
    decreases n
  {
    hide SixRounds, Layer, Swap, PairsReversed;
    PairAt(rkd, q, rk, p, 8 * n - 2, 0);
    EnoughKeys(rkd, q, rk, p, 8 * n - 2);
    if n == 1 {
      SixUndone(t, s, rk, p, rkd, q);
    } else {
      var before := Groups(t, s, rk, p, n - 1);
      LastGroup(t, s, rk, p, n);
      LastUndone(t, before, rk, p, rkd, q, n);
      CutPairs(rkd, q, rk, p, 8 * n - 2, 8);
      GroupsUndone(t, s, rk, p, rkd, q + 16, n - 1);
    }
  }

  /** The last group and the layer before it, undone by the first group and layer of the decryption. */
  lemma LastUndone(t: Boxes, before: State, rk: seq<Word>, p: nat, rkd: seq<Word>, q: nat, n: nat)
    requires n > 1 && p + 16 * n - 4 <= |rk| && q + 16 * n - 4 <= |rkd| && PairsReversed(rkd, q, rk, p, 8 * n - 2)
    ensures var e := p + 16 * (n - 1);
            var x := SixRounds(t, Layer(before, rk[e - 4], rk[e - 3], rk[e - 2], rk[e - 1]), rk, e);
            Layer(SixRounds(t, Swap(x), rkd, q), rkd[q + 12], rkd[q + 13], rkd[q + 14], rkd[q + 15]) == Swap(before)
  {
    hide SixRounds, Layer, Swap, PairsReversed;
    var e := p + 16 * (n - 1);
    CutPairs(rkd, q, rk, p, 8 * n - 2, 6);
    SixUndone(t, Layer(before, rk[e - 4], rk[e - 3], rk[e - 2], rk[e - 1]), rk, e, rkd, q);
    PairAt(rkd, q, rk, p, 8 * n - 2, 6);
    PairAt(rkd, q, rk, p, 8 * n - 2, 7);
    LayerUndone(before, rk[e - 4], rk[e - 3], rk[e - 2], rk[e - 1]);
  }

  lemma EnoughKeys(x: seq<Word>, p: nat, y: seq<Word>, q: nat, n: nat)
    requires PairsReversed(x, p, y, q, n)
    ensures p + 2 * n <= |x|
  {
  }

  lemma WhitenedTwice(s: State, x: seq<Word>, p: nat, y: seq<Word>, q: nat)
    requires p + 4 <= |x| && q + 4 <= |y| && x[p..p + 4] == y[q..q + 4]
    ensures Whitened(Whitened(s, x, p), y, q) == s
  {
    hide Mix;
    var k, l := x[p..p + 4], y[q..q + 4];
    assert k[0] == l[0] && k[1] == l[1] && k[2] == l[2] && k[3] == l[3];
    MixTwice(s.a, x[p]);
    MixTwice(s.b, x[p + 1]);
    MixTwice(s.c, x[p + 2]);
    MixTwice(s.d, x[p + 3]);
  }

  /** The same data path with the decryption keys undoes encryption, for both key array sizes. */
  lemma CryptInverse(t: Boxes, rk: seq<Word>, rkd: seq<Word>, nr: nat, s: State)
    requires nr > 0 && DecryptionKeys(rkd, rk, nr)
    ensures Crypt(t, rkd, nr, Crypt(t, rk, nr, s)) == s
  {
    hide Groups, Whitened, PairsReversed, Swap;
    var e, w := LastKeys(nr), Whitened(s, rk, 0);
    var g := Swap(Groups(t, w, rk, 4, nr));
    WhitenedTwice(g, rk, e, rkd, 0);
    GroupsUndone(t, w, rk, 4, rkd, 4, nr);
    assert Groups(t, g, rkd, 4, nr) == Swap(w);
    SwapTwice(w);
    WhitenedTwice(s, rk, 0, rkd, e);
  }

  lemma SwapTwice(s: State)
    ensures Swap(Swap(s)) == s
  {
  }

  // ---- Blocks of sixteen bytes ---------------------------------------------------------------

  function StateOf(block: seq<Octet>): State
    requires |block| == 16
  {
    State(BeWord(block, 0), BeWord(block, 4), BeWord(block, 8), BeWord(block, 12))
  }

  /** MBEDTLS_PUT_UINT32_BE. */
  function PutWord(x: Word): (s: seq<Octet>)
    ensures |s| == 4
  {
    [OctetOf(x, 3), OctetOf(x, 2), OctetOf(x, 1), OctetOf(x, 0)]
  }

  function BlockOf(s: State): (block: seq<Octet>)
    ensures |block| == 16
  {
    PutWord(s.a) + PutWord(s.b) + PutWord(s.c) + PutWord(s.d)
  }

  lemma StateOfBlock(s: State)
    ensures StateOf(BlockOf(s)) == s
  {
    hide OctetsToWord, OctetOf;
    WordOctets(s.a);
    WordOctets(s.b);
    WordOctets(s.c);
    WordOctets(s.d);
  }

  lemma BlockOfState(block: seq<Octet>)
    requires |block| == 16
    ensures BlockOf(StateOf(block)) == block
  {
    hide OctetsToWord, OctetOf;
    OctetsBack(block[0], block[1], block[2], block[3]);
    OctetsBack(block[4], block[5], block[6], block[7]);
    OctetsBack(block[8], block[9], block[10], block[11]);
    OctetsBack(block[12], block[13], block[14], block[15]);
  }

  // ---- The context ----------------------------------------------------------------------

  /** mbedtls_camellia_context, with the tables it uses. */
  class Context {
    const boxes: Boxes
    const rk: array<Word>
    var nr: nat

    constructor (t: Boxes)
      ensures boxes == t && rk.Length == 68 && nr == 0 && fresh(rk)
    {
      boxes := t;
      rk := new Word[68];
      nr := 0;
    }

    ghost predicate Valid()
      reads this
    {
      rk.Length == 68 && (nr == 3 || nr == 4)
    }

    /** mbedtls_camellia_setkey_enc. */
    method SetkeyEnc(key: seq<Octet>, keybits: int) returns (ok: bool)
      requires rk.Length == 68 && (keybits in {128, 192, 256} ==> |key| == keybits / 8)
      modifies this, rk
      ensures ok <==> keybits in {128, 192, 256}
      ensures ok ==> Valid() && nr == (if keybits == 128 then 3 else 4) && rk[..] == RoundKeys(boxes, key)
      ensures !ok ==> nr == old(nr) && forall k :: 0 <= k < 68 ==> rk[k] == 0
    {
      hide RoundKeys;
      for i := 0 to 68
        invariant nr == old(nr) && forall k :: 0 <= k < i ==> rk[k] == 0
      {
        rk[i] := 0;
      }
      if keybits == 128 {
        nr := 3;
      } else if keybits == 192 || keybits == 256 {
        nr := 4;
      } else {
        return false;
      }
      MakeRoundKeys(boxes, key, rk);
      ok := true;
    }

    /** mbedtls_camellia_setkey_dec: the encryption keys, copied by two moving pointers. */
    method SetkeyDec(key: seq<Octet>, keybits: int) returns (ok: bool)
      requires rk.Length == 68 && (keybits in {128, 192, 256} ==> |key| == keybits / 8)
      modifies this, rk
      ensures ok <==> keybits in {128, 192, 256}
      ensures ok ==> Valid() && nr == (if keybits == 128 then 3 else 4) && DecryptionKeys(rk[..], RoundKeys(boxes, key), nr)
      ensures !ok ==> nr == old(nr) && rk[..] == old(rk[..])
    {
      hide PairsReversed, RoundKeys;
      var cty := new Context(boxes);
      ok := cty.SetkeyEnc(key, keybits);
      if !ok {
        return;
      }
      ghost var ks := RoundKeys(boxes, key);
      nr := cty.nr;
      var idx := if nr == 4 then 1 else 0;
      var RK, SK := 0, 24 * 2 + 8 * idx * 2;
      CopyWords(cty.rk, SK, RK, 4);
      RK, SK := RK + 4, SK + 4;
      RK, SK := CopyPairs(cty.rk, SK - 6, RK, 22 + 8 * idx);
      SK := SK - 2;
      ghost var before := rk[..];
      CopyWords(cty.rk, SK, RK, 4);
      SamePairs(before, rk[..], ks, 22 + 8 * idx);
      LastWords(rk[..], before, ks, 22 + 8 * idx, nr);
    }

    /** The middle loop: pairs in the opposite order, the source pointer stepping back by four after each. */
    method CopyPairs(src: array<Word>, SK0: int, RK0: nat, n: nat) returns (RK: nat, SK: int)
      requires src != rk && SK0 == 2 * n + 2 && RK0 == 4 && 4 + 2 * n <= rk.Length && 4 + 2 * n <= src.Length
      modifies rk
      ensures RK == 4 + 2 * n && SK == 2
      ensures rk[..4] == old(rk[..4]) && PairsReversed(rk[..], 4, src[..], 4, n)
    {
      hide PairsReversed;
      ghost var ks := src[..];
      RK, SK := RK0, SK0;
      var i := n;
      NoPairs(rk[..], ks, n);
      while i > 0
        invariant 0 <= i <= n && RK == 4 + 2 * (n - i) && SK == 2 + 2 * i && src[..] == ks
        invariant rk[..4] == old(rk[..4]) && PairsReversed(rk[..], 4, ks, 2 * i + 4, n - i)
      {
        ghost var before := rk[..];
        rk[RK] := src[SK];
        RK, SK := RK + 1, SK + 1;
        rk[RK] := src[SK];
        RK, SK := RK + 1, SK + 1;
        OnePair(before, rk[..], ks, 2 * i + 4, n - i);
        assert before[..4] == rk[..4];
        i := i - 1;
        SK := SK - 4;
      }
    }

    /** *RK++ = *SK++, n times. */
    method CopyWords(src: array<Word>, from: nat, to: nat, n: nat)
      requires src != rk && from + n <= src.Length && to + n <= rk.Length
      modifies rk
      ensures rk[to..to + n] == src[from..from + n]
      ensures rk[..to] == old(rk[..to]) && rk[to + n..] == old(rk[to + n..])
    {
      for i := 0 to n
        invariant rk[to..to + i] == src[from..from + i]
        invariant rk[..to] == old(rk[..to]) && rk[to + n..] == old(rk[to + n..])
      {
        rk[to + i] := src[from + i];
      }
    }

    /** camellia_feistel, from the words at xi into the words at zi. */
    method Feistel(X: array<Word>, xi: nat, k: nat, zi: nat)
      requires X.Length == 4 && X != rk && (xi, zi) in {(0, 2), (2, 0)} && k + 2 <= rk.Length
      modifies X
      ensures Of(X) == old(if xi == 0 then LeftRound(boxes, Of(X), rk[k], rk[k + 1]) else RightRound(boxes, Of(X), rk[k], rk[k + 1]))
    {
      hide Mix, F;
      CamelliaKeys.Feistel(boxes, X, xi, rk[k], rk[k + 1], zi);
    }

    /** mbedtls_camellia_crypt_ecb; the direction is in the keys. */
    method CryptEcb(input: seq<Octet>) returns (output: seq<Octet>)
      requires Valid() && |input| == 16
      ensures LastKeys(nr) + 4 <= rk.Length && output == BlockOf(Crypt(boxes, rk[..], nr, StateOf(input)))
    {
      hide Groups, SixRounds, Mix, Layer, Whitened, BeWord, OctetOf;
      var X := new Word[4];
      X[0], X[1], X[2], X[3] := BeWord(input, 0), BeWord(input, 4), BeWord(input, 8), BeWord(input, 12);
      ghost var keys := rk[..];
      Whiten(X, 0, false);
      ghost var start := Of(X);
      var NR, RK := nr, 4;
      while NR != 0
        invariant 0 <= NR <= nr && RK == (if NR == 0 then LastKeys(nr) else 4 + 16 * (nr - NR)) && rk[..] == keys
        invariant Groups(boxes, start, keys, 4, nr) == if NR == 0 then Of(X) else Groups(boxes, Of(X), keys, RK, NR)
      {
        NR := NR - 1;
        NextGroup(boxes, Of(X), keys, RK, NR + 1);
        SixFeistels(X, RK);
        RK := RK + 12;
        if NR != 0 {
          FLBoth(X, RK);
          RK := RK + 4;
        }
      }
      Whiten(X, RK, true);
      output := PutWord(X[2]) + PutWord(X[3]) + PutWord(X[0]) + PutWord(X[1]);
    }

    /** The four key words before the rounds, or (with the halves swapped) after them. */
    method Whiten(X: array<Word>, k: nat, swapped: bool)
      requires X.Length == 4 && X != rk && k + 4 <= rk.Length
      modifies X
      ensures if swapped then Swap(Of(X)) == Whitened(Swap(old(Of(X))), rk[..], k) else Of(X) == Whitened(old(Of(X)), rk[..], k)
    {
      hide Mix;
      if swapped {
        X[2] := Mix(X[2], rk[k]);
        X[3] := Mix(X[3], rk[k + 1]);
        X[0] := Mix(X[0], rk[k + 2]);
        X[1] := Mix(X[1], rk[k + 3]);
      } else {
        X[0] := Mix(X[0], rk[k]);
        X[1] := Mix(X[1], rk[k + 1]);
        X[2] := Mix(X[2], rk[k + 2]);
        X[3] := Mix(X[3], rk[k + 3]);
      }
    }

    method SixFeistels(X: array<Word>, k: nat)
      requires X.Length == 4 && X != rk && k + 12 <= rk.Length
      modifies X
      ensures Of(X) == SixRounds(boxes, old(Of(X)), rk[..], k)
    {
      hide LeftRound, RightRound;
      Feistel(X, 0, k, 2);
      Feistel(X, 2, k + 2, 0);
      Feistel(X, 0, k + 4, 2);
      Feistel(X, 2, k + 6, 0);
      Feistel(X, 0, k + 8, 2);
      Feistel(X, 2, k + 10, 0);
    }

    method FLBoth(X: array<Word>, k: nat)
      requires X.Length == 4 && X != rk && k + 4 <= rk.Length
      modifies X
      ensures Of(X) == Layer(old(Of(X)), rk[k], rk[k + 1], rk[k + 2], rk[k + 3])
    {
      hide Mix, Or, AndRotate;
      X[1] := Mix(AndRotate(X[0], rk[k]), X[1]);
      X[0] := Mix(Or(X[1], rk[k + 1]), X[0]);
      X[2] := Mix(Or(X[3], rk[k + 3]), X[2]);
      X[3] := Mix(AndRotate(X[2], rk[k + 2]), X[3]);
    }
  }

  /** The four words in an array. */
  ghost function Of(X: array<Word>): State
    requires X.Length == 4
    reads X
  {
    State(X[0], X[1], X[2], X[3])
  }

  lemma NextGroup(t: Boxes, s: State, rk: seq<Word>, p: nat, n: nat)
    requires n > 0 && p + 16 * n - 4 <= |rk|
    ensures Groups(t, s, rk, p, n) ==
            var x := SixRounds(t, s, rk, p);
            if n == 1 then x else Groups(t, Layer(x, rk[p + 12], rk[p + 13], rk[p + 14], rk[p + 15]), rk, p + 16, n - 1)
  {
  }

  lemma LastWords(x: seq<Word>, before: seq<Word>, ks: seq<Word>, n: nat, nr: nat)
    requires nr in {3, 4} && n == 8 * nr - 2 && |x| == |before| == |ks| == 68
    requires before[..4] == ks[2 * n + 4..2 * n + 8] && x[..2 * n + 4] == before[..2 * n + 4]
    requires x[2 * n + 4..2 * n + 8] == ks[0..4] && PairsReversed(x, 4, ks, 4, n)
    ensures DecryptionKeys(x, ks, nr)
  {
    hide PairsReversed;
    assert x[..4] == x[..2 * n + 4][..4] && before[..4] == before[..2 * n + 4][..4];
  }

  lemma NoPairs(x: seq<Word>, y: seq<Word>, n: nat)
    requires 4 <= |x| && 2 * n + 4 <= |y|
    ensures PairsReversed(x, 4, y, 2 * n + 4, 0)
  {
  }

  /** One more pair at the end of x, from just below the pairs already taken from y. */
  lemma OnePair(x: seq<Word>, x': seq<Word>, y: seq<Word>, q: nat, n: nat)
    requires q >= 2 && PairsReversed(x, 4, y, q, n) && 4 + 2 * n + 2 <= |x| == |x'|
    requires x' == x[4 + 2 * n := y[q - 2]][4 + 2 * n + 1 := y[q - 1]]
    ensures PairsReversed(x', 4, y, q - 2, n + 1)
  {
    forall i | 0 <= i < n + 1
      ensures x'[4 + 2 * i] == y[q - 2 + 2 * (n - i)] && x'[4 + 2 * i + 1] == y[q - 2 + 2 * (n - i) + 1]
    {
      if i < n {
        PairAt(x, 4, y, q, n, i);
      }
    }
  }

  lemma SamePairs(x: seq<Word>, x': seq<Word>, y: seq<Word>, n: nat)
    requires PairsReversed(x, 4, y, 4, n) && 4 + 2 * n <= |x'| && x[..4 + 2 * n] == x'[..4 + 2 * n]
    ensures PairsReversed(x', 4, y, 4, n)
  {
    forall i | 0 <= i < n
      ensures x'[4 + 2 * i] == y[4 + 2 * (n - 1 - i)] && x'[4 + 2 * i + 1] == y[4 + 2 * (n - 1 - i) + 1]
    {
      PairAt(x, 4, y, 4, n, i);
      assert x'[4 + 2 * i] == x'[..4 + 2 * n][4 + 2 * i] && x[4 + 2 * i] == x[..4 + 2 * n][4 + 2 * i];
      assert x'[4 + 2 * i + 1] == x'[..4 + 2 * n][4 + 2 * i + 1] && x[4 + 2 * i + 1] == x[..4 + 2 * n][4 + 2 * i + 1];
    }
  }

  /** Encrypting with one context and decrypting with another set up from the same key. */
  method EncryptThenDecrypt(t: Boxes, key: seq<Octet>, keybits: int, block: seq<Octet>) returns (ok: bool, decrypted: seq<Octet>)
    requires |block| == 16 && (keybits in {128, 192, 256} ==> |key| == keybits / 8)
    ensures ok <==> keybits in {128, 192, 256}
    ensures ok ==> decrypted == block
  {
    hide Crypt, DecryptionKeys, RoundKeys, StateOf, BlockOf;
    decrypted := block;
    var enc := new Context(t);
    var dec := new Context(t);
    ok := enc.SetkeyEnc(key, keybits);
    if !ok {
      return;
    }
    ok := dec.SetkeyDec(key, keybits);
    var y := enc.CryptEcb(block);
    CryptInverse(t, RoundKeys(t, key), dec.rk[..], enc.nr, StateOf(block));
    StateOfBlock(Crypt(t, RoundKeys(t, key), enc.nr, StateOf(block)));
    decrypted := dec.CryptEcb(y);
    BlockOfState(block);
  }
}
