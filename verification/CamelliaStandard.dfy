/** camellia.c computes what RFC 3713 defines: words and tables against 64-bit halves and named subkeys. */
module CamelliaStandard {
  import opened Rotations
  import opened CamelliaF
  import opened CamelliaKeys
  import opened Camellia
  import Rfc3713

  /** Four words as a 128-bit string. */
  function WideOf(a: Word, b: Word, c: Word, d: Word): Rfc3713.Wide {
    Rfc3713.Wide(Join(a, b), Join(c, d))
  }

  function JoinHalf(h: Half): bv64 {
    Join(h.0, h.1)
  }

  function Whole(x: (Half, Half)): Rfc3713.Wide {
    Rfc3713.Wide(JoinHalf(x.0), JoinHalf(x.1))
  }

  // ---- Subkeys ------------------------------------------------------------------------------

  lemma CatIsNumber(a: Word, b: Word, c: Word, d: Word)
    ensures Cat(a, b, c, d) == Rfc3713.Number(WideOf(a, b, c, d))
  {
  }

  lemma HighWords(v: bv128)
    ensures Join(WordOf(v, 0), WordOf(v, 1)) == Rfc3713.HalfOf(v, Rfc3713.High)
  {
  }

  lemma LowWords(v: bv128)
    ensures Join(WordOf(v, 2), WordOf(v, 3)) == Rfc3713.HalfOf(v, Rfc3713.Low)
  {
  }

  /** The two words of a subkey, from the four words of its key part. */
  lemma SubkeyJoins(kc: seq<Word>, p: Rfc3713.Parts, s: Rfc3713.Subkey)
    requires |kc| == 16
    requires var k := Part(kc, PartIndex(s.part)); WideOf(k[0], k[1], k[2], k[3]) == Rfc3713.PartOf(p, s.part)
    ensures Join(SubkeyWord(kc, s, 0), SubkeyWord(kc, s, 1)) == Rfc3713.Value(p, s)
  {
    hide Cat, Join, Rotated, WordOf, Part, PartIndex, WideOf, Rfc3713.Number, Rfc3713.HalfOf, Rfc3713.PartOf;
    var k := Part(kc, PartIndex(s.part));
    CatIsNumber(k[0], k[1], k[2], k[3]);
    var v := Rotated(Cat(k[0], k[1], k[2], k[3]), s.amount);
    HighWords(v);
    LowWords(v);
  }

  // ---- Key parts ------------------------------------------------------------------------------

  lemma SigmaOctets()
    ensures Rfc3713.EightOctets(0xa0, 0x9e, 0x66, 0x7f, 0x3b, 0xcc, 0x90, 0x8b) == Rfc3713.Sigma(1)
    ensures Rfc3713.EightOctets(0xb6, 0x7a, 0xe8, 0x58, 0x4c, 0xaa, 0x73, 0xb2) == Rfc3713.Sigma(2)
    ensures Rfc3713.EightOctets(0xc6, 0xef, 0x37, 0x2f, 0xe9, 0x4f, 0x82, 0xbe) == Rfc3713.Sigma(3)
    ensures Rfc3713.EightOctets(0x54, 0xff, 0x53, 0xa5, 0xf1, 0xd3, 0x6f, 0x1c) == Rfc3713.Sigma(4)
    ensures Rfc3713.EightOctets(0x10, 0xe5, 0x27, 0xfa, 0xde, 0x68, 0x2d, 0x1d) == Rfc3713.Sigma(5)
    ensures Rfc3713.EightOctets(0xb0, 0x56, 0x88, 0xc2, 0xb3, 0xe6, 0xc1, 0xfd) == Rfc3713.Sigma(6)
  {
  }

  /** The bytes of the source are the six constants. */
  lemma SigmaWords(i: nat)
    requires i < 6
    ensures Join(BeWord(SIGMA_CHARS[i], 0), BeWord(SIGMA_CHARS[i], 4)) == Rfc3713.Sigma(i + 1)
  {
    hide OctetsToWord, Join, Rfc3713.EightOctets, Rfc3713.Sigma;
    SigmaOctets();
    var s := SIGMA_CHARS[i];
    JoinOctets(s[0], s[1], s[2], s[3], s[4], s[5], s[6], s[7]);
    if i == 0 {
      assert s == [0xa0, 0x9e, 0x66, 0x7f, 0x3b, 0xcc, 0x90, 0x8b];
    } else if i == 1 {
      assert s == [0xb6, 0x7a, 0xe8, 0x58, 0x4c, 0xaa, 0x73, 0xb2];
    } else if i == 2 {
      assert s == [0xc6, 0xef, 0x37, 0x2f, 0xe9, 0x4f, 0x82, 0xbe];
    } else if i == 3 {
      assert s == [0x54, 0xff, 0x53, 0xa5, 0xf1, 0xd3, 0x6f, 0x1c];
    } else if i == 4 {
      assert s == [0x10, 0xe5, 0x27, 0xfa, 0xde, 0x68, 0x2d, 0x1d];
    } else {
      assert s == [0xb0, 0x56, 0x88, 0xc2, 0xb3, 0xe6, 0xc1, 0xfd];
    }
  }

  lemma SumJoins(x: Half, y: Half)
    ensures JoinHalf(Sum(x, y)) == Rfc3713.Plus(JoinHalf(x), JoinHalf(y))
  {
    hide Mix, Join;
    JoinMix(x.0, x.1, y.0, y.1);
  }

  lemma FedJoins(t: Boxes, target: Half, source: Half, i: nat)
    requires i < 6
    ensures JoinHalf(Fed(t, target, source, i))
         == Rfc3713.Plus(JoinHalf(target), Rfc3713.F(t, JoinHalf(source), Rfc3713.Sigma(i + 1)))
  {
    hide Sum, F, BeWord, Join, Rfc3713.F, Rfc3713.Sigma;
    SigmaWords(i);
    FIsStandard(t, source.0, source.1, BeWord(SIGMA_CHARS[i], 0), BeWord(SIGMA_CHARS[i], 4));
    SumJoins(target, F(t, source.0, source.1, BeWord(SIGMA_CHARS[i], 0), BeWord(SIGMA_CHARS[i], 4)));
  }

  lemma KAIsStandard(t: Boxes, kl: (Half, Half), kr: (Half, Half))
    ensures Whole(MakeKA(t, kl, kr)) == Rfc3713.MakeKA(t, Whole(kl), Whole(kr))
  {
    hide Sum, Fed, JoinHalf, Rfc3713.F, Rfc3713.Sigma, Rfc3713.Plus;
    var d1, d2 := Sum(kl.0, kr.0), Sum(kl.1, kr.1);
    SumJoins(kl.0, kr.0);
    SumJoins(kl.1, kr.1);
    FedJoins(t, d2, d1, 0);
    var e2 := Fed(t, d2, d1, 0);
    FedJoins(t, d1, e2, 1);
    var e1 := Fed(t, d1, e2, 1);
    SumJoins(e1, kl.0);
    SumJoins(e2, kl.1);
    var f1, f2 := Sum(e1, kl.0), Sum(e2, kl.1);
    FedJoins(t, f2, f1, 2);
    FedJoins(t, f1, Fed(t, f2, f1, 2), 3);
  }

  lemma PlusCommutes(x: bv64, y: bv64)
    ensures Rfc3713.Plus(x, y) == Rfc3713.Plus(y, x)
  {
  }

  lemma KBIsStandard(t: Boxes, ka: (Half, Half), kr: (Half, Half))
    ensures Whole(MakeKB(t, ka, kr)) == Rfc3713.MakeKB(t, Whole(ka), Whole(kr))
  {
    hide Sum, Fed, JoinHalf, Rfc3713.F, Rfc3713.Sigma, Rfc3713.Plus;
    var d1, d2 := Sum(kr.0, ka.0), Sum(kr.1, ka.1);
    SumJoins(kr.0, ka.0);
    SumJoins(kr.1, ka.1);
    PlusCommutes(JoinHalf(kr.0), JoinHalf(ka.0));
    PlusCommutes(JoinHalf(kr.1), JoinHalf(ka.1));
    FedJoins(t, d2, d1, 4);
    FedJoins(t, d1, Fed(t, d2, d1, 4), 5);
  }

  lemma HalfIsEight(s: seq<Octet>, i: nat)
    requires i + 8 <= |s|
    ensures JoinHalf(HalfAt(s, i)) == Rfc3713.EightAt(s, i)
  {
    hide OctetsToWord, Join, Rfc3713.EightOctets;
    JoinOctets(s[i], s[i + 1], s[i + 2], s[i + 3], s[i + 4], s[i + 5], s[i + 6], s[i + 7]);
  }

  lemma SameEight(s: seq<Octet>, t: seq<Octet>, i: nat)
    requires i + 8 <= |s| && i + 8 <= |t| && s[i..i + 8] == t[i..i + 8]
    ensures Rfc3713.EightAt(s, i) == Rfc3713.EightAt(t, i)
  {
    hide Rfc3713.EightOctets;
    var x := s[i..i + 8];
    assert x[0] == s[i] && x[1] == s[i + 1] && x[2] == s[i + 2] && x[3] == s[i + 3];
    assert x[4] == s[i + 4] && x[5] == s[i + 5] && x[6] == s[i + 6] && x[7] == s[i + 7];
    assert x[0] == t[i] && x[1] == t[i + 1] && x[2] == t[i + 2] && x[3] == t[i + 3];
    assert x[4] == t[i + 4] && x[5] == t[i + 5] && x[6] == t[i + 6] && x[7] == t[i + 7];
  }

  lemma NoOctets()
    ensures Rfc3713.EightOctets(0, 0, 0, 0, 0, 0, 0, 0) == 0
  {
  }

  lemma Complement(a: Octet, b: Octet, c: Octet, d: Octet, e: Octet, f: Octet, g: Octet, h: Octet)
    ensures Rfc3713.EightOctets(!a, !b, !c, !d, !e, !f, !g, !h) == !Rfc3713.EightOctets(a, b, c, d, e, f, g, h)
  {
  }

  /** KL and KR. */
  lemma KeyHalves(key: seq<Octet>)
    requires |key| in {16, 24, 32}
    ensures var s := FullKey(key);
            && Rfc3713.EightAt(s, 0) == Rfc3713.EightAt(key, 0) && Rfc3713.EightAt(s, 8) == Rfc3713.EightAt(key, 8)
            && (|key| == 16 ==> Rfc3713.EightAt(s, 16) == 0 && Rfc3713.EightAt(s, 24) == 0)
            && (|key| >= 24 ==> Rfc3713.EightAt(s, 16) == Rfc3713.EightAt(key, 16))
            && (|key| == 24 ==> Rfc3713.EightAt(s, 24) == !Rfc3713.EightAt(key, 16))
            && (|key| == 32 ==> Rfc3713.EightAt(s, 24) == Rfc3713.EightAt(key, 24))
  {
    hide Rfc3713.EightOctets;
    var s := FullKey(key);
    SameEight(s, key, 0);
    SameEight(s, key, 8);
    NoOctets();
    if |key| >= 24 {
      SameEight(s, key, 16);
      Complement(key[16], key[17], key[18], key[19], key[20], key[21], key[22], key[23]);
    }
    if |key| == 32 {
      SameEight(s, key, 24);
    }
  }

  lemma PartsAgree(t: Boxes, key: seq<Octet>, part: Rfc3713.Part)
    requires |key| in {16, 24, 32} && (part == Rfc3713.KB ==> |key| != 16)
    ensures var k := Part(KeyParts(t, key), PartIndex(part));
            WideOf(k[0], k[1], k[2], k[3]) == Rfc3713.PartOf(Rfc3713.PartsOf(t, key), part)
  {
    hide FullKey, HalfAt, MakeKA, MakeKB, Join, Rfc3713.EightAt, Rfc3713.MakeKA, Rfc3713.MakeKB;
    var s := FullKey(key);
    var kl, kr := (HalfAt(s, 0), HalfAt(s, 8)), (HalfAt(s, 16), HalfAt(s, 24));
    HalfIsEight(s, 0);
    HalfIsEight(s, 8);
    HalfIsEight(s, 16);
    HalfIsEight(s, 24);
    KeyHalves(key);
    var p := Rfc3713.PartsOf(t, key);
    assert Whole(kl) == p.kl && Whole(kr) == p.kr;
    var ka := MakeKA(t, kl, kr);
    KAIsStandard(t, kl, kr);
    KBIsStandard(t, ka, kr);
    PartIsFlat(t, key, kl, kr, ka, part);
  }

  lemma PartIsFlat(t: Boxes, key: seq<Octet>, kl: (Half, Half), kr: (Half, Half), ka: (Half, Half), part: Rfc3713.Part)
    requires |key| in {16, 24, 32} && (part == Rfc3713.KB ==> |key| != 16)
    requires var s := FullKey(key); kl == (HalfAt(s, 0), HalfAt(s, 8)) && kr == (HalfAt(s, 16), HalfAt(s, 24))
    requires ka == MakeKA(t, kl, kr)
    ensures Part(KeyParts(t, key), PartIndex(part))
         == match part case KL => Flat(kl) case KR => Flat(kr) case KA => Flat(ka) case KB => Flat(MakeKB(t, ka, kr))
  {
    hide FullKey, HalfAt, MakeKA, MakeKB, Flat;
  }

  // ---- The data path ------------------------------------------------------------------------------

  /** The words of rk, two by two, are the subkeys in the order of their use. */
  ghost predicate HasSubkeys(rk: seq<Word>, p: Rfc3713.Parts, idx: nat) {
    idx < 2 && |rk| == 68
    && forall n :: 0 <= n < 26 + 8 * idx ==> Join(rk[2 * n], rk[2 * n + 1]) == Rfc3713.Value(p, Rfc3713.SubkeyOf(idx, n))
  }

  lemma RoundKeysAreSubkeys(t: Boxes, key: seq<Octet>)
    requires |key| in {16, 24, 32}
    ensures HasSubkeys(RoundKeys(t, key), Rfc3713.PartsOf(t, key), if |key| == 16 then 0 else 1)
  {
    hide KeyParts, Part, SubkeyWord, Join, Rfc3713.Value, Rfc3713.PartOf, Rfc3713.PartsOf, Rfc3713.Subkey128, Rfc3713.Subkey256;
    var kc, idx := KeyParts(t, key), if |key| == 16 then 0 else 1;
    forall n | 0 <= n < 26 + 8 * idx
      ensures Join(RoundKeys(t, key)[2 * n], RoundKeys(t, key)[2 * n + 1])
           == Rfc3713.Value(Rfc3713.PartsOf(t, key), Rfc3713.SubkeyOf(idx, n))
    {
      var s := Rfc3713.SubkeyOf(idx, n);
      if idx == 0 {
        Skipped128(n);
      }
      PartsAgree(t, key, s.part);
      SubkeyJoins(kc, Rfc3713.PartsOf(t, key), s);
    }
  }

  function WideState(s: State): Rfc3713.Wide {
    WideOf(s.a, s.b, s.c, s.d)
  }

  lemma LeftRoundIs(t: Boxes, s: State, k0: Word, k1: Word)
    ensures var d := WideState(s);
            WideState(LeftRound(t, s, k0, k1)) == Rfc3713.Wide(d.hi, Rfc3713.Plus(d.lo, Rfc3713.F(t, d.hi, Join(k0, k1))))
  {
    hide F, Mix, Join, Rfc3713.F, Rfc3713.Plus;
    var f := F(t, s.a, s.b, k0, k1);
    FIsStandard(t, s.a, s.b, k0, k1);
    JoinMix(s.c, s.d, f.0, f.1);
  }

  lemma RightRoundIs(t: Boxes, s: State, k0: Word, k1: Word)
    ensures var d := WideState(s);
            WideState(RightRound(t, s, k0, k1)) == Rfc3713.Wide(Rfc3713.Plus(d.hi, Rfc3713.F(t, d.lo, Join(k0, k1))), d.lo)
  {
    hide F, Mix, Join, Rfc3713.F, Rfc3713.Plus;
    var f := F(t, s.c, s.d, k0, k1);
    FIsStandard(t, s.c, s.d, k0, k1);
    JoinMix(s.a, s.b, f.0, f.1);
  }

  lemma LayerIs(s: State, k0: Word, k1: Word, k2: Word, k3: Word)
    ensures var d := WideState(s);
            WideState(Layer(s, k0, k1, k2, k3)) == Rfc3713.Wide(Rfc3713.FL(d.hi, Join(k0, k1)), Rfc3713.FLInv(d.lo, Join(k2, k3)))
  {
    hide FL, FLInv, Join, Rfc3713.FL, Rfc3713.FLInv;
    FLIsStandard((s.a, s.b), k0, k1);
    FLInvIsStandard((s.c, s.d), k2, k3);
  }

  /** What one round of the standard does, c rounds after the layer before. */
  lemma RoundStep(t: Boxes, p: Rfc3713.Parts, idx: nat, d: Rfc3713.Wide, g: nat, c: nat, n: nat)
    requires c < 6 && 6 * g + c < n
    ensures var k := Rfc3713.Value(p, Rfc3713.SubkeyOf(idx, 2 + 8 * g + c));
            var x := if c % 2 == 0 then Rfc3713.Wide(d.hi, Rfc3713.Plus(d.lo, Rfc3713.F(t, d.hi, k)))
                     else Rfc3713.Wide(Rfc3713.Plus(d.hi, Rfc3713.F(t, d.lo, k)), d.lo);
            var y := if c == 5 && 6 * g + 6 < n
                     then Rfc3713.Wide(Rfc3713.FL(x.hi, Rfc3713.Value(p, Rfc3713.SubkeyOf(idx, 8 + 8 * g))),
                                       Rfc3713.FLInv(x.lo, Rfc3713.Value(p, Rfc3713.SubkeyOf(idx, 9 + 8 * g)))) else x;
            Rfc3713.Rounds(t, p, idx, d, 6 * g + c, n) == Rfc3713.Rounds(t, p, idx, y, 6 * g + c + 1, n)
  {
    hide Rfc3713.Value, Rfc3713.SubkeyOf, Rfc3713.F, Rfc3713.FL, Rfc3713.FLInv, Rfc3713.Plus, Rfc3713.K, Rfc3713.Ke;
    Positions(idx, g, c);
  }

  lemma Positions(idx: nat, g: nat, c: nat)
    requires c < 6
    ensures var i := 6 * g + c; i / 6 == g && i % 6 == c && i % 2 == c % 2
    ensures Rfc3713.K(idx, 6 * g + c) == Rfc3713.SubkeyOf(idx, 2 + 8 * g + c)
    ensures Rfc3713.Ke(idx, 2 * g) == Rfc3713.SubkeyOf(idx, 8 + 8 * g)
    ensures Rfc3713.Ke(idx, 2 * g + 1) == Rfc3713.SubkeyOf(idx, 9 + 8 * g)
  {
    hide Rfc3713.SubkeyOf;
    InGroup(g, c);
    InPair(g);
  }

  lemma InGroup(g: nat, c: nat)
    requires c < 6
    ensures (6 * g + c) / 6 == g && (6 * g + c) % 6 == c && (6 * g + c) % 2 == c % 2
  {
  }

  lemma InPair(g: nat)
    ensures 2 * g / 2 == g && (2 * g + 1) / 2 == g && 2 * g % 2 == 0 && (2 * g + 1) % 2 == 1
  {
  }

  lemma KeyPair(rk: seq<Word>, p: Rfc3713.Parts, idx: nat, q: nat, n: nat)
    requires HasSubkeys(rk, p, idx) && n < 26 + 8 * idx && q == 2 * n
    ensures q + 1 < |rk| && Join(rk[q], rk[q + 1]) == Rfc3713.Value(p, Rfc3713.SubkeyOf(idx, n))
  {
  }

  /** Two rounds, with the keys from position q on. */
  function Twice(t: Boxes, s: State, rk: seq<Word>, q: nat): State
    requires q + 4 <= |rk|
  {
    RightRound(t, LeftRound(t, s, rk[q], rk[q + 1]), rk[q + 2], rk[q + 3])
  }

  lemma SixIsTwice(t: Boxes, s: State, rk: seq<Word>, q: nat)
    requires q + 12 <= |rk|
    ensures SixRounds(t, s, rk, q) == Twice(t, Twice(t, Twice(t, s, rk, q), rk, q + 4), rk, q + 8)
  {
    hide LeftRound, RightRound;
  }

  /** Two rounds that are not the last of a group. */
  lemma TwoRounds(t: Boxes, p: Rfc3713.Parts, idx: nat, rk: seq<Word>, s: State, g: nat, c: nat, q: nat, n: nat)
    requires HasSubkeys(rk, p, idx) && g < 3 + idx && n == 18 + 6 * idx && (c == 0 || c == 2) && q == 4 + 16 * g + 2 * c
    ensures q + 4 <= |rk|
    ensures Rfc3713.Rounds(t, p, idx, WideState(s), 6 * g + c, n)
         == Rfc3713.Rounds(t, p, idx, WideState(Twice(t, s, rk, q)), 6 * g + c + 2, n)
  {
    hide LeftRound, RightRound, WideState, HasSubkeys, Join;
    hide Rfc3713.Value, Rfc3713.SubkeyOf, Rfc3713.F, Rfc3713.FL, Rfc3713.FLInv, Rfc3713.Plus, Rfc3713.Rounds;
    KeyPair(rk, p, idx, q, 2 + 8 * g + c);
    KeyPair(rk, p, idx, q + 2, 3 + 8 * g + c);
    var s1 := LeftRound(t, s, rk[q], rk[q + 1]);
    LeftRoundIs(t, s, rk[q], rk[q + 1]);
    RoundStep(t, p, idx, WideState(s), g, c, n);
    RightRoundIs(t, s1, rk[q + 2], rk[q + 3]);
    RoundStep(t, p, idx, WideState(s1), g, c + 1, n);
  }

  /** The last two rounds of a group, and the layer that follows unless the group is the last. */
  lemma LastTwoRounds(t: Boxes, p: Rfc3713.Parts, idx: nat, rk: seq<Word>, s: State, g: nat, q: nat, n: nat)
    requires HasSubkeys(rk, p, idx) && g < 3 + idx && n == 18 + 6 * idx && q == 12 + 16 * g
    ensures q + 8 <= |rk|
    ensures var x := Twice(t, s, rk, q);
            Rfc3713.Rounds(t, p, idx, WideState(s), 6 * g + 4, n)
            == if g == 2 + idx then WideState(x)
               else Rfc3713.Rounds(t, p, idx, WideState(Layer(x, rk[q + 4], rk[q + 5], rk[q + 6], rk[q + 7])), 6 * g + 6, n)
  {
    hide LeftRound, RightRound, Layer, WideState, HasSubkeys, Join;
    hide Rfc3713.Value, Rfc3713.SubkeyOf, Rfc3713.F, Rfc3713.FL, Rfc3713.FLInv, Rfc3713.Plus, Rfc3713.Rounds;
    KeyPair(rk, p, idx, q, 6 + 8 * g);
    KeyPair(rk, p, idx, q + 2, 7 + 8 * g);
    KeyPair(rk, p, idx, q + 4, 8 + 8 * g);
    KeyPair(rk, p, idx, q + 6, 9 + 8 * g);
    var s5 := LeftRound(t, s, rk[q], rk[q + 1]);
    LeftRoundIs(t, s, rk[q], rk[q + 1]);
    RoundStep(t, p, idx, WideState(s), g, 4, n);
    var x := RightRound(t, s5, rk[q + 2], rk[q + 3]);
    RightRoundIs(t, s5, rk[q + 2], rk[q + 3]);
    RoundStep(t, p, idx, WideState(s5), g, 5, n);
    RoundsEnd(t, p, idx, WideState(x), n);
    LayerIs(x, rk[q + 4], rk[q + 5], rk[q + 6], rk[q + 7]);
  }

  /** A group of six rounds. */
  lemma GroupIs(t: Boxes, p: Rfc3713.Parts, idx: nat, rk: seq<Word>, s: State, g: nat, q: nat, n: nat)
    requires HasSubkeys(rk, p, idx) && g < 3 + idx && q == 4 + 16 * g && n == 18 + 6 * idx
    ensures q + 16 <= |rk|
    ensures var x := SixRounds(t, s, rk, q);
            Rfc3713.Rounds(t, p, idx, WideState(s), 6 * g, n)
            == if g == 2 + idx then WideState(x)
               else Rfc3713.Rounds(t, p, idx, WideState(Layer(x, rk[q + 12], rk[q + 13], rk[q + 14], rk[q + 15])), 6 * g + 6, n)
  {
    hide Twice, SixRounds, Layer, WideState, HasSubkeys, Rfc3713.Rounds;
    TwoRounds(t, p, idx, rk, s, g, 0, q, n);
    var s2 := Twice(t, s, rk, q);
    TwoRounds(t, p, idx, rk, s2, g, 2, q + 4, n);
    var s4 := Twice(t, s2, rk, q + 4);
    LastTwoRounds(t, p, idx, rk, s4, g, q + 8, n);
    SixIsTwice(t, s, rk, q);
  }

  lemma RoundsEnd(t: Boxes, p: Rfc3713.Parts, idx: nat, d: Rfc3713.Wide, n: nat)
    ensures Rfc3713.Rounds(t, p, idx, d, n, n) == d
  {
  }

  lemma {:induction false} GroupsAreRounds(t: Boxes, p: Rfc3713.Parts, idx: nat, rk: seq<Word>, s: State, g: nat, m: nat)
    requires HasSubkeys(rk, p, idx) && m > 0 && g + m == 3 + idx
    ensures 4 + 16 * g + 16 * m - 4 <= |rk|
    ensures WideState(Groups(t, s, rk, 4 + 16 * g, m)) == Rfc3713.Rounds(t, p, idx, WideState(s), 6 * g, 18 + 6 * idx)
    decreases m
  {
    hide SixRounds, Layer, WideState, HasSubkeys, Rfc3713.Rounds;
    var q := 4 + 16 * g;
    GroupIs(t, p, idx, rk, s, g, q, 18 + 6 * idx);
    KeyCount(rk, p, idx);
    NextGroup(t, s, rk, q, m);
    if m > 1 {
      GroupsAreRounds(t, p, idx, rk, Layer(SixRounds(t, s, rk, q), rk[q + 12], rk[q + 13], rk[q + 14], rk[q + 15]), g + 1, m - 1);
    }
  }

  lemma KeyCount(rk: seq<Word>, p: Rfc3713.Parts, idx: nat)
    requires HasSubkeys(rk, p, idx)
    ensures |rk| == 68 && idx < 2
  {
  }

  lemma WhitenedIs(s: State, rk: seq<Word>, q: nat)
    requires q + 4 <= |rk|
    ensures var d := WideState(s);
            WideState(Whitened(s, rk, q))
            == Rfc3713.Wide(Rfc3713.Plus(d.hi, Join(rk[q], rk[q + 1])), Rfc3713.Plus(d.lo, Join(rk[q + 2], rk[q + 3])))
  {
    hide Mix, Join, Rfc3713.Plus;
    JoinMix(s.a, s.b, rk[q], rk[q + 1]);
    JoinMix(s.c, s.d, rk[q + 2], rk[q + 3]);
  }

  /** The data path with the scheduled keys is the encryption of RFC 3713. */
  lemma CryptIsStandard(t: Boxes, key: seq<Octet>, s: State)
    requires |key| in {16, 24, 32}
    ensures WideState(Crypt(t, RoundKeys(t, key), if |key| == 16 then 3 else 4, s)) == Rfc3713.Encrypt(t, key, WideState(s))
  {
    hide Groups, Whitened, RoundKeys, HasSubkeys, Join;
    hide Rfc3713.Rounds, Rfc3713.Value, Rfc3713.SubkeyOf, Rfc3713.Plus, Rfc3713.PartsOf;
    var rk, p, idx := RoundKeys(t, key), Rfc3713.PartsOf(t, key), if |key| == 16 then 0 else 1;
    RoundKeysAreSubkeys(t, key);
    KeyPair(rk, p, idx, 0, 0);
    KeyPair(rk, p, idx, 2, 1);
    WhitenedIs(s, rk, 0);
    var w := Whitened(s, rk, 0);
    GroupsAreRounds(t, p, idx, rk, w, 0, 3 + idx);
    var e := LastKeys(3 + idx);
    KeyPair(rk, p, idx, e, 24 + 8 * idx);
    KeyPair(rk, p, idx, e + 2, 25 + 8 * idx);
    WhitenedIs(Swap(Groups(t, w, rk, 4, 3 + idx)), rk, e);
  }

  // ---- Blocks of sixteen bytes --------------------------------------------------------------------

  lemma BlockIsWide(block: seq<Octet>)
    requires |block| == 16
    ensures WideState(StateOf(block)) == Rfc3713.FromOctets(block)
  {
    hide BeWord, Join, Rfc3713.EightAt;
    HalfIsEight(block, 0);
    HalfIsEight(block, 8);
  }

  /** Encrypting one block with a key gives what RFC 3713 defines. */
  method EncryptBlock(t: Boxes, key: seq<Octet>, keybits: int, block: seq<Octet>) returns (ok: bool, output: seq<Octet>)
    requires |block| == 16 && (keybits in {128, 192, 256} ==> |key| == keybits / 8)
    ensures ok <==> keybits in {128, 192, 256}
    ensures ok ==> |output| == 16 && Rfc3713.FromOctets(output) == Rfc3713.Encrypt(t, key, Rfc3713.FromOctets(block))
  {
    hide Crypt, RoundKeys, StateOf, BlockOf, WideState, Rfc3713.FromOctets, Rfc3713.Encrypt;
    output := [];
    var c := new Context(t);
    ok := c.SetkeyEnc(key, keybits);
    if ok {
      output := c.CryptEcb(block);
      var s := StateOf(block);
      CryptIsStandard(t, key, s);
      BlockIsWide(block);
      StateOfBlock(Crypt(t, RoundKeys(t, key), c.nr, s));
      BlockIsWide(output);
    }
  }
}
