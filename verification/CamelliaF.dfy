/** The round function and the FL layers of camellia.c on 32-bit words, against section 2.4 of RFC 3713. */
module CamelliaF {
  import Rfc3713
  import opened Rotations

  type Octet = Rfc3713.Octet
  type Boxes = Rfc3713.Boxes

  /** Exclusive or, by name. */
  function Mix(x: Word, y: Word): Word {
    x ^ y
  }

  lemma MixTwice(x: Word, y: Word)
    ensures Mix(Mix(x, y), y) == x && Mix(x, Mix(x, y)) == y
  {
  }

  /** MBEDTLS_GET_UINT32_BE, on single bytes. */
  function OctetsToWord(a: Octet, b: Octet, c: Octet, d: Octet): Word {
    ((a as Word) << 24) | ((b as Word) << 16) | ((c as Word) << 8) | (d as Word)
  }

  function OctetOf(x: Word, i: nat): Octet {
    match i
    case 3 => (x >> 24) as Octet
    case 2 => ((x >> 16) & 0xFF) as Octet
    case 1 => ((x >> 8) & 0xFF) as Octet
    case _ => (x & 0xFF) as Octet
  }

  /** Taking a word apart and putting it together. */
  lemma WordOctets(x: Word)
    ensures OctetsToWord(OctetOf(x, 3), OctetOf(x, 2), OctetOf(x, 1), OctetOf(x, 0)) == x
  {
  }

  lemma OctetsBack(a: Octet, b: Octet, c: Octet, d: Octet)
    ensures var x := OctetsToWord(a, b, c, d); OctetOf(x, 3) == a && OctetOf(x, 2) == b && OctetOf(x, 1) == c && OctetOf(x, 0) == d
  {
  }

  function Left8(x: Word): Word {
    (x << 8) | (x >> 24)
  }

  function Left16(x: Word): Word {
    (x << 16) | (x >> 16)
  }

  function Right8(x: Word): Word {
    (x >> 8) | (x << 24)
  }

  /** The exchange of bytes between the two words, after the substitution. */
  function Diffused(j0: Word, j1: Word): (Word, Word) {
    var a0 := Mix(j0, Left8(j1));
    var a1 := Mix(j1, Left16(a0));
    var b0 := Mix(a0, Right8(a1));
    var b1 := Mix(a1, Right8(b0));
    (b1, b0)
  }

  /** The round function: substitution and mixing of x ^ k. */
  function F(t: Boxes, x0: Word, x1: Word, k0: Word, k1: Word): (Word, Word) {
    var i0, i1 := Mix(x0, k0), Mix(x1, k1);
    Diffused(OctetsToWord(t.s1(OctetOf(i0, 3)), t.s2(OctetOf(i0, 2)), t.s3(OctetOf(i0, 1)), t.s4(OctetOf(i0, 0))),
           OctetsToWord(t.s2(OctetOf(i1, 3)), t.s3(OctetOf(i1, 2)), t.s4(OctetOf(i1, 1)), t.s1(OctetOf(i1, 0))))
  }

  /** x & k, rotated left by one. */
  function AndRotate(x: Word, k: Word): Word {
    ((x & k) << 1) | ((x & k) >> 31)
  }

  function Or(x: Word, k: Word): Word {
    x | k
  }

  function FL(x: (Word, Word), k0: Word, k1: Word): (Word, Word) {
    var r := Mix(AndRotate(x.0, k0), x.1);
    (Mix(Or(r, k1), x.0), r)
  }

  function FLInv(y: (Word, Word), k0: Word, k1: Word): (Word, Word) {
    var l := Mix(Or(y.1, k1), y.0);
    (l, Mix(AndRotate(l, k0), y.1))
  }

  // ---- The standard's form ----------------------------------------------------------------

  /** Two words as one 64-bit string. */
  function Join(a: Word, b: Word): bv64 {
    Rfc3713.Both(a, b)
  }

  lemma JoinMix(a: Word, b: Word, c: Word, d: Word)
    ensures Join(Mix(a, c), Mix(b, d)) == Rfc3713.Plus(Join(a, b), Join(c, d))
  {
  }

  lemma JoinParts(a: Word, b: Word)
    ensures Rfc3713.Left(Join(a, b)) == a && Rfc3713.Right(Join(a, b)) == b
  {
  }

  lemma OctetsOfLeft(a: Word, b: Word)
    ensures Rfc3713.OctetAt(Join(a, b), 0) == OctetOf(a, 3) && Rfc3713.OctetAt(Join(a, b), 1) == OctetOf(a, 2)
    ensures Rfc3713.OctetAt(Join(a, b), 2) == OctetOf(a, 1) && Rfc3713.OctetAt(Join(a, b), 3) == OctetOf(a, 0)
  {
  }

  lemma OctetsOfRight(a: Word, b: Word)
    ensures Rfc3713.OctetAt(Join(a, b), 4) == OctetOf(b, 3) && Rfc3713.OctetAt(Join(a, b), 5) == OctetOf(b, 2)
    ensures Rfc3713.OctetAt(Join(a, b), 6) == OctetOf(b, 1) && Rfc3713.OctetAt(Join(a, b), 7) == OctetOf(b, 0)
  {
  }

  // ---- The linear part of F -------------------------------------------------------------------

  function Plus8(a: Octet, b: Octet): Octet {
    a ^ b
  }

  lemma MixOctets(a: Octet, b: Octet, c: Octet, d: Octet, e: Octet, f: Octet, g: Octet, h: Octet)
    ensures Mix(OctetsToWord(a, b, c, d), OctetsToWord(e, f, g, h)) == OctetsToWord(Plus8(a, e), Plus8(b, f), Plus8(c, g), Plus8(d, h))
  {
  }

  lemma TurnLeft8(a: Octet, b: Octet, c: Octet, d: Octet)
    ensures Left8(OctetsToWord(a, b, c, d)) == OctetsToWord(b, c, d, a)
  {
  }

  lemma TurnLeft16(a: Octet, b: Octet, c: Octet, d: Octet)
    ensures Left16(OctetsToWord(a, b, c, d)) == OctetsToWord(c, d, a, b)
  {
  }

  lemma TurnRight8(a: Octet, b: Octet, c: Octet, d: Octet)
    ensures Right8(OctetsToWord(a, b, c, d)) == OctetsToWord(d, a, b, c)
  {
  }

  lemma JoinOctets(a: Octet, b: Octet, c: Octet, d: Octet, e: Octet, f: Octet, g: Octet, h: Octet)
    ensures Join(OctetsToWord(a, b, c, d), OctetsToWord(e, f, g, h)) == Rfc3713.EightOctets(a, b, c, d, e, f, g, h)
  {
  }

  lemma Y1(t1: Octet, t2: Octet, t3: Octet, t4: Octet, t5: Octet, t6: Octet, t7: Octet, t8: Octet)
    ensures Plus8(Plus8(t5, Plus8(t3, t8)), Plus8(Plus8(t4, t5), Plus8(t7, Plus8(t1, t6))))
         == t1 ^ t3 ^ t4 ^ t6 ^ t7 ^ t8
  {
  }

  lemma Y2(t1: Octet, t2: Octet, t3: Octet, t4: Octet, t5: Octet, t6: Octet, t7: Octet, t8: Octet)
    ensures Plus8(Plus8(t6, Plus8(t4, t5)), Plus8(Plus8(t1, t6), Plus8(t8, Plus8(t2, t7))))
         == t1 ^ t2 ^ t4 ^ t5 ^ t7 ^ t8
  {
  }

  lemma Y3(t1: Octet, t2: Octet, t3: Octet, t4: Octet, t5: Octet, t6: Octet, t7: Octet, t8: Octet)
    ensures Plus8(Plus8(t7, Plus8(t1, t6)), Plus8(Plus8(t2, t7), Plus8(t5, Plus8(t3, t8))))
         == t1 ^ t2 ^ t3 ^ t5 ^ t6 ^ t8
  {
  }

  lemma Y4(t1: Octet, t2: Octet, t3: Octet, t4: Octet, t5: Octet, t6: Octet, t7: Octet, t8: Octet)
    ensures Plus8(Plus8(t8, Plus8(t2, t7)), Plus8(Plus8(t3, t8), Plus8(t6, Plus8(t4, t5))))
         == t2 ^ t3 ^ t4 ^ t5 ^ t6 ^ t7
  {
  }

  lemma Y5(t1: Octet, t2: Octet, t3: Octet, t4: Octet, t5: Octet, t6: Octet, t7: Octet, t8: Octet)
    ensures Plus8(Plus8(t1, t6), Plus8(t8, Plus8(t2, t7)))
         == t1 ^ t2 ^ t6 ^ t7 ^ t8
  {
  }

  lemma Y6(t1: Octet, t2: Octet, t3: Octet, t4: Octet, t5: Octet, t6: Octet, t7: Octet, t8: Octet)
    ensures Plus8(Plus8(t2, t7), Plus8(t5, Plus8(t3, t8)))
         == t2 ^ t3 ^ t5 ^ t7 ^ t8
  {
  }

  lemma Y7(t1: Octet, t2: Octet, t3: Octet, t4: Octet, t5: Octet, t6: Octet, t7: Octet, t8: Octet)
    ensures Plus8(Plus8(t3, t8), Plus8(t6, Plus8(t4, t5)))
         == t3 ^ t4 ^ t5 ^ t6 ^ t8
  {
  }

  lemma Y8(t1: Octet, t2: Octet, t3: Octet, t4: Octet, t5: Octet, t6: Octet, t7: Octet, t8: Octet)
    ensures Plus8(Plus8(t4, t5), Plus8(t7, Plus8(t1, t6)))
         == t1 ^ t4 ^ t5 ^ t6 ^ t7
  {
  }

  lemma AllOctets(t1: Octet, t2: Octet, t3: Octet, t4: Octet, t5: Octet, t6: Octet, t7: Octet, t8: Octet)
    ensures Rfc3713.P(t1, t2, t3, t4, t5, t6, t7, t8) == Rfc3713.EightOctets(
              Plus8(Plus8(t5, Plus8(t3, t8)), Plus8(Plus8(t4, t5), Plus8(t7, Plus8(t1, t6)))),
              Plus8(Plus8(t6, Plus8(t4, t5)), Plus8(Plus8(t1, t6), Plus8(t8, Plus8(t2, t7)))),
              Plus8(Plus8(t7, Plus8(t1, t6)), Plus8(Plus8(t2, t7), Plus8(t5, Plus8(t3, t8)))),
              Plus8(Plus8(t8, Plus8(t2, t7)), Plus8(Plus8(t3, t8), Plus8(t6, Plus8(t4, t5)))),
              Plus8(Plus8(t1, t6), Plus8(t8, Plus8(t2, t7))),
              Plus8(Plus8(t2, t7), Plus8(t5, Plus8(t3, t8))),
              Plus8(Plus8(t3, t8), Plus8(t6, Plus8(t4, t5))),
              Plus8(Plus8(t4, t5), Plus8(t7, Plus8(t1, t6))))
  {
    hide Rfc3713.EightOctets, Plus8;
    Y1(t1, t2, t3, t4, t5, t6, t7, t8);
    Y2(t1, t2, t3, t4, t5, t6, t7, t8);
    Y3(t1, t2, t3, t4, t5, t6, t7, t8);
    Y4(t1, t2, t3, t4, t5, t6, t7, t8);
    Y5(t1, t2, t3, t4, t5, t6, t7, t8);
    Y6(t1, t2, t3, t4, t5, t6, t7, t8);
    Y7(t1, t2, t3, t4, t5, t6, t7, t8);
    Y8(t1, t2, t3, t4, t5, t6, t7, t8);
  }

  /** The rotations of the source compute the linear part of F. */
  lemma DiffusedIsP(t1: Octet, t2: Octet, t3: Octet, t4: Octet, t5: Octet, t6: Octet, t7: Octet, t8: Octet)
    ensures var f := Diffused(OctetsToWord(t1, t2, t3, t4), OctetsToWord(t5, t6, t7, t8));
            Join(f.0, f.1) == Rfc3713.P(t1, t2, t3, t4, t5, t6, t7, t8)
  {
    hide Mix, OctetsToWord, Left8, Left16, Right8, Join, Plus8, Rfc3713.EightOctets, Rfc3713.P;
    TurnLeft8(t5, t6, t7, t8);
    MixOctets(t1, t2, t3, t4, t6, t7, t8, t5);
    var a1, a2, a3, a4 := Plus8(t1, t6), Plus8(t2, t7), Plus8(t3, t8), Plus8(t4, t5);
    TurnLeft16(a1, a2, a3, a4);
    MixOctets(t5, t6, t7, t8, a3, a4, a1, a2);
    var a5, a6, a7, a8 := Plus8(t5, a3), Plus8(t6, a4), Plus8(t7, a1), Plus8(t8, a2);
    TurnRight8(a5, a6, a7, a8);
    MixOctets(a1, a2, a3, a4, a8, a5, a6, a7);
    var b1, b2, b3, b4 := Plus8(a1, a8), Plus8(a2, a5), Plus8(a3, a6), Plus8(a4, a7);
    TurnRight8(b1, b2, b3, b4);
    MixOctets(a5, a6, a7, a8, b4, b1, b2, b3);
    JoinOctets(Plus8(a5, b4), Plus8(a6, b1), Plus8(a7, b2), Plus8(a8, b3), b1, b2, b3, b4);
    AllOctets(t1, t2, t3, t4, t5, t6, t7, t8);
  }

  lemma FIsStandard(t: Boxes, x0: Word, x1: Word, k0: Word, k1: Word)
    ensures var f := F(t, x0, x1, k0, k1); Join(f.0, f.1) == Rfc3713.F(t, Join(x0, x1), Join(k0, k1))
  {
    hide Diffused, OctetsToWord, OctetOf, Mix, Join, Rfc3713.P, Rfc3713.OctetAt, Rfc3713.Plus;
    var i0, i1 := Mix(x0, k0), Mix(x1, k1);
    JoinMix(x0, x1, k0, k1);
    OctetsOfLeft(i0, i1);
    OctetsOfRight(i0, i1);
    DiffusedIsP(t.s1(OctetOf(i0, 3)), t.s2(OctetOf(i0, 2)), t.s3(OctetOf(i0, 1)), t.s4(OctetOf(i0, 0)),
              t.s2(OctetOf(i1, 3)), t.s3(OctetOf(i1, 2)), t.s4(OctetOf(i1, 1)), t.s1(OctetOf(i1, 0)));
  }

  // ---- The FL layers ----------------------------------------------------------------------------

  lemma RightAgrees(x1: Word, x2: Word, k1: Word)
    ensures Mix(AndRotate(x1, k1), x2) == Rfc3713.FL2(x1, x2, k1)
  {
    hide Mix, AndRotate, Rfc3713.OneLeft, Rfc3713.FL2;
    RotateAgrees(x1, k1);
    SumAgrees(x1, x2, k1);
  }

  lemma RotateAgrees(x: Word, k: Word)
    ensures AndRotate(x, k) == Rfc3713.OneLeft(x & k)
  {
  }

  lemma SumAgrees(x1: Word, x2: Word, k1: Word)
    ensures Mix(Rfc3713.OneLeft(x1 & k1), x2) == Rfc3713.FL2(x1, x2, k1)
  {
    hide Rfc3713.OneLeft;
  }

  lemma LeftAgrees(x1: Word, x2: Word, k2: Word)
    ensures Mix(Or(x2, k2), x1) == Rfc3713.FL1(x1, x2, k2)
  {
    assert Or(x2, k2) == x2 | k2;
  }

  lemma FLIsStandard(x: (Word, Word), k0: Word, k1: Word)
    ensures var y := FL(x, k0, k1); Join(y.0, y.1) == Rfc3713.FL(Join(x.0, x.1), Join(k0, k1))
  {
    hide Mix, AndRotate, Or, Join, Rfc3713.FL1, Rfc3713.FL2, Rfc3713.Left, Rfc3713.Right;
    JoinParts(x.0, x.1);
    JoinParts(k0, k1);
    RightAgrees(x.0, x.1, k0);
    LeftAgrees(x.0, Mix(AndRotate(x.0, k0), x.1), k1);
    JoinIs(FL(x, k0, k1).0, FL(x, k0, k1).1);
  }

  lemma FLInvIsStandard(y: (Word, Word), k0: Word, k1: Word)
    ensures var x := FLInv(y, k0, k1); Join(x.0, x.1) == Rfc3713.FLInv(Join(y.0, y.1), Join(k0, k1))
  {
    hide Mix, AndRotate, Or, Join, Rfc3713.FL1, Rfc3713.FL2, Rfc3713.Left, Rfc3713.Right;
    JoinParts(y.0, y.1);
    JoinParts(k0, k1);
    LeftAgrees(y.0, y.1, k1);
    RightAgrees(Mix(Or(y.1, k1), y.0), y.1, k0);
    JoinIs(FLInv(y, k0, k1).0, FLInv(y, k0, k1).1);
  }

  lemma JoinIs(a: Word, b: Word)
    ensures Join(a, b) == Rfc3713.Both(a, b)
  {
  }
}
