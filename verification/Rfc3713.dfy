/** Camellia as RFC 3713 writes it: 128-bit strings, 64-bit halves and single bytes, for arbitrary S-boxes. */
module Rfc3713 {
  import opened Rotations

  type Octet = bv8

  datatype Boxes = Boxes(s1: Octet -> Octet, s2: Octet -> Octet, s3: Octet -> Octet, s4: Octet -> Octet)

  /** Exclusive or of 64-bit strings, by name. */
  function Plus(x: bv64, y: bv64): bv64 {
    x ^ y
  }

  /** A 128-bit string. */
  datatype Wide = Wide(hi: bv64, lo: bv64)

  function Sum(x: Wide, y: Wide): Wide {
    Wide(Plus(x.hi, y.hi), Plus(x.lo, y.lo))
  }

  // ---- Section 2.4: the components -------------------------------------------------------

  function EightOctets(y1: Octet, y2: Octet, y3: Octet, y4: Octet, y5: Octet, y6: Octet, y7: Octet, y8: Octet): bv64 {
    ((y1 as bv64) << 56) | ((y2 as bv64) << 48) | ((y3 as bv64) << 40) | ((y4 as bv64) << 32)
    | ((y5 as bv64) << 24) | ((y6 as bv64) << 16) | ((y7 as bv64) << 8) | (y8 as bv64)
  }

  /** The linear part of F. */
  function P(t1: Octet, t2: Octet, t3: Octet, t4: Octet, t5: Octet, t6: Octet, t7: Octet, t8: Octet): bv64 {
    EightOctets(
      t1 ^ t3 ^ t4 ^ t6 ^ t7 ^ t8,
      t1 ^ t2 ^ t4 ^ t5 ^ t7 ^ t8,
      t1 ^ t2 ^ t3 ^ t5 ^ t6 ^ t8,
      t2 ^ t3 ^ t4 ^ t5 ^ t6 ^ t7,
      t1 ^ t2 ^ t6 ^ t7 ^ t8,
      t2 ^ t3 ^ t5 ^ t7 ^ t8,
      t3 ^ t4 ^ t5 ^ t6 ^ t8,
      t1 ^ t4 ^ t5 ^ t6 ^ t7)
  }

  /** Octet i of a 64-bit string, from the left. */
  function OctetAt(x: bv64, i: nat): Octet {
    match i
    case 0 => (x >> 56) as Octet
    case 1 => ((x >> 48) & 0xFF) as Octet
    case 2 => ((x >> 40) & 0xFF) as Octet
    case 3 => ((x >> 32) & 0xFF) as Octet
    case 4 => ((x >> 24) & 0xFF) as Octet
    case 5 => ((x >> 16) & 0xFF) as Octet
    case 6 => ((x >> 8) & 0xFF) as Octet
    case _ => (x & 0xFF) as Octet
  }

  /** The substitution, and the linear part. */
  function SP(t: Boxes, x: bv64): bv64 {
    P(t.s1(OctetAt(x, 0)), t.s2(OctetAt(x, 1)), t.s3(OctetAt(x, 2)), t.s4(OctetAt(x, 3)),
      t.s2(OctetAt(x, 4)), t.s3(OctetAt(x, 5)), t.s4(OctetAt(x, 6)), t.s1(OctetAt(x, 7)))
  }

  function F(t: Boxes, fin: bv64, ke: bv64): bv64 {
    SP(t, Plus(fin, ke))
  }

  function Left(x: bv64): bv32 {
    (x >> 32) as bv32
  }

  function Right(x: bv64): bv32 {
    (x & 0xFFFF_FFFF) as bv32
  }

  function Both(a: bv32, b: bv32): bv64 {
    ((a as bv64) << 32) | (b as bv64)
  }

  function OneLeft(x: bv32): bv32 {
    (x << 1) | (x >> 31)
  }

  lemma OneLeftRotates(x: bv32)
    ensures OneLeft(x) == x.RotateLeft(1)
  {
  }

  /** x2 = x2 ^ ((x1 & k1) <<< 1). */
  function FL2(x1: bv32, x2: bv32, k1: bv32): bv32 {
    OneLeft(x1 & k1) ^ x2
  }

  /** x1 = x1 ^ (x2 | k2). */
  function FL1(x1: bv32, x2: bv32, k2: bv32): bv32 {
    (x2 | k2) ^ x1
  }

  function FL(fin: bv64, ke: bv64): bv64 {
    var x2 := FL2(Left(fin), Right(fin), Left(ke));
    Both(FL1(Left(fin), x2, Right(ke)), x2)
  }

  function FLInv(fin: bv64, ke: bv64): bv64 {
    var y1 := FL1(Left(fin), Right(fin), Right(ke));
    Both(y1, FL2(y1, Right(fin), Left(ke)))
  }

  // ---- Section 2.2: the key schedule -----------------------------------------------------------

  datatype Part = KL | KR | KA | KB
  datatype Half = High | Low

  /** A half of a key part rotated to the left. */
  datatype Subkey = Subkey(part: Part, amount: nat, half: Half)

  /** The subkeys in the order of their use, for 128-bit keys: kw1, kw2, k1 to k6, ke1, ke2, k7 to k12, ke3, ke4, k13 to
      k18, kw3, kw4. */
  function Subkey128(n: nat): (s: Subkey)
    ensures RotationUsed(s.amount)
  {
    match n
    case 0 => Subkey(KL, 0, High)
    case 1 => Subkey(KL, 0, Low)
    case 2 => Subkey(KA, 0, High)
    case 3 => Subkey(KA, 0, Low)
    case 4 => Subkey(KL, 15, High)
    case 5 => Subkey(KL, 15, Low)
    case 6 => Subkey(KA, 15, High)
    case 7 => Subkey(KA, 15, Low)
    case 8 => Subkey(KA, 30, High)
    case 9 => Subkey(KA, 30, Low)
    case 10 => Subkey(KL, 45, High)
    case 11 => Subkey(KL, 45, Low)
    case 12 => Subkey(KA, 45, High)
    case 13 => Subkey(KL, 60, Low)
    case 14 => Subkey(KA, 60, High)
    case 15 => Subkey(KA, 60, Low)
    case 16 => Subkey(KL, 77, High)
    case 17 => Subkey(KL, 77, Low)
    case 18 => Subkey(KL, 94, High)
    case 19 => Subkey(KL, 94, Low)
    case 20 => Subkey(KA, 94, High)
    case 21 => Subkey(KA, 94, Low)
    case 22 => Subkey(KL, 111, High)
    case 23 => Subkey(KL, 111, Low)
    case 24 => Subkey(KA, 111, High)
    case _ => Subkey(KA, 111, Low)
  }

  /** For 192- and 256-bit keys: kw1, kw2, k1 to k6, ke1, ke2, and so on to k19 to k24, kw3, kw4. */
  function Subkey256(n: nat): (s: Subkey)
    ensures RotationUsed(s.amount)
  {
    match n
    case 0 => Subkey(KL, 0, High)
    case 1 => Subkey(KL, 0, Low)
    case 2 => Subkey(KB, 0, High)
    case 3 => Subkey(KB, 0, Low)
    case 4 => Subkey(KR, 15, High)
    case 5 => Subkey(KR, 15, Low)
    case 6 => Subkey(KA, 15, High)
    case 7 => Subkey(KA, 15, Low)
    case 8 => Subkey(KR, 30, High)
    case 9 => Subkey(KR, 30, Low)
    case 10 => Subkey(KB, 30, High)
    case 11 => Subkey(KB, 30, Low)
    case 12 => Subkey(KL, 45, High)
    case 13 => Subkey(KL, 45, Low)
    case 14 => Subkey(KA, 45, High)
    case 15 => Subkey(KA, 45, Low)
    case 16 => Subkey(KL, 60, High)
    case 17 => Subkey(KL, 60, Low)
    case 18 => Subkey(KR, 60, High)
    case 19 => Subkey(KR, 60, Low)
    case 20 => Subkey(KB, 60, High)
    case 21 => Subkey(KB, 60, Low)
    case 22 => Subkey(KL, 77, High)
    case 23 => Subkey(KL, 77, Low)
    case 24 => Subkey(KA, 77, High)
    case 25 => Subkey(KA, 77, Low)
    case 26 => Subkey(KR, 94, High)
    case 27 => Subkey(KR, 94, Low)
    case 28 => Subkey(KA, 94, High)
    case 29 => Subkey(KA, 94, Low)
    case 30 => Subkey(KL, 111, High)
    case 31 => Subkey(KL, 111, Low)
    case 32 => Subkey(KB, 111, High)
    case _ => Subkey(KB, 111, Low)
  }

  function SubkeyOf(idx: nat, n: nat): (s: Subkey)
    ensures RotationUsed(s.amount)
  {
    if idx == 0 then Subkey128(n) else Subkey256(n)
  }

  /** kw1 to kw4, counted from zero. */
  function Kw(idx: nat, i: nat): Subkey {
    SubkeyOf(idx, if i < 2 then i else 22 + 8 * idx + i)
  }

  function K(idx: nat, i: nat): Subkey {
    SubkeyOf(idx, 2 + i + 2 * (i / 6))
  }

  function Ke(idx: nat, i: nat): Subkey {
    SubkeyOf(idx, 8 + 8 * (i / 2) + i % 2)
  }

  /** Sigma1 to Sigma6. */
  function Sigma(i: nat): bv64 {
    match i
    case 1 => 0xA09E667F3BCC908B
    case 2 => 0xB67AE8584CAA73B2
    case 3 => 0xC6EF372FE94F82BE
    case 4 => 0x54FF53A5F1D36F1C
    case 5 => 0x10E527FADE682D1D
    case _ => 0xB05688C2B3E6C1FD
  }

  function MakeKA(t: Boxes, kl: Wide, kr: Wide): Wide {
    var d := Sum(kl, kr);
    var d2 := Plus(d.lo, F(t, d.hi, Sigma(1)));
    var d1 := Plus(d.hi, F(t, d2, Sigma(2)));
    var e1 := Plus(d1, kl.hi);
    var e2 := Plus(d2, kl.lo);
    var f2 := Plus(e2, F(t, e1, Sigma(3)));
    Wide(Plus(e1, F(t, f2, Sigma(4))), f2)
  }

  function MakeKB(t: Boxes, ka: Wide, kr: Wide): Wide {
    var d := Sum(ka, kr);
    var d2 := Plus(d.lo, F(t, d.hi, Sigma(5)));
    Wide(Plus(d.hi, F(t, d2, Sigma(6))), d2)
  }

  datatype Parts = Parts(kl: Wide, kr: Wide, ka: Wide, kb: Wide)

  function EightAt(s: seq<Octet>, i: nat): bv64
    requires i + 8 <= |s|
  {
    EightOctets(s[i], s[i + 1], s[i + 2], s[i + 3], s[i + 4], s[i + 5], s[i + 6], s[i + 7])
  }

  function FromOctets(s: seq<Octet>): Wide
    requires |s| == 16
  {
    Wide(EightAt(s, 0), EightAt(s, 8))
  }

  /** KL and KR: a 128-bit key has no right part, and the right part of a 192-bit key ends in its own complement. */
  function PartsOf(t: Boxes, key: seq<Octet>): Parts
    requires |key| in {16, 24, 32}
  {
    var kl := Wide(EightAt(key, 0), EightAt(key, 8));
    var kr := if |key| == 16 then Wide(0, 0) else Wide(EightAt(key, 16), if |key| == 24 then !EightAt(key, 16) else EightAt(key, 24));
    var ka := MakeKA(t, kl, kr);
    Parts(kl, kr, ka, MakeKB(t, ka, kr))
  }

  function PartOf(p: Parts, part: Part): Wide {
    match part
    case KL => p.kl
    case KR => p.kr
    case KA => p.ka
    case KB => p.kb
  }

  function Number(w: Wide): bv128 {
    ((w.hi as bv128) << 64) | (w.lo as bv128)
  }

  function HalfOf(v: bv128, h: Half): bv64 {
    match h
    case High => (v >> 64) as bv64
    case Low => (v & 0xFFFF_FFFF_FFFF_FFFF) as bv64
  }

  function Value(p: Parts, s: Subkey): bv64 {
    HalfOf(Rotated(Number(PartOf(p, s.part)), s.amount), s.half)
  }

  // ---- Section 2.3: the data randomizing part ------------------------------------------------------

  /** Rounds i + 1 to n, a layer after every sixth round but the last. */
  function Rounds(t: Boxes, p: Parts, idx: nat, d: Wide, i: nat, n: nat): Wide
    requires i <= n
    decreases n - i
  {
    if i == n then d
    else
      var x := if i % 2 == 0 then Wide(d.hi, Plus(d.lo, F(t, d.hi, Value(p, K(idx, i)))))
               else Wide(Plus(d.hi, F(t, d.lo, Value(p, K(idx, i)))), d.lo);
      var g := i / 6;
      var y := if i % 6 == 5 && i + 1 < n
               then Wide(FL(x.hi, Value(p, Ke(idx, 2 * g))), FLInv(x.lo, Value(p, Ke(idx, 2 * g + 1)))) else x;
      Rounds(t, p, idx, y, i + 1, n)
  }

  /** Encryption of M with a key of 16, 24 or 32 octets. */
  function Encrypt(t: Boxes, key: seq<Octet>, m: Wide): Wide
    requires |key| in {16, 24, 32}
  {
    var p, idx := PartsOf(t, key), if |key| == 16 then 0 else 1;
    var d := Rounds(t, p, idx, Wide(Plus(m.hi, Value(p, Kw(idx, 0))), Plus(m.lo, Value(p, Kw(idx, 1)))), 0, 18 + 6 * idx);
    Wide(Plus(d.lo, Value(p, Kw(idx, 2))), Plus(d.hi, Value(p, Kw(idx, 3))))
  }
}
