/** XTS with ciphertext stealing over an arbitrary block permutation (aes.c), sections 5.2 to 5.4 of IEEE Std 1619-2007. */
module Xts {
  import opened Arith
  import opened Bytes
  import opened Blocks
  import opened Gf128
  import Words

  datatype Direction = Encrypt | Decrypt

  datatype Status = Ok | InvalidLength

  // ---- The tweak -------------------------------------------------------------------

  /** 2^63 and 2^64, the bounds of the two words. */
  const TOP63: nat := 0x8000_0000_0000_0000
  const WORD64: nat := 0x1_0000_0000_0000_0000

  /** mbedtls_gf128mul_x_ble: both 64-bit words shift left, the bit that leaves comes back as 0x87. */
  function MulX(x: Block): Block {
    var a, b := LeVal(x[..8]), LeVal(x[8..]);
    var ra := LeBytes(a * 2 % WORD64, 8);
    var rb := LeBytes(a / TOP63 + b * 2 % WORD64, 8); // the bit that moves up fills a cleared one, so | is +
    ra[0 := if b / TOP63 == 1 then Xor8(ra[0], 0x87) else ra[0]] + rb
  }

  /** The product by x in GF(2^128) as section 5.2 has it: bytes double, each taking the top bit of the one below. */
  function DoubledByte(x: Block, k: nat): Byte
    requires k < 16
  {
    var d: int := x[k] as int * 2 % 256 + if k == 0 then 0 else x[k - 1] / 128;
    if k == 0 && x[15] / 128 == 1 then Xor8(d, 0x87) else d
  }

  function Bytewise(x: Block): Block {
    seq(16, k requires 0 <= k < 16 => DoubledByte(x, k))
  }

  /** Doubling a little-endian string of n bytes, with an incoming bit. */
  function Shifted(s: seq<Byte>, c: nat): (r: seq<Byte>)
    requires c <= 1
    ensures |r| == |s|
  {
    if s == [] then [] else
      var d: int := s[0] as int * 2 % 256 + c;
      [d] + Shifted(s[1..], s[0] / 128)
  }

  function OutBit(s: seq<Byte>): (c: nat)
    ensures c <= 1
  {
    if s == [] then 0 else s[|s| - 1] / 128
  }

  lemma DoubleAndCarry(x: nat, l: nat, c: nat, w: nat)
    requires x < 256 && c <= 1 && w == (x + 256 * l) * 2 + c
    ensures w % 256 == x * 2 % 256 + c && w / 256 == l * 2 + x / 128
  {
    var h, d := x / 128, x % 128;
    assert x * 2 == 256 * h + 2 * d;
    DivUnique(x * 2, 256, h, 2 * d);
    DivUnique(w, 256, l * 2 + h, 2 * d + c);
  }

  lemma {:induction false} ShiftedValue(s: seq<Byte>, c: nat)
    requires c <= 1
    ensures Shifted(s, c) == LeBytes(LeVal(s) * 2 + c, |s|)
    decreases |s|
  {
    if s != [] {
      ShiftedValue(s[1..], s[0] / 128);
      DoubleAndCarry(s[0], LeVal(s[1..]), c, LeVal(s) * 2 + c);
    }
  }

  lemma {:induction false} ShiftedAt(s: seq<Byte>, c: nat, k: nat)
    requires c <= 1 && k < |s|
    ensures Shifted(s, c)[k] == s[k] as int * 2 % 256 + if k == 0 then c else s[k - 1] as int / 128
  {
    if k > 0 {
      ShiftedAt(s[1..], s[0] / 128, k - 1);
    }
  }

  lemma ModParts(n: nat, p: nat, r: nat)
    requires p > 0 && r == n % (256 * p)
    ensures r % 256 == n % 256 && r / 256 == n / 256 % p
  {
    var d := n / (256 * p);
    var q, e := n / 256, n % 256;
    var f, g := q / p, q % p;
    assert n == 256 * (f * p + g) + e;
    assert 256 * (f * p + g) + e == f * (256 * p) + (256 * g + e);
    DivUnique(n, 256 * p, f, 256 * g + e);
    DivUnique(r, 256, g, e);
  }

  lemma {:induction false} LeBytesMod(n: nat, q: nat)
    ensures LeBytes(n, q) == LeBytes(n % Pow256(q), q)
  {
    if q > 0 {
      ModParts(n, Pow256(q - 1), n % Pow256(q));
      LeBytesMod(n / 256, q - 1);
    }
  }

  lemma WordPow()
    ensures Pow256(8) == WORD64 && Pow256(7) * 128 == TOP63
  {
    FourBytes();
    Pow256Add(4, 4);
    assert Pow256(8) == 256 * Pow256(7);
  }

  lemma TopBitOf(s: seq<Byte>)
    requires |s| == 8
    ensures LeVal(s) / TOP63 == OutBit(s) && LeVal(s) < WORD64
  {
    hide LeVal;
    WordPow();
    LeStep(s, 7);
    assert s[..8] == s;
    LeBound(s[..7]);
    LeBound(s);
    var lo, t := LeVal(s[..7]), s[7] as int;
    var h, l := t / 128, t % 128;
    assert t * Pow256(7) == h * TOP63 + l * Pow256(7);
    MulMono(l, 127, Pow256(7));
    DivUnique(LeVal(s), TOP63, h, lo + l * Pow256(7));
  }

  /** The two-word form computes the bytewise product of the standard. */
  lemma MulXIsBytewise(x: Block)
    ensures MulX(x) == Bytewise(x)
  {
    hide LeVal, LeBytes, Xor8;
    var s, t := x[..8], x[8..];
    WordPow();
    TopBitOf(s);
    TopBitOf(t);
    LeBytesMod(LeVal(s) * 2, 8);
    LeBytesMod(LeVal(t) * 2 + OutBit(s), 8);
    EvenRoom(LeVal(t) * 2, OutBit(s));
    ShiftedValue(s, 0);
    ShiftedValue(t, OutBit(s));
    forall k | 0 <= k < 16 ensures MulX(x)[k] == DoubledByte(x, k) {
      if k < 8 {
        ShiftedAt(s, 0, k);
      } else {
        ShiftedAt(t, OutBit(s), k - 8);
      }
    }
  }

  lemma EvenRoom(v: nat, c: nat)
    requires v % 2 == 0 && c <= 1
    ensures (v + c) % WORD64 == v % WORD64 + c
  {
    var h := v / 2;
    var q, r := h / TOP63, h % TOP63;
    assert v == q * WORD64 + 2 * r;
    DivUnique(v, WORD64, q, 2 * r);
    DivUnique(v + c, WORD64, q, 2 * r + c);
  }

  // ---- The tweak as a polynomial ---------------------------------------------------------

  lemma LowBits(v: Byte, i: nat)
    requires i < 7
    ensures v % 128 / Pow2(i) % 2 == v / Pow2(i) % 2
  {
    hide Pow2;
    SevenPowers();
    Pow2Add(i, 7 - i);
    Pow2Step(6 - i);
    LowQuotient(v, v / 128, v % 128, Pow2(i), Pow2(6 - i));
  }

  lemma LowQuotient(v: int, h: int, w: int, p: int, r: int)
    requires v == 128 * h + w && p * (2 * r) == 128 && p > 0 && w >= 0
    ensures v / p % 2 == w / p % 2
  {
    Recombined(v, h, w, p, r, w / p, w % p);
    DivUnique(v, p, 2 * (h * r) + w / p, w % p);
    EvenPart(h * r, w / p);
  }

  lemma Recombined(v: int, h: int, w: int, p: int, r: int, q: int, s: int)
    requires v == 128 * h + w && p * (2 * r) == 128 && w == q * p + s
    ensures v == (2 * (h * r) + q) * p + s
  {
    assert (2 * (h * r) + q) * p == h * (p * (2 * r)) + q * p;
  }

  lemma EvenPart(x: int, q: int)
    ensures (2 * x + q) % 2 == q % 2
  {
  }

  lemma SevenPowers()
    ensures Pow2(0) == 1 && Pow2(1) == 2 && Pow2(2) == 4 && Pow2(3) == 8 && Pow2(4) == 16
    ensures Pow2(5) == 32 && Pow2(6) == 64 && Pow2(7) == 128
  {
    Pow2Step(2);
    Pow2Step(4);
    Pow2Step(5);
    Pow2Step(6);
    Words.Pow2Limb();
  }

  /** Doubling moves each bit up by one place. */
  lemma DoubledBit(v: Byte, c: nat, i: nat)
    requires c <= 1 && i < 8
    ensures (v as int * 2 % 256 + c) / Pow2(i) % 2 == if i == 0 then c else v / Pow2(i - 1) % 2
  {
    hide Pow2;
    var d := v as int * 2 % 256 + c;
    assert d == 2 * (v % 128) + c;
    BitBelow(d, i);
    if i > 0 {
      LowBits(v, i - 1);
    }
  }

  /** x^7 + x^2 + x + 1. */
  lemma FeedbackBits(i: nat)
    requires i < 8
    ensures 0x87 / Pow2(i) % 2 == if i == 0 || i == 1 || i == 2 || i == 7 then 1 else 0
  {
    hide Pow2;
    SevenPowers();
    if i == 3 {
    } else if i == 4 {
    } else if i == 5 {
    } else if i == 6 {
    }
  }

  /** Bit e of the doubled block: the bit below it, flipped at the terms of the modulus when the top bit left. */
  lemma MulXBit(x: Block, e: nat)
    requires e < 128
    ensures var below := e > 0 && BlockBit(x, e - 1) == 1;
            var flipped := BlockBit(x, 127) == 1 && (e == 0 || e == 1 || e == 2 || e == 7);
            BlockBit(MulX(x), e) == 1 <==> below != flipped
  {
    hide Pow2, MulX, Xor8;
    MulXIsBytewise(x);
    SevenPowers();
    var k, i := e / 8, e % 8;
    var c := if k == 0 then 0 else x[k - 1] / 128;
    var d: int := x[k] as int * 2 % 256 + c;
    DoubledBit(x[k], c, i);
    if e > 0 {
      BitBelowBlock(x, e);
    }
    assert BlockBit(x, 127) == x[15] / Pow2(7) % 2;
    TopBit(x[15]);
    if k == 0 && x[15] / 128 == 1 {
      ByteOps(d, 0x87, i);
      FeedbackBits(i);
    }
  }

  lemma BitBelowBlock(x: Block, e: nat)
    requires 0 < e < 128
    ensures BlockBit(x, e - 1) == if e % 8 > 0 then x[e / 8] / Pow2(e % 8 - 1) % 2 else x[e / 8 - 1] / 128
  {
    hide Pow2;
    var k, i := e / 8, e % 8;
    if i > 0 {
      assert (e - 1) / 8 == k && (e - 1) % 8 == i - 1;
    } else {
      assert (e - 1) / 8 == k - 1 && (e - 1) % 8 == 7;
      TopBit(x[k - 1]);
    }
  }

  lemma TopBit(v: Byte)
    ensures v / Pow2(7) % 2 == v / 128
  {
    hide Pow2;
    SevenPowers();
  }

  /** One doubling is the product by x in the field. */
  lemma MulXIsTimesX(x: Block)
    ensures Congruent(PolyOf(MulX(x)), TimesX(PolyOf(x), 1))
  {
    hide MulX, BlockBit, TimesX;
    var q: Poly := if BlockBit(x, 127) == 1 then {0} else {};
    var a, b := PolyOf(MulX(x)), TimesX(PolyOf(x), 1);
    forall e: nat ensures e in Add(a, b) <==> e in TimesModulus(q) {
      if e < 128 {
        MulXBit(x, e);
      }
      TimesXHas(PolyOf(x), 1, e);
      ModulusHas(q, e);
    }
    assert Add(a, b) == TimesModulus(q);
  }

  /** The terms of the modulus, or none. */
  lemma ModulusHas(q: Poly, e: nat)
    requires q == {0} || q == {}
    ensures e in TimesModulus(q) <==> q == {0} && (e == 128 || e == 7 || e == 2 || e == 1 || e == 0)
  {
    hide TimesX;
    TimesXHas(q, 128, e);
    TimesXHas(q, 7, e);
    TimesXHas(q, 2, e);
    TimesXHas(q, 1, e);
  }

  // ---- The definition ---------------------------------------------------------------

  /** The tweak of block j. */
  function TweakAt(t: Block, j: nat): Block {
    if j == 0 then t else MulX(TweakAt(t, j - 1))
  }

  /** One block, encrypted or decrypted under its tweak. */
  function XtsBlock(F: Block -> Block, t: Block, x: Block): Block {
    Xor(F(Xor(x, t)), t)
  }

  /** Whole blocks from tweak number j on. */
  function XtsBlocks(F: Block -> Block, t: Block, j: nat, s: seq<Byte>): (r: seq<Byte>)
    requires |s| % 16 == 0
    ensures |r| == |s|
    decreases |s|
  {
    if s == [] then [] else XtsBlock(F, TweakAt(t, j), s[..16]) + XtsBlocks(F, t, j + 1, s[16..])
  }

  /** Section 5.3: with leftover bytes, the last full block gives up the end of its ciphertext. */
  function Encrypted(E: Block -> Block, t: Block, p: seq<Byte>): (c: seq<Byte>)
    requires |p| >= 16
    ensures |c| == |p|
  {
    var m, b := |p| / 16, |p| % 16;
    if b == 0 then XtsBlocks(E, t, 0, p)
    else
      var cc := XtsBlock(E, TweakAt(t, m - 1), p[16 * (m - 1)..16 * m]);
      XtsBlocks(E, t, 0, p[..16 * (m - 1)]) + XtsBlock(E, TweakAt(t, m), p[16 * m..] + cc[b..]) + cc[..b]
  }

  /** Section 5.4: the last full block is decrypted with the later tweak. */
  function Decrypted(D: Block -> Block, t: Block, c: seq<Byte>): (p: seq<Byte>)
    requires |c| >= 16
    ensures |p| == |c|
  {
    var m, b := |c| / 16, |c| % 16;
    if b == 0 then XtsBlocks(D, t, 0, c)
    else
      var pp := XtsBlock(D, TweakAt(t, m), c[16 * (m - 1)..16 * m]);
      XtsBlocks(D, t, 0, c[..16 * (m - 1)]) + XtsBlock(D, TweakAt(t, m - 1), c[16 * m..] + pp[b..]) + pp[..b]
  }

  /** D undoes E. */
  ghost predicate Undoes(D: Block -> Block, E: Block -> Block) {
    forall x: Block :: D(E(x)) == x
  }

  lemma BlockInverse(E: Block -> Block, D: Block -> Block, t: Block, x: Block)
    requires Undoes(D, E)
    ensures XtsBlock(D, t, XtsBlock(E, t, x)) == x
  {
    hide Xor;
    XorTwice(E(Xor(x, t)), t);
    XorTwice(x, t);
  }

  lemma {:induction false} BlocksInverse(E: Block -> Block, D: Block -> Block, t: Block, j: nat, s: seq<Byte>)
    requires |s| % 16 == 0 && Undoes(D, E)
    ensures XtsBlocks(D, t, j, XtsBlocks(E, t, j, s)) == s
    decreases |s|
  {
    hide Undoes, XtsBlock, TweakAt;
    if s != [] {
      BlockInverse(E, D, TweakAt(t, j), s[..16]);
      BlocksInverse(E, D, t, j + 1, s[16..]);
      var c := XtsBlocks(E, t, j, s);
      assert c[..16] == XtsBlock(E, TweakAt(t, j), s[..16]) && c[16..] == XtsBlocks(E, t, j + 1, s[16..]);
    }
  }

  /** Decrypting the encryption gives the plaintext back, for every length of at least one block. */
  lemma XtsInverse(E: Block -> Block, D: Block -> Block, t: Block, p: seq<Byte>)
    requires |p| >= 16 && Undoes(D, E)
    ensures Decrypted(D, t, Encrypted(E, t, p)) == p
  {
    hide Undoes, XtsBlock, TweakAt, XtsBlocks;
    var m, b := |p| / 16, |p| % 16;
    if b == 0 {
      BlocksInverse(E, D, t, 0, p);
    } else {
      var head, last, rest := p[..16 * (m - 1)], p[16 * (m - 1)..16 * m], p[16 * m..];
      var cc := XtsBlock(E, TweakAt(t, m - 1), last);
      var c := Encrypted(E, t, p);
      BlocksInverse(E, D, t, 0, head);
      BlockInverse(E, D, TweakAt(t, m), rest + cc[b..]);
      BlockInverse(E, D, TweakAt(t, m - 1), last);
      assert c[..16 * (m - 1)] == XtsBlocks(E, t, 0, head);
      assert c[16 * (m - 1)..16 * m] == XtsBlock(E, TweakAt(t, m), rest + cc[b..]);
      assert c[16 * m..] == cc[..b];
      var pp := rest + cc[b..];
      assert pp[b..] == cc[b..] && pp[..b] == rest;
      assert cc[..b] + cc[b..] == cc;
      assert p == head + last + rest;
    }
  }

  // ---- The standard, block by block ---------------------------------------------------------

  /** The tweaks of section 5.3.1: the one of block j is t times x^j in the field. */
  ghost predicate Powers(T: seq<Block>, t: Block) {
    forall j :: 0 <= j < |T| ==> Congruent(PolyOf(T[j]), TimesX(PolyOf(t), j))
  }

  lemma {:induction false} TweakIsPower(t: Block, j: nat)
    ensures Congruent(PolyOf(TweakAt(t, j)), TimesX(PolyOf(t), j))
  {
    hide Congruent, PolyOf, TimesX, MulX;
    if j == 0 {
      TimesXZero(PolyOf(t));
      CongruentRefl(PolyOf(t));
    } else {
      TweakIsPower(t, j - 1);
      var x := TweakAt(t, j - 1);
      MulXIsTimesX(x);
      CongruentTimesX(PolyOf(x), TimesX(PolyOf(t), j - 1), 1);
      TimesXTwice(PolyOf(t), j - 1, 1);
      CongruentTrans(PolyOf(MulX(x)), TimesX(PolyOf(x), 1), TimesX(PolyOf(t), j));
    }
  }

  /** There are such tweaks, and only these. */
  lemma PowersAreTweaks(T: seq<Block>, t: Block)
    ensures Powers(T, t) <==> forall j :: 0 <= j < |T| ==> T[j] == TweakAt(t, j)
  {
    hide Congruent, TimesX, TweakAt;
    forall j | 0 <= j < |T|
      ensures Congruent(PolyOf(T[j]), TimesX(PolyOf(t), j)) <==> T[j] == TweakAt(t, j)
    {
      TweakIsPower(t, j);
      if Congruent(PolyOf(T[j]), TimesX(PolyOf(t), j)) {
        var p, q := PolyOf(T[j]), PolyOf(TweakAt(t, j));
        CongruentSym(q, TimesX(PolyOf(t), j));
        CongruentTrans(p, TimesX(PolyOf(t), j), q);
        CongruentUnique(p, q);
        PolyInjective(T[j], TweakAt(t, j));
      }
    }
  }

  /** The first m blocks of r are those of s, each masked with its own tweak before and after F. */
  ghost predicate ByBlocks(F: Block -> Block, T: seq<Block>, s: seq<Byte>, r: seq<Byte>, m: nat)
    requires m <= |T| && 16 * m <= |s| && 16 * m <= |r|
  {
    forall j :: 0 <= j < m ==> r[16 * j..16 * j + 16] == Xor(F(Xor(s[16 * j..16 * j + 16], T[j])), T[j])
  }

  /** Sections 5.3.2 and 5.4.2. The last full block and the one after it use tweaks m - 1 and m, and in the opposite order
      when decrypting. */
  ghost predicate Processed(F: Block -> Block, mode: Direction, T: seq<Block>, s: seq<Byte>, r: seq<Byte>)
    requires |s| >= 16 && |T| == |s| / 16 + 1
  {
    var m, b := |s| / 16, |s| % 16;
    |r| == |s| &&
    if b == 0 then ByBlocks(F, T, s, r, m)
    else
      var first, second := if mode == Encrypt then T[m - 1] else T[m], if mode == Encrypt then T[m] else T[m - 1];
      var x := Xor(F(Xor(s[16 * (m - 1)..16 * m], first)), first);
      && ByBlocks(F, T, s, r, m - 1)
      && r[16 * m..] == x[..b]
      && r[16 * (m - 1)..16 * m] == Xor(F(Xor(s[16 * m..] + x[b..], second)), second)
  }

  lemma {:induction false} BlockOf(F: Block -> Block, t: Block, i: nat, s: seq<Byte>, j: nat)
    requires |s| % 16 == 0 && 16 * j + 16 <= |s|
    ensures XtsBlocks(F, t, i, s)[16 * j..16 * j + 16] == XtsBlock(F, TweakAt(t, i + j), s[16 * j..16 * j + 16])
    decreases j
  {
    hide XtsBlock, TweakAt;
    if j > 0 {
      BlockOf(F, t, i + 1, s[16..], j - 1);
      assert s[16..][16 * (j - 1)..16 * j] == s[16 * j..16 * j + 16];
      assert XtsBlocks(F, t, i, s)[16..] == XtsBlocks(F, t, i + 1, s[16..]);
      assert XtsBlocks(F, t, i, s)[16 * j..16 * j + 16] == XtsBlocks(F, t, i, s)[16..][16 * (j - 1)..16 * j];
    }
  }

  lemma BlocksOf(F: Block -> Block, T: seq<Block>, t: Block, s: seq<Byte>, r: seq<Byte>, m: nat)
    requires Powers(T, t) && m <= |T| && 16 * m <= |s| && 16 * m <= |r| && r[..16 * m] == XtsBlocks(F, t, 0, s[..16 * m])
    ensures ByBlocks(F, T, s, r, m)
  {
    hide Powers, TweakAt, XtsBlocks, Xor;
    PowersAreTweaks(T, t);
    forall j | 0 <= j < m ensures r[16 * j..16 * j + 16] == Xor(F(Xor(s[16 * j..16 * j + 16], T[j])), T[j]) {
      BlockOf(F, t, 0, s[..16 * m], j);
      assert s[..16 * m][16 * j..16 * j + 16] == s[16 * j..16 * j + 16];
      assert r[..16 * m][16 * j..16 * j + 16] == r[16 * j..16 * j + 16];
    }
  }

  /** The definitions above are the standard's. */
  lemma DefinitionsAreStandard(F: Block -> Block, mode: Direction, T: seq<Block>, t: Block, s: seq<Byte>)
    requires |s| >= 16 && |T| == |s| / 16 + 1 && Powers(T, t)
    ensures Processed(F, mode, T, s, if mode == Encrypt then Encrypted(F, t, s) else Decrypted(F, t, s))
  {
    hide Powers, TweakAt, XtsBlocks, Xor, ByBlocks;
    PowersAreTweaks(T, t);
    var m, b := |s| / 16, |s| % 16;
    var r := if mode == Encrypt then Encrypted(F, t, s) else Decrypted(F, t, s);
    if b == 0 {
      assert s[..16 * m] == s && r[..16 * m] == r;
      BlocksOf(F, T, t, s, r, m);
    } else {
      assert r[..16 * (m - 1)] == XtsBlocks(F, t, 0, s[..16 * (m - 1)]);
      BlocksOf(F, T, t, s, r, m - 1);
    }
  }

  // ---- The streaming form -----------------------------------------------------------------

  lemma {:induction false} BlocksNext(F: Block -> Block, t: Block, j: nat, s: seq<Byte>, x: Block)
    requires |s| % 16 == 0
    ensures XtsBlocks(F, t, j, s + x) == XtsBlocks(F, t, j, s) + XtsBlock(F, TweakAt(t, j + |s| / 16), x)
    decreases |s|
  {
    hide XtsBlock, TweakAt;
    if s == [] {
      assert x[..16] == x && x[16..] == [] && s + x == x;
    } else {
      assert (s + x)[..16] == s[..16] && (s + x)[16..] == s[16..] + x;
      BlocksNext(F, t, j + 1, s[16..], x);
    }
  }

  /** The block in progress when the tweaks are swapped: the last one of a decryption with leftover bytes. */
  predicate Swaps(mode: Direction, b: nat, m: nat, j: nat) {
    b > 0 && mode == Decrypt && j + 1 == m
  }

  /** What the first j blocks of output hold, of m in all with b leftover bytes. */
  ghost function Stage(F: Block -> Block, mode: Direction, t: Block, input: seq<Byte>, m: nat, b: nat, j: nat): seq<Byte>
    requires j <= m && 16 * m <= |input|
  {
    if j > 0 && Swaps(mode, b, m, j - 1)
    then XtsBlocks(F, t, 0, input[..16 * (j - 1)]) + XtsBlock(F, TweakAt(t, m), input[16 * (j - 1)..16 * j])
    else XtsBlocks(F, t, 0, input[..16 * j])
  }

  lemma StageNext(F: Block -> Block, mode: Direction, t: Block, input: seq<Byte>, m: nat, b: nat, j: nat, tweak: Block)
    requires j < m && 16 * m <= |input| && tweak == TweakAt(t, if Swaps(mode, b, m, j) then j + 1 else j)
    ensures Stage(F, mode, t, input, m, b, j + 1)
            == Stage(F, mode, t, input, m, b, j) + XtsBlock(F, tweak, input[16 * j..16 * j + 16])
  {
    hide XtsBlock, TweakAt, XtsBlocks;
    var x := input[16 * j..16 * j + 16];
    assert input[..16 * j] + x == input[..16 * (j + 1)];
    if !Swaps(mode, b, m, j) {
      BlocksNext(F, t, 0, input[..16 * j], x);
      assert |input[..16 * j]| / 16 == j;
    }
  }

  /** The loop over the full blocks; a swap leaves the earlier tweak in prev. */
  method FullBlocks(F: Block -> Block, mode: Direction, t: Block, input: seq<Byte>, output: array<Byte>, m: nat, b: nat)
    returns (tweak: Block, prev: Block)
    requires 16 * m <= |input| == output.Length && m > 0
    modifies output
    ensures output[..16 * m] == Stage(F, mode, t, input, m, b, m)
    ensures b > 0 && mode == Decrypt ==> prev == TweakAt(t, m - 1)
    ensures mode == Encrypt ==> tweak == TweakAt(t, m)
  {
    hide XtsBlock, MulX, Stage;
    tweak, prev := t, t;
    var j := 0;
    assert output[..0] == [];
    StageStart(F, mode, t, input, m, b);
    while j < m
      invariant 0 <= j <= m && output[..16 * j] == Stage(F, mode, t, input, m, b, j)
      invariant tweak == TweakAt(t, if j > 0 && Swaps(mode, b, m, j - 1) then j + 1 else j)
      invariant j > 0 && Swaps(mode, b, m, j - 1) ==> prev == TweakAt(t, m - 1)
    {
      if b > 0 && mode == Decrypt && j + 1 == m {
        prev := tweak;
        tweak := MulX(tweak);
      }
      StageNext(F, mode, t, input, m, b, j, tweak);
      CopyOut(output, 16 * j, XtsBlock(F, tweak, input[16 * j..16 * j + 16]));
      tweak := MulX(tweak);
      j := j + 1;
    }
  }

  lemma StageStart(F: Block -> Block, mode: Direction, t: Block, input: seq<Byte>, m: nat, b: nat)
    requires 16 * m <= |input| && m > 0
    ensures Stage(F, mode, t, input, m, b, 0) == []
  {
  }

  /** Ciphertext stealing: the leftover bytes take the start of the block before, which is redone. */
  method Steal(F: Block -> Block, t: Block, input: seq<Byte>, output: array<Byte>, m: nat, b: nat)
    requires m > 0 && 0 < b < 16 && 16 * m + b == |input| == output.Length
    modifies output
    ensures var cc := old(output[16 * (m - 1)..16 * m]);
            output[..] == old(output[..16 * (m - 1)]) + XtsBlock(F, t, input[16 * m..] + cc[b..]) + cc[..b]
  {
    hide Xor8;
    ghost var head, cc: Block := output[..16 * (m - 1)], output[16 * (m - 1)..16 * m];
    var prev := 16 * (m - 1);
    for i := 0 to b
      invariant output[..16 * m] == head + cc && output[16 * m..16 * m + i] == cc[..i]
    {
      assert output[prev + i] == (head + cc)[prev + i];
      output[16 * m + i] := output[prev + i];
    }
    assert output[prev + b..prev + 16] == cc[b..];
    var tmp: Block := Xor(input[16 * m..], t) + Xor(output[prev + b..prev + 16], t[b..]);
    assert tmp == Xor(input[16 * m..] + cc[b..], t);
    tmp := F(tmp);
    assert output[16 * m..] == cc[..b];
    CopyOut(output, prev, Xor(tmp, t));
    assert output[..] == output[..16 * m] + output[16 * m..];
  }

  /** mbedtls_aes_crypt_xts. K1 is the data key's permutation with its inverse D, K2 encrypts the tweak. */
  method CryptXts(E: Block -> Block, D: Block -> Block, K2: Block -> Block, mode: Direction, unit: Block,
                  input: seq<Byte>, output: array<Byte>) returns (st: Status)
    requires output.Length == |input|
    modifies output
    ensures st == if 16 <= |input| <= 16 * 0x10_0000 then Ok else InvalidLength
    ensures st == Ok ==> output[..] == if mode == Encrypt then Encrypted(E, K2(unit), input) else Decrypted(D, K2(unit), input)
    ensures st == Ok ==> forall T: seq<Block> :: |T| == |input| / 16 + 1 && Powers(T, K2(unit)) ==>
                Processed(if mode == Encrypt then E else D, mode, T, input, output[..])
    ensures |input| == 16 && mode == Encrypt ==> output[..] == Xor(E(Xor(input, K2(unit))), K2(unit))
    ensures st != Ok ==> output[..] == old(output[..])
  {
    hide XtsBlock, XtsBlocks, TweakAt;
    if |input| < 16 {
      return InvalidLength;
    }
    if |input| > 0x10_0000 * 16 {
      return InvalidLength;
    }
    var m, b := |input| / 16, |input| % 16;
    var F := if mode == Encrypt then E else D;
    var t := K2(unit);
    var tweak, prev := FullBlocks(F, mode, t, input, output, m, b);
    assert input[..16 * m] == input[..16 * (m - 1)] + input[16 * (m - 1)..16 * m];
    if b > 0 {
      LastBlock(F, mode, t, input, m, b, output[..16 * m]);
      assert output[..16 * m][..16 * (m - 1)] == output[..16 * (m - 1)];
      assert output[..16 * m][16 * (m - 1)..] == output[16 * (m - 1)..16 * m];
      Steal(F, if mode == Decrypt then prev else tweak, input, output, m, b);
    } else {
      assert output[..16 * m] == output[..] && input[..16 * m] == input;
    }
    st := Ok;
    MeetsStandard(F, mode, t, input, output[..]);
  }

  lemma MeetsStandard(F: Block -> Block, mode: Direction, t: Block, s: seq<Byte>, r: seq<Byte>)
    requires |s| >= 16 && r == if mode == Encrypt then Encrypted(F, t, s) else Decrypted(F, t, s)
    ensures forall T: seq<Block> :: |T| == |s| / 16 + 1 && Powers(T, t) ==> Processed(F, mode, T, s, r)
    ensures |s| == 16 && mode == Encrypt ==> r == Xor(F(Xor(s, t)), t)
  {
    hide Powers, Processed, Xor;
    forall T: seq<Block> | |T| == |s| / 16 + 1 && Powers(T, t) ensures Processed(F, mode, T, s, r) {
      DefinitionsAreStandard(F, mode, T, t, s);
    }
    if |s| == 16 {
      assert s[..16] == s && s[16..] == [];
    }
  }

  /** The two parts of the output before stealing. */
  lemma LastBlock(F: Block -> Block, mode: Direction, t: Block, input: seq<Byte>, m: nat, b: nat, out: seq<Byte>)
    requires m > 0 && b > 0 && 16 * m <= |input| && out == Stage(F, mode, t, input, m, b, m)
    ensures out[..16 * (m - 1)] == XtsBlocks(F, t, 0, input[..16 * (m - 1)])
    ensures out[16 * (m - 1)..] == XtsBlock(F, TweakAt(t, if mode == Decrypt then m else m - 1), input[16 * (m - 1)..16 * m])
  {
    hide XtsBlock, XtsBlocks, TweakAt;
    var head, last := input[..16 * (m - 1)], input[16 * (m - 1)..16 * m];
    BlocksNext(F, t, 0, head, last);
    assert |head| / 16 == m - 1;
    assert head + last == input[..16 * m];
  }

  /** Encrypting a data unit and decrypting the result, for any block permutation. */
  method EncryptThenDecrypt(E: Block -> Block, D: Block -> Block, K2: Block -> Block, unit: Block, plain: seq<Byte>)
    returns (st: Status, decrypted: seq<Byte>)
    requires Undoes(D, E)
    ensures st == if 16 <= |plain| <= 16 * 0x10_0000 then Ok else InvalidLength
    ensures st == Ok ==> decrypted == plain
  {
    hide Undoes, Encrypted, Decrypted;
    decrypted := [];
    var cipher, output := new Byte[|plain|], new Byte[|plain|];
    st := CryptXts(E, D, K2, Encrypt, unit, plain, cipher);
    if st == Ok {
      XtsInverse(E, D, K2(unit), plain);
      st := CryptXts(E, D, K2, Decrypt, unit, cipher[..], output);
      decrypted := output[..];
    }
  }
}
