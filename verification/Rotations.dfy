/** Rotations of 128-bit strings, by whole words and shifts within words (ROTL of camellia.c). */
module Rotations {

  type Word = bv32

  /** Four words as one 128-bit number. */
  function Cat(a: Word, b: Word, c: Word, d: Word): bv128 {
    ((a as bv128) << 96) | ((b as bv128) << 64) | ((c as bv128) << 32) | (d as bv128)
  }

  /** Rotation to the left, for the amounts that occur. */
  function Rotated(v: bv128, n: nat): bv128 {
    match n
    case 15 => (v << 15) | (v >> 113)
    case 30 => (v << 30) | (v >> 98)
    case 45 => (v << 45) | (v >> 83)
    case 60 => (v << 60) | (v >> 68)
    case 77 => (v << 77) | (v >> 51)
    case 94 => (v << 94) | (v >> 34)
    case 111 => (v << 111) | (v >> 17)
    case _ => v
  }

  lemma RotatedIsRotation(v: bv128)
    ensures Rotated(v, 15) == v.RotateLeft(15) && Rotated(v, 30) == v.RotateLeft(30) && Rotated(v, 45) == v.RotateLeft(45)
    ensures Rotated(v, 60) == v.RotateLeft(60) && Rotated(v, 77) == v.RotateLeft(77) && Rotated(v, 94) == v.RotateLeft(94)
    ensures Rotated(v, 111) == v.RotateLeft(111) && Rotated(v, 0) == v
  {
  }

  /** Word j of a 128-bit number, the most significant one first. */
  function WordOf(v: bv128, j: nat): Word {
    match j
    case 0 => (v >> 96) as Word
    case 1 => ((v >> 64) & 0xFFFF_FFFF) as Word
    case 2 => ((v >> 32) & 0xFFFF_FFFF) as Word
    case _ => (v & 0xFFFF_FFFF) as Word
  }

  predicate RotationUsed(n: nat) {
    n == 0 || n == 15 || n == 30 || n == 45 || n == 60 || n == 77 || n == 94 || n == 111
  }

  /** The shifts of the source, within two neighbouring words. */
  function Shifted(x: Word, y: Word, n: nat): Word {
    match n
    case 15 => (x << 15) ^ (y >> 17)
    case 30 => (x << 30) ^ (y >> 2)
    case 13 => (x << 13) ^ (y >> 19)
    case 28 => (x << 28) ^ (y >> 4)
    case _ => x
  }

  /** The words of v: the words a, b, c, d, each shifted by r bits towards the one before. */
  ghost predicate Spread(v: bv128, a: Word, b: Word, c: Word, d: Word, r: nat) {
    && WordOf(v, 0) == Shifted(a, b, r) && WordOf(v, 1) == Shifted(b, c, r)
    && WordOf(v, 2) == Shifted(c, d, r) && WordOf(v, 3) == Shifted(d, a, r)
  }

  /** Rotating by n bits moves whole words and shifts bits within them. */
  lemma RotationByWords(k: seq<Word>, n: nat, j: nat)
    requires |k| == 4 && RotationUsed(n) && j < 4
    ensures WordOf(Rotated(Cat(k[0], k[1], k[2], k[3]), n), j) == Shifted(k[(j + n / 32) % 4], k[(j + n / 32 + 1) % 4], n % 32)
  {
    hide Rotated, Cat, Spread, WordOf, Shifted;
    var a, b, c, d := k[0], k[1], k[2], k[3];
    if n == 0 {
      NoRotation(a, b, c, d);
    } else if n == 15 {
      Rotation15(a, b, c, d);
    } else if n == 30 {
      Rotation30(a, b, c, d);
    } else if n == 45 {
      Rotation45(a, b, c, d);
    } else if n == 60 {
      Rotation60(a, b, c, d);
    } else if n == 77 {
      Rotation77(a, b, c, d);
    } else if n == 94 {
      Rotation94(a, b, c, d);
    } else {
      Rotation111(a, b, c, d);
    }
    SpreadAt(Rotated(Cat(a, b, c, d), n), k, n / 32, n % 32, j);
  }

  lemma SpreadAt(v: bv128, k: seq<Word>, q: nat, r: nat, j: nat)
    requires |k| == 4 && q < 4 && j < 4
    requires q == 0 ==> Spread(v, k[0], k[1], k[2], k[3], r)
    requires q == 1 ==> Spread(v, k[1], k[2], k[3], k[0], r)
    requires q == 2 ==> Spread(v, k[2], k[3], k[0], k[1], r)
    requires q == 3 ==> Spread(v, k[3], k[0], k[1], k[2], r)
    ensures WordOf(v, j) == Shifted(k[(j + q) % 4], k[(j + q + 1) % 4], r)
  {
    hide WordOf, Shifted;
    if j == 0 {
    } else if j == 1 {
    } else if j == 2 {
    }
  }

  lemma NoRotation(a: Word, b: Word, c: Word, d: Word)
    ensures Spread(Rotated(Cat(a, b, c, d), 0), a, b, c, d, 0)
  {
  }

  lemma Rotation15(a: Word, b: Word, c: Word, d: Word)
    ensures Spread(Rotated(Cat(a, b, c, d), 15), a, b, c, d, 15)
  {
  }

  lemma Rotation30(a: Word, b: Word, c: Word, d: Word)
    ensures Spread(Rotated(Cat(a, b, c, d), 30), a, b, c, d, 30)
  {
  }

  lemma Rotation45(a: Word, b: Word, c: Word, d: Word)
    ensures Spread(Rotated(Cat(a, b, c, d), 45), b, c, d, a, 13)
  {
  }

  lemma Rotation60(a: Word, b: Word, c: Word, d: Word)
    ensures Spread(Rotated(Cat(a, b, c, d), 60), b, c, d, a, 28)
  {
  }

  lemma Rotation77(a: Word, b: Word, c: Word, d: Word)
    ensures Spread(Rotated(Cat(a, b, c, d), 77), c, d, a, b, 13)
  {
  }

  lemma Rotation94(a: Word, b: Word, c: Word, d: Word)
    ensures Spread(Rotated(Cat(a, b, c, d), 94), c, d, a, b, 30)
  {
  }

  lemma Rotation111(a: Word, b: Word, c: Word, d: Word)
    ensures Spread(Rotated(Cat(a, b, c, d), 111), d, a, b, c, 15)
  {
  }
}
