/** GF(2^128) as polynomials over GF(2) modulo x^128 + x^7 + x^2 + x + 1, section 5.2 of IEEE Std 1619-2007. */
module Gf128 {
  import opened Arith
  import opened Bytes
  import opened Blocks
  import Words

  /** A polynomial over GF(2): the exponents whose coefficient is one. */
  type Poly = set<nat>

  ghost function Add(a: Poly, b: Poly): Poly {
    (a - b) + (b - a)
  }

  /** The product by x^k. */
  ghost function TimesX(a: Poly, k: nat): Poly {
    set e | e in a :: e + k
  }

  /** The product by x^128 + x^7 + x^2 + x + 1. */
  ghost function TimesModulus(q: Poly): Poly {
    Add(TimesX(q, 128), Add(TimesX(q, 7), Add(TimesX(q, 2), Add(TimesX(q, 1), q))))
  }

  ghost predicate Congruent(a: Poly, b: Poly) {
    exists q: Poly :: Add(a, b) == TimesModulus(q)
  }

  /** Bit e of a block, the least significant bit of the first byte being bit 0. */
  function BlockBit(x: Block, e: nat): nat
    requires e < 128
  {
    x[e / 8] / Pow2(e % 8) % 2
  }

  /** The polynomial a block stands for. */
  ghost function PolyOf(x: Block): Poly {
    set e: nat | e < 128 && BlockBit(x, e) == 1
  }

  // ---- The ring ---------------------------------------------------------------------

  lemma AddHas(a: Poly, b: Poly, e: nat)
    ensures e in Add(a, b) <==> ((e in a) != (e in b))
  {
  }

  lemma TimesXHas(a: Poly, k: nat, e: nat)
    ensures e in TimesX(a, k) <==> e >= k && e - k in a
  {
    if e >= k && e - k in a {
      assert (e - k) + k in TimesX(a, k);
    }
  }

  /** Sums in any order, and terms that cancel. */
  lemma AddLaws(a: Poly, b: Poly, c: Poly)
    ensures Add(a, b) == Add(b, a) && Add(Add(a, b), c) == Add(a, Add(b, c)) && Add(a, {}) == a && Add(a, a) == {}
  {
  }

  lemma FourSum(a: Poly, b: Poly, c: Poly, d: Poly)
    ensures Add(Add(a, b), Add(c, d)) == Add(Add(a, c), Add(b, d))
  {
  }

  lemma TimesXAdd(a: Poly, b: Poly, k: nat)
    ensures TimesX(Add(a, b), k) == Add(TimesX(a, k), TimesX(b, k))
  {
    forall e: nat ensures e in TimesX(Add(a, b), k) <==> e in Add(TimesX(a, k), TimesX(b, k)) {
      TimesXHas(Add(a, b), k, e);
      TimesXHas(a, k, e);
      TimesXHas(b, k, e);
    }
  }

  lemma TimesXTwice(a: Poly, j: nat, k: nat)
    ensures TimesX(TimesX(a, j), k) == TimesX(a, j + k)
  {
    forall e: nat ensures e in TimesX(TimesX(a, j), k) <==> e in TimesX(a, j + k) {
      TimesXHas(TimesX(a, j), k, e);
      if e >= k {
        TimesXHas(a, j, e - k);
      }
      TimesXHas(a, j + k, e);
    }
  }

  lemma TimesXZero(a: Poly)
    ensures TimesX(a, 0) == a
  {
    forall e: nat ensures e in TimesX(a, 0) <==> e in a {
      TimesXHas(a, 0, e);
    }
  }

  lemma ModulusAdd(q: Poly, r: Poly)
    ensures TimesModulus(Add(q, r)) == Add(TimesModulus(q), TimesModulus(r))
  {
    hide Add, TimesX;
    TimesXAdd(q, r, 128);
    TimesXAdd(q, r, 7);
    TimesXAdd(q, r, 2);
    TimesXAdd(q, r, 1);
    FourSum(TimesX(q, 1), TimesX(r, 1), q, r);
    var q1, r1 := Add(TimesX(q, 1), q), Add(TimesX(r, 1), r);
    FourSum(TimesX(q, 2), TimesX(r, 2), q1, r1);
    var q2, r2 := Add(TimesX(q, 2), q1), Add(TimesX(r, 2), r1);
    FourSum(TimesX(q, 7), TimesX(r, 7), q2, r2);
    FourSum(TimesX(q, 128), TimesX(r, 128), Add(TimesX(q, 7), q2), Add(TimesX(r, 7), r2));
  }

  lemma ModulusTimesX(q: Poly, k: nat)
    ensures TimesX(TimesModulus(q), k) == TimesModulus(TimesX(q, k))
  {
    hide Add, TimesX;
    var q1 := Add(TimesX(q, 1), q);
    var q2 := Add(TimesX(q, 2), q1);
    TimesXAdd(TimesX(q, 128), Add(TimesX(q, 7), q2), k);
    TimesXAdd(TimesX(q, 7), q2, k);
    TimesXAdd(TimesX(q, 2), q1, k);
    TimesXAdd(TimesX(q, 1), q, k);
    Commuted(q, 128, k);
    Commuted(q, 7, k);
    Commuted(q, 2, k);
    Commuted(q, 1, k);
  }

  lemma Commuted(q: Poly, j: nat, k: nat)
    ensures TimesX(TimesX(q, j), k) == TimesX(TimesX(q, k), j)
  {
    TimesXTwice(q, j, k);
    TimesXTwice(q, k, j);
  }

  lemma CongruentTimesX(a: Poly, b: Poly, k: nat)
    requires Congruent(a, b)
    ensures Congruent(TimesX(a, k), TimesX(b, k))
  {
    hide Add, TimesX, TimesModulus;
    var q: Poly :| Add(a, b) == TimesModulus(q);
    TimesXAdd(a, b, k);
    ModulusTimesX(q, k);
    assert Add(TimesX(a, k), TimesX(b, k)) == TimesModulus(TimesX(q, k));
  }

  lemma CongruentTrans(a: Poly, b: Poly, c: Poly)
    requires Congruent(a, b) && Congruent(b, c)
    ensures Congruent(a, c)
  {
    hide Add, TimesX, TimesModulus;
    var q: Poly :| Add(a, b) == TimesModulus(q);
    var r: Poly :| Add(b, c) == TimesModulus(r);
    ModulusAdd(q, r);
    AddLaws(a, b, Add(b, c));
    AddLaws(b, b, c);
    AddLaws(c, {}, {});
    AddLaws({}, c, {});
    assert Add(Add(a, b), Add(b, c)) == Add(a, c);
    assert Add(a, c) == TimesModulus(Add(q, r));
  }

  lemma CongruentSym(a: Poly, b: Poly)
    requires Congruent(a, b)
    ensures Congruent(b, a)
  {
    AddLaws(a, b, {});
  }

  lemma CongruentRefl(a: Poly)
    ensures Congruent(a, a)
  {
    AddLaws(a, a, {});
    assert TimesModulus({}) == {};
  }

  // ---- Unique representatives -------------------------------------------------------

  lemma {:induction false} Largest(q: Poly) returns (m: nat)
    requires q != {}
    ensures m in q && forall e :: e in q ==> e <= m
  {
    var e :| e in q;
    m := e;
    if q != {e} {
      var rest := q - {e};
      assert exists f :: f in q && f != e;
      var n := Largest(rest);
      m := if n > e then n else e;
      assert forall f :: f in q ==> f == e || f in rest;
    }
  }

  /** A multiple of the modulus other than zero has a term of degree at least 128. */
  lemma HighTerm(q: Poly, m: nat)
    requires m in q && forall e :: e in q ==> e <= m
    ensures m + 128 in TimesModulus(q)
  {
    hide Add, TimesX;
    var e := m + 128;
    var q1 := Add(TimesX(q, 1), q);
    var q2 := Add(TimesX(q, 2), q1);
    TimesXHas(q, 128, e);
    TimesXHas(q, 7, e);
    TimesXHas(q, 2, e);
    TimesXHas(q, 1, e);
    AddHas(TimesX(q, 1), q, e);
    AddHas(TimesX(q, 2), q1, e);
    AddHas(TimesX(q, 7), q2, e);
    AddHas(TimesX(q, 128), Add(TimesX(q, 7), q2), e);
  }

  /** Congruent polynomials of degree below 128 are equal. */
  lemma CongruentUnique(a: Poly, b: Poly)
    requires Congruent(a, b) && forall e :: e in a || e in b ==> e < 128
    ensures a == b
  {
    hide TimesModulus;
    var q: Poly :| Add(a, b) == TimesModulus(q);
    if q != {} {
      var m := Largest(q);
      HighTerm(q, m);
      AddHas(a, b, m + 128);
      assert false;
    }
    assert TimesModulus({}) == {} by { NoMultiple(); }
    forall e: nat ensures e in a <==> e in b {
      AddHas(a, b, e);
    }
  }

  lemma NoMultiple()
    ensures TimesModulus({}) == {}
  {
  }

  // ---- Blocks ---------------------------------------------------------------------------

  lemma {:induction false} EqualBits(a: nat, b: nat, k: nat)
    requires a < Pow2(k) && b < Pow2(k) && forall i :: 0 <= i < k ==> a / Pow2(i) % 2 == b / Pow2(i) % 2
    ensures a == b
  {
    if k > 0 {
      assert Pow2(0) == 1;
      forall i | 0 <= i < k - 1 ensures a / 2 / Pow2(i) % 2 == b / 2 / Pow2(i) % 2 {
        HalvedBit(a, i);
        HalvedBit(b, i);
      }
      HalfBelow(a, k);
      HalfBelow(b, k);
      EqualBits(a / 2, b / 2, k - 1);
      assert a / Pow2(0) % 2 == b / Pow2(0) % 2;
    }
  }

  /** A block is determined by its polynomial. */
  lemma PolyInjective(x: Block, y: Block)
    requires PolyOf(x) == PolyOf(y)
    ensures x == y
  {
    hide Pow2;
    forall k | 0 <= k < 16 ensures x[k] == y[k] {
      Words.Pow2Limb();
      forall i | 0 <= i < 8 ensures x[k] / Pow2(i) % 2 == y[k] / Pow2(i) % 2 {
        var e := 8 * k + i;
        assert e / 8 == k && e % 8 == i;
        assert e in PolyOf(x) <==> e in PolyOf(y);
      }
      EqualBits(x[k], y[k], 8);
    }
  }
}
