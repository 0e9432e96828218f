/** Integer facts the multi-precision proofs rest on: powers, divisibility, congruence. */
module Arith {

  function Pow(b: int, e: nat): int {
    if e == 0 then 1 else b * Pow(b, e - 1)
  }

  function Pow2(k: nat): (p: nat)
    ensures p > 0
  {
    if k == 0 then 1 else 2 * Pow2(k - 1)
  }

  function Min(a: nat, b: nat): nat {
    if a <= b then a else b
  }

  function Max(a: nat, b: nat): nat {
    if a >= b then a else b
  }

  lemma {:induction false} PowAdd(b: int, m: nat, n: nat)
    ensures Pow(b, m + n) == Pow(b, m) * Pow(b, n)
  {
    if m > 0 {
      PowAdd(b, m - 1, n);
      MulAssoc(b, Pow(b, m - 1), Pow(b, n));
    }
  }

  lemma {:induction false} Pow2Add(m: nat, n: nat)
    ensures Pow2(m + n) == Pow2(m) * Pow2(n)
  {
    if m > 0 {
      Pow2Add(m - 1, n);
      MulAssoc(2, Pow2(m - 1), Pow2(n));
    }
  }

  lemma {:induction false} Pow2Monotone(m: nat, n: nat)
    requires m <= n
    ensures Pow2(m) <= Pow2(n)
    decreases n - m
  {
    if m < n {
      Pow2Monotone(m + 1, n);
    }
  }

  lemma Pow2Step(k: nat)
    ensures Pow2(k + 1) == 2 * Pow2(k)
  {
  }

  lemma Pow2Zero()
    ensures Pow2(0) == 1
  {
  }

  lemma Pow2One()
    ensures Pow2(1) == 2
  {
  }

  lemma MulAssoc(a: int, b: int, c: int)
    ensures a * b * c == a * (b * c)
  {
  }

  lemma MulMono(a: int, b: int, c: int)
    requires a <= b && c >= 0
    ensures a * c <= b * c
  {
  }

  lemma MulPos(a: int, b: int)
    requires a >= 0 && b >= 0
    ensures a * b >= 0
  {
  }

  // ---- Euclidean division -------------------------------------------------

  lemma DivUnique(x: int, d: int, q: int, r: int)
    requires d > 0 && 0 <= r < d
    requires x == q * d + r
    ensures x / d == q && x % d == r
  {
    var q', r' := x / d, x % d;
    assert x == q' * d + r';
    assert (q - q') * d == r' - r && (q' - q) * d == r - r';
    if q > q' {
      MulMono(1, q - q', d);
    } else if q < q' {
      MulMono(1, q' - q, d);
    }
  }

  lemma QuotientBelow(t: int, d: int, q: int)
    requires d > 0 && t < q * d
    ensures t / d < q
  {
    var e, m := t / d, t % d;
    if e >= q {
      MulMono(q, e, d);
    }
  }

  /** Rounding down to a multiple of p. */
  lemma RoundedDown(b: nat, p: nat)
    requires p > 0
    ensures 0 <= b / p * p <= b
  {
    var q, r := b / p, b % p;
    assert b == q * p + r;
    MulPos(q, p);
  }

  lemma NoHighPart(x: int, lo: int, p: int, h: int)
    requires x == lo + p * h && lo >= 0 && h >= 0 && p > 0 && x < p
    ensures h == 0
  {
    if h >= 1 {
      MulMono(1, h, p);
    }
  }

  // ---- Congruence ---------------------------------------------------------

  /** a == b modulo n. */
  ghost predicate Cong(a: int, b: int, n: int) {
    exists k: int :: a == b + k * n
  }

  lemma CongIntro(a: int, b: int, n: int, k: int)
    requires a == b + k * n
    ensures Cong(a, b, n)
  {
  }

  lemma CongWitness(a: int, b: int, n: int) returns (k: int)
    requires Cong(a, b, n)
    ensures a == b + k * n
  {
    k :| a == b + k * n;
  }

  lemma CongRefl(a: int, n: int)
    ensures Cong(a, a, n)
  {
    CongIntro(a, a, n, 0);
  }

  lemma CongSym(a: int, b: int, n: int)
    requires Cong(a, b, n)
    ensures Cong(b, a, n)
  {
    var k := CongWitness(a, b, n);
    assert (-k) * n == -(k * n);
    CongIntro(b, a, n, -k);
  }

  lemma CongTrans(a: int, b: int, c: int, n: int)
    requires Cong(a, b, n) && Cong(b, c, n)
    ensures Cong(a, c, n)
  {
    var k := CongWitness(a, b, n);
    var l := CongWitness(b, c, n);
    assert (k + l) * n == k * n + l * n;
    CongIntro(a, c, n, k + l);
  }

  lemma CongAdd(a: int, b: int, c: int, d: int, n: int)
    requires Cong(a, b, n) && Cong(c, d, n)
    ensures Cong(a + c, b + d, n)
  {
    var k := CongWitness(a, b, n);
    var l := CongWitness(c, d, n);
    assert (k + l) * n == k * n + l * n;
    CongIntro(a + c, b + d, n, k + l);
  }

  lemma CongScale(a: int, b: int, c: int, n: int)
    requires Cong(a, b, n)
    ensures Cong(a * c, b * c, n) && Cong(c * a, c * b, n)
  {
    var k := CongWitness(a, b, n);
    assert a * c == b * c + (k * c) * n;
    assert c * a == a * c && c * b == b * c;
    CongIntro(a * c, b * c, n, k * c);
  }

  lemma CongMul(a: int, b: int, c: int, d: int, n: int)
    requires Cong(a, b, n) && Cong(c, d, n)
    ensures Cong(a * c, b * d, n)
  {
    hide *;
    CongScale(a, b, c, n);
    CongScale(c, d, b, n);
    CongTrans(a * c, b * c, b * d, n);
  }

  lemma {:induction false} CongPow(a: int, b: int, e: nat, n: int)
    requires Cong(a, b, n)
    ensures Cong(Pow(a, e), Pow(b, e), n)
  {
    if e == 0 {
      CongRefl(1, n);
    } else {
      CongPow(a, b, e - 1, n);
      CongMul(a, b, Pow(a, e - 1), Pow(b, e - 1), n);
    }
  }

  lemma CongMod(a: int, n: int)
    requires n > 0
    ensures Cong(a, a % n, n)
  {
    CongIntro(a, a % n, n, a / n);
  }

  /** Residues in [0, n) are equal when congruent. */
  lemma CongUnique(a: int, b: int, n: int)
    requires 0 <= a < n && 0 <= b < n
    requires Cong(a, b, n)
    ensures a == b
  {
    var k := CongWitness(a, b, n);
    if k >= 1 {
      MulMono(1, k, n);
    } else if k <= -1 {
      MulMono(k, -1, n);
    }
  }

  lemma CongIsMod(a: int, b: int, n: int)
    requires 0 <= b < n
    requires Cong(a, b, n)
    ensures a % n == b
  {
    CongMod(a, n);
    CongSym(a, a % n, n);
    CongTrans(a % n, a, b, n);
    CongUnique(a % n, b, n);
  }

  /** A factor that has an inverse modulo n cancels. */
  lemma CongCancel(a: int, b: int, c: int, inv: int, n: int)
    requires Cong(c * inv, 1, n)
    requires Cong(a * c, b * c, n)
    ensures Cong(a, b, n)
  {
    hide *;
    CongScale(a * c, b * c, inv, n);
    CongUndo(a, c, inv, n);
    CongUndo(b, c, inv, n);
    CongSym(a * c * inv, a, n);
    CongTrans(a, a * c * inv, b * c * inv, n);
    CongTrans(a, b * c * inv, b, n);
  }

  lemma CongUndo(a: int, c: int, inv: int, n: int)
    requires Cong(c * inv, 1, n)
    ensures Cong(a * c * inv, a, n)
  {
    CongScale(c * inv, 1, a, n);
    assert a * c * inv == a * (c * inv) by { MulAssoc(a, c, inv); }
  }
}
