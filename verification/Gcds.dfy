/** Greatest common divisors, inverses, primes and Fermat's little theorem. */
module Gcds {
  import opened Arith

  ghost predicate Divides(d: int, n: int) {
    exists q: int :: n == d * q
  }

  lemma DividesIntro(d: int, n: int, q: int)
    requires n == d * q
    ensures Divides(d, n)
  {
  }

  lemma DividesCombine(d: int, a: int, b: int, x: int, y: int)
    requires Divides(d, a) && Divides(d, b)
    ensures Divides(d, a * x + b * y)
  {
    var q :| a == d * q;
    var r :| b == d * r;
    assert a * x + b * y == d * (q * x + r * y) by {
      MulAssoc(d, q, x);
      MulAssoc(d, r, y);
    }
    DividesIntro(d, a * x + b * y, q * x + r * y);
  }

  lemma DividesBound(d: int, n: int)
    requires Divides(d, n) && n > 0 && d > 0
    ensures d <= n
  {
    var q :| n == d * q;
    QuotientPositive(d, q);
    MulMono(1, q, d);
  }

  lemma QuotientPositive(d: int, q: int)
    requires d > 0 && d * q > 0
    ensures q >= 1
  {
  }

  /** Euclid's gcd; Gcd(0, 0) == 0. */
  ghost function Gcd(a: nat, b: nat): nat
    decreases b
  {
    if b == 0 then a else Gcd(b, a % b)
  }

  /** The gcd divides both arguments, and is an integer combination of them. */
  lemma {:induction false} Bezout(a: nat, b: nat) returns (x: int, y: int)
    ensures Divides(Gcd(a, b), a) && Divides(Gcd(a, b), b)
    ensures Gcd(a, b) == a * x + b * y
    decreases b
  {
    if b == 0 {
      x, y := 1, 0;
      DividesIntro(a, a, 1);
      DividesIntro(a, 0, 0);
    } else {
      hide Divides;
      var q, r := a / b, a % b;
      var x', y' := Bezout(b, r);
      DividesCombine(Gcd(b, r), b, r, q, 1);
      x, y := y', x' - q * y';
      BezoutStep(a, b, q, r, x', y');
    }
  }

  lemma BezoutStep(a: int, b: int, q: int, r: int, x: int, y: int)
    requires a == b * q + r
    ensures b * x + r * y == a * y + b * (x - q * y)
    ensures a == b * q + r * 1
  {
    assert a * y + b * (x - q * y) == b * x + (a - b * q) * y;
  }

  /** Gcd is the only non-negative common divisor that every common divisor divides. */
  lemma GcdUnique(a: nat, b: nat, g: nat)
    requires Divides(g, a) && Divides(g, b)
    requires forall d: int :: Divides(d, a) && Divides(d, b) ==> Divides(d, g)
    ensures g == Gcd(a, b)
  {
    var h := Gcd(a, b);
    var x, y := Bezout(a, b);
    DividesCombine(g, a, b, x, y);
    assert Divides(h, g);
    if g == 0 || h == 0 {
      ZeroDivides(g, h);
      ZeroDivides(h, g);
    } else {
      DividesBound(g, h);
      DividesBound(h, g);
    }
  }

  lemma ZeroDivides(a: int, b: int)
    requires Divides(a, b) && a == 0
    ensures b == 0
  {
    var q :| b == a * q;
  }

  /** Common divisors divide the gcd. */
  lemma GcdGreatest(a: nat, b: nat, d: int)
    requires Divides(d, a) && Divides(d, b)
    ensures Divides(d, Gcd(a, b))
  {
    var x, y := Bezout(a, b);
    DividesCombine(d, a, b, x, y);
  }

  /** Pairs with the same common divisors have the same gcd. */
  lemma GcdSame(a: nat, b: nat, a': nat, b': nat)
    requires forall d: int :: Divides(d, a) && Divides(d, b) <==> Divides(d, a') && Divides(d, b')
    ensures Gcd(a, b) == Gcd(a', b')
  {
    var x, y := Bezout(a', b');
    forall d: int | Divides(d, a) && Divides(d, b)
      ensures Divides(d, Gcd(a', b'))
    {
      GcdGreatest(a', b', d);
    }
    GcdUnique(a, b, Gcd(a', b'));
  }

  lemma GcdSymmetric(a: nat, b: nat)
    ensures Gcd(a, b) == Gcd(b, a)
  {
    hide Divides;
    GcdSame(a, b, b, a);
  }

  /** A number coprime to n has an inverse modulo n. */
  lemma CoprimeInverse(a: nat, n: nat) returns (inv: int)
    requires Gcd(a, n) == 1
    ensures Cong(a * inv, 1, n)
  {
    var x, y := Bezout(a, n);
    inv := x;
    CongIntro(a * x, 1, n, -y);
  }

  /** A number with an inverse modulo n > 0 is coprime to n. */
  lemma InverseCoprime(a: nat, n: nat, inv: int)
    requires n > 0 && Cong(a * inv, 1, n)
    ensures Gcd(a, n) == 1
  {
    var k := CongWitness(a * inv, 1, n);
    var x, y := Bezout(a, n);
    var g := Gcd(a, n);
    assert a * inv + n * (-k) == 1;
    DividesCombine(g, a, n, inv, -k);
    if g == 0 {
      ZeroDivides(g, 1);
    }
    DividesBound(g, 1);
  }

  // ---- Fermat -------------------------------------------------------------

  ghost predicate Prime(p: int) {
    p > 1 && forall d: int :: 1 < d < p ==> !Divides(d, p)
  }

  lemma PrimeCoprime(p: int, a: int)
    requires Prime(p) && 0 < a < p
    ensures Gcd(a, p) == 1
  {
    var x, y := Bezout(a, p);
    var g := Gcd(a, p);
    if g == 0 {
      ZeroDivides(g, p);
    }
    DividesBound(g, a);
  }

  /** The product of a*1 mod p, ..., a*k mod p. */
  ghost function ResidueProduct(a: int, p: nat, k: nat): nat
    requires p > 0
  {
    if k == 0 then 1 else (a * k % p) * ResidueProduct(a, p, k - 1)
  }

  ghost function Residues(a: int, p: nat, k: nat): set<nat>
    requires p > 0
  {
    if k == 0 then {} else Residues(a, p, k - 1) + {a * k % p}
  }

  ghost function Product(s: set<nat>): nat {
    if s == {} then 1 else
      var x :| x in s;
      x * Product(s - {x})
  }

  lemma {:induction false} ProductTake(s: set<nat>, x: nat)
    requires x in s
    ensures Product(s) == x * Product(s - {x})
    decreases |s|
  {
    var y :| y in s && Product(s) == y * Product(s - {y});
    if x != y {
      ProductTake(s - {y}, x);
      ProductTake(s - {x}, y);
      assert s - {y} - {x} == s - {x} - {y};
      Swap(x, y, Product(s - {x} - {y}));
    }
  }

  lemma Swap(x: int, y: int, r: int)
    ensures x * (y * r) == y * (x * r)
  {
  }

  /** Multiples of a by different residues differ modulo p when a is invertible. */
  lemma ResidueInjective(a: int, inv: int, p: nat, i: nat, j: nat)
    requires p > 0 && Cong(a * inv, 1, p) && 0 <= i < p && 0 <= j < p
    requires a * i % p == a * j % p
    ensures i == j
  {
    hide Cong;
    CongMod(a * i, p);
    CongMod(a * j, p);
    CongSym(a * j, a * j % p, p);
    CongTrans(a * i, a * i % p, a * j, p);
    assert a * i == i * a && a * j == j * a;
    CongCancel(i, j, a, inv, p);
    CongUnique(i, j, p);
  }

  lemma {:induction false} ResidueSet(a: int, inv: int, p: nat, k: nat)
    requires 0 <= k < p && Cong(a * inv, 1, p)
    ensures |Residues(a, p, k)| == k
    ensures forall x :: x in Residues(a, p, k) ==> 0 < x < p && exists i :: 1 <= i <= k && x == a * i % p
    ensures Product(Residues(a, p, k)) == ResidueProduct(a, p, k)
  {
    if k > 0 {
      ResidueSet(a, inv, p, k - 1);
      var s, x := Residues(a, p, k - 1), a * k % p;
      if x in s {
        var i :| 1 <= i <= k - 1 && x == a * i % p;
        ResidueInjective(a, inv, p, i, k);
      }
      if x == 0 {
        assert a * 0 % p == 0;
        ResidueInjective(a, inv, p, 0, k);
      }
      ProductTake(s + {x}, x);
      assert s + {x} - {x} == s;
    }
  }

  lemma {:induction false} ResidueOne(p: nat, k: nat, x: nat)
    requires 1 <= x <= k < p
    ensures x in Residues(1, p, k)
  {
    DivUnique(1 * k, p, 0, k);
    if x < k {
      ResidueOne(p, k - 1, x);
    }
  }

  lemma SubsetSameSize(s: set<nat>, t: set<nat>)
    requires s <= t && |s| == |t|
    ensures s == t
  {
    assert t == s + (t - s);
    assert |t| == |s| + |t - s|;
  }

  /** The product of the multiples of a is a^k * k!, modulo p. */
  lemma {:induction false} ResiduePower(a: int, p: nat, k: nat)
    requires k < p
    ensures Cong(ResidueProduct(a, p, k), Pow(a, k) * ResidueProduct(1, p, k), p)
  {
    hide Cong;
    if k == 0 {
      CongRefl(1, p);
    } else {
      ResiduePower(a, p, k - 1);
      CongMod(a * k, p);
      CongSym(a * k, a * k % p, p);
      var r, f, q := ResidueProduct(a, p, k - 1), ResidueProduct(1, p, k - 1), Pow(a, k - 1);
      CongMul(a * k % p, a * k, r, q * f, p);
      DivUnique(1 * k, p, 0, k);
      assert (a * k) * (q * f) == (a * q) * (k * f);
    }
  }

  /** (p-1)! and its prefixes are invertible modulo a prime. */
  lemma {:induction false} FactorialInvertible(p: nat, k: nat) returns (inv: int)
    requires Prime(p) && k < p
    ensures Cong(ResidueProduct(1, p, k) * inv, 1, p)
  {
    hide Cong;
    if k == 0 {
      inv := 1;
      CongRefl(1, p);
    } else {
      var rest := FactorialInvertible(p, k - 1);
      PrimeCoprime(p, k);
      var ik := CoprimeInverse(k, p);
      inv := ik * rest;
      var f := ResidueProduct(1, p, k - 1);
      CongMul(k * ik, 1, f * rest, 1, p);
      DivUnique(1 * k, p, 0, k);
      assert (k * ik) * (f * rest) == (k * f) * (ik * rest);
    }
  }

  /** Fermat's little theorem. */
  lemma Fermat(p: nat, a: nat)
    requires Prime(p) && 0 < a < p
    ensures Cong(Pow(a, p - 1), 1, p)
  {
    hide Cong, Prime;
    AllResidues(p, a);
    ResiduePower(a, p, p - 1);
    var f := ResidueProduct(1, p, p - 1);
    var inv := FactorialInvertible(p, p - 1);
    CongSym(f, Pow(a, p - 1) * f, p);
    CongCancel(Pow(a, p - 1), 1, f, inv, p);
  }

  lemma AllResidues(p: nat, a: nat)
    requires Prime(p) && 0 < a < p
    ensures ResidueProduct(a, p, p - 1) == ResidueProduct(1, p, p - 1)
  {
    PrimeCoprime(p, a);
    var inv := CoprimeInverse(a, p);
    ResidueSet(a, inv, p, p - 1);
    CongRefl(1, p);
    ResidueSet(1, 1, p, p - 1);
    var s, t := Residues(a, p, p - 1), Residues(1, p, p - 1);
    forall x | x in s
      ensures x in t
    {
      ResidueOne(p, p - 1, x);
    }
    SubsetSameSize(s, t);
  }

  /** In Fermat's field the power p - 2 is the inverse. */
  lemma FermatInverse(p: nat, a: nat)
    requires Prime(p) && 0 < a < p
    ensures Cong(a * Pow(a, p - 2), 1, p)
  {
    Fermat(p, a);
    assert Pow(a, p - 1) == a * Pow(a, p - 2);
  }
}
