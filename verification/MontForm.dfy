/** Montgomery form: x stands for a when x == a * R modulo N. */
module MontForm {
  import opened Arith
  import Words

  ghost predicate IsMont(x: int, a: int, r: int, n: int) {
    Cong(x, a * r, n)
  }

  /** The inverse of R = BETA^limbs modulo an odd n: a power of (n + 1) / 2. */
  ghost function RadixInverse(n: int, limbs: nat): int {
    Pow((n + 1) / 2, 32 * limbs)
  }

  lemma {:induction false} PowDistribute(a: int, b: int, k: nat)
    ensures Pow(a, k) * Pow(b, k) == Pow(a * b, k)
  {
    if k > 0 {
      PowDistribute(a, b, k - 1);
      var p, q := Pow(a, k - 1), Pow(b, k - 1);
      assert (a * p) * (b * q) == (a * b) * (p * q);
    }
  }

  lemma {:induction false} PowOne(k: nat)
    ensures Pow(1, k) == 1
  {
    if k > 0 {
      PowOne(k - 1);
    }
  }

  lemma {:induction false} PowTwo(k: nat)
    ensures Pow(2, k) == Pow2(k)
  {
    if k > 0 {
      PowTwo(k - 1);
    }
  }

  /** R is invertible modulo every odd n. */
  lemma RadixInvertible(n: int, limbs: nat)
    requires n > 0 && n % 2 == 1
    ensures Cong(Words.BPow(limbs) * RadixInverse(n, limbs), 1, n)
  {
    hide Cong, Pow, Words.BPow, Pow2;
    var h, k := (n + 1) / 2, 32 * limbs;
    Words.BPowBits(limbs);
    PowTwo(k);
    PowDistribute(2, h, k);
    CongIntro(2 * h, 1, n, 1);
    CongPow(2 * h, 1, k, n);
    PowOne(k);
  }

  /** A Montgomery product of forms of a and b is a form of a * b. */
  lemma MontProduct(res: int, x: int, y: int, a: int, b: int, r: int, rinv: int, n: int)
    requires Cong(r * rinv, 1, n)
    requires Cong(res * r, x * y, n)
    requires IsMont(x, a, r, n) && IsMont(y, b, r, n)
    ensures IsMont(res, a * b, r, n)
  {
    hide Cong;
    CongMul(x, a * r, y, b * r, n);
    Regroup(a, b, r);
    CongTrans(res * r, x * y, (a * b * r) * r, n);
    CongCancel(res, a * b * r, r, rinv, n);
  }

  lemma Regroup(a: int, b: int, r: int)
    ensures (a * r) * (b * r) == (a * b * r) * r
  {
  }

  /** Multiplying by R^2 takes a plain residue into Montgomery form. */
  lemma IntoMont(res: int, x: int, rr: int, r: int, rinv: int, n: int)
    requires Cong(r * rinv, 1, n)
    requires Cong(res * r, x * rr, n) && Cong(rr, r * r, n)
    ensures IsMont(res, x, r, n)
  {
    hide Cong;
    CongScale(rr, r * r, x, n);
    CongTrans(res * r, x * rr, x * (r * r), n);
    MulAssoc(x, r, r);
    CongCancel(res, x * r, r, rinv, n);
  }

  /** Multiplying by 1 takes a Montgomery form back to its plain residue. */
  lemma OutOfMont(res: int, x: int, a: int, r: int, rinv: int, n: int)
    requires Cong(r * rinv, 1, n)
    requires Cong(res * r, x * 1, n) && IsMont(x, a, r, n)
    ensures Cong(res, a, n)
  {
    hide Cong;
    CongTrans(res * r, x, a * r, n);
    CongCancel(res, a, r, rinv, n);
  }

  lemma MontOfCong(x: int, a: int, b: int, r: int, n: int)
    requires IsMont(x, a, r, n) && Cong(a, b, n)
    ensures IsMont(x, b, r, n)
  {
    hide Cong;
    CongScale(a, b, r, n);
    CongTrans(x, a * r, b * r, n);
  }

  /** Whatever x is, it is the form of x / R. */
  lemma Represented(x: nat, r: int, rinv: int, n: int) returns (a: nat)
    requires Cong(r * rinv, 1, n) && x < n
    ensures a < n && IsMont(x, a, r, n)
  {
    hide Cong;
    a := x * rinv % n;
    CongMod(x * rinv, n);
    CongScale(x * rinv, a, r, n);
    CongUndo(x, r, rinv, n);
    assert x * r * rinv == x * rinv * r by { Reorder(x, r, rinv); }
    CongSym(x * r * rinv, x, n);
    CongTrans(x, x * rinv * r, a * r, n);
  }

  lemma Reorder(a: int, b: int, c: int)
    ensures a * b * c == a * c * b
  {
  }

  /** Two residues in Montgomery form that stand for congruent numbers are equal, and conversely. */
  lemma MontUnique(x: int, y: int, a: int, b: int, r: int, rinv: int, n: int)
    requires Cong(r * rinv, 1, n) && 0 <= x < n && 0 <= y < n
    requires IsMont(x, a, r, n) && IsMont(y, b, r, n)
    ensures x == y <==> Cong(a, b, n)
  {
    hide Cong;
    CongSym(x, a * r, n);
    CongSym(y, b * r, n);
    if x == y {
      CongTrans(a * r, x, b * r, n);
      CongCancel(a, b, r, rinv, n);
    }
    if Cong(a, b, n) {
      CongScale(a, b, r, n);
      CongTrans(x, a * r, b * r, n);
      CongTrans(x, b * r, y, n);
      CongUnique(x, y, n);
    }
  }
}
