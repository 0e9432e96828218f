/** mbedtls_mpi_mod_int: the remainder by a signed limb, two half limbs at a time. */
module MpiModInt {
  import opened Arith
  import opened Words
  import Mpis
  import opened MpiDiv
  import MulAdd

  const HALF := MulAdd.HALF

  /** One half limb h enters below y; what y has above half a limb is shifted out. */
  function HalfStep(y: nat, h: nat, b: nat): nat
    requires b > 0
  {
    (y * HALF % BETA + h) % b
  }

  /** The loop, from the most significant limb down. */
  function Reduced(p: seq<Limb>, b: nat): nat
    requires b > 0
  {
    if p == [] then 0
    else HalfStep(HalfStep(Reduced(p[1..], b), p[0] / HALF, b), p[0] % HALF, b)
  }

  ghost predicate PowerOfTwo(b: nat) {
    exists k: nat :: b == Pow2(k)
  }

  /** The divisors for which no shift loses anything that matters. */
  ghost predicate Lossless(b: nat) {
    b <= HALF || PowerOfTwo(b)
  }

  lemma {:induction false} DividesPowerOfTwo(n: nat, b: nat)
    requires b > 0 && Pow2(n) % b == 0
    ensures PowerOfTwo(b)
  {
    var q := Pow2(n) / b;
    assert Pow2(n) == q * b;
    if n == 0 {
      if q >= 1 && b >= 2 {
        MulMono(1, q, b);
      }
      assert b == Pow2(0);
    } else if b % 2 == 0 {
      var c := b / 2;
      HalveBoth(Pow2(n - 1), q, c);
      DividesPowerOfTwo(n - 1, c);
      var k: nat :| c == Pow2(k);
      assert b == Pow2(k + 1);
    } else {
      var h := OddFactor(Pow2(n - 1), q, b);
      DivUnique(Pow2(n - 1), b, h, 0);
      DividesPowerOfTwo(n - 1, b);
    }
  }

  lemma HalveBoth(p: int, q: int, c: int)
    requires 2 * p == q * (2 * c) && c > 0
    ensures p % c == 0
  {
    assert q * (2 * c) == 2 * (q * c);
    DivUnique(p, c, q, 0);
  }

  lemma OddFactor(p: int, q: int, b: int) returns (h: int)
    requires 2 * p == q * b && b % 2 == 1
    ensures p == h * b
  {
    h := q / 2;
    var c := b / 2;
    assert q * b == 2 * (q * c) + q;
    assert q == 2 * h;
    assert 2 * h * b == 2 * (h * b);
  }

  lemma PowerDividesBase(b: nat)
    requires PowerOfTwo(b) && b < BETA
    ensures BETA % b == 0
  {
    var k: nat :| b == Pow2(k);
    Pow2Limb();
    if k >= 32 {
      Pow2Monotone(32, k);
    } else {
      Pow2Add(32 - k, k);
      DivUnique(BETA, b, Pow2(32 - k), 0);
    }
  }

  lemma HalfStepExact(y: nat, h: nat, b: nat, v: nat)
    requires 0 < b < BETA && Lossless(b) && y == v % b
    ensures HalfStep(y, h, b) == (v * HALF + h) % b
  {
    var t := y * HALF % BETA;
    if b <= HALF {
      MulMono(y, HALF - 1, HALF);
      CongRefl(y * HALF, b);
    } else {
      PowerDividesBase(b);
      var m := BETA / b;
      var q := y * HALF / BETA;
      assert y * HALF == t + (q * m) * b by {
        MulAssoc(q, m, b);
      }
      CongIntro(y * HALF, t, b, q * m);
      CongSym(y * HALF, t, b);
    }
    assert Cong(t, y * HALF, b);
    CongMod(v, b);
    CongSym(v, y, b);
    CongScale(y, v, HALF, b);
    CongTrans(t, y * HALF, v * HALF, b);
    CongRefl(h, b);
    CongAdd(t, v * HALF, h, h, b);
    ModOfCong(t + h, v * HALF + h, b);
  }

  lemma ModOfCong(x: int, y: int, b: int)
    requires b > 0 && Cong(x, y, b)
    ensures x % b == y % b
  {
    CongMod(y, b);
    CongTrans(x, y, y % b, b);
    CongIsMod(x, y % b, b);
  }

  lemma {:induction false} ReducedExact(p: seq<Limb>, b: nat)
    requires 0 < b < BETA && Lossless(b)
    ensures Reduced(p, b) == Val(p) % b
  {
    if p != [] {
      hide Lossless, HalfStep;
      var v := Val(p[1..]);
      ReducedExact(p[1..], b);
      var hi, lo := p[0] / HALF, p[0] % HALF;
      HalfStepExact(Reduced(p[1..], b), hi, b, v);
      HalfStepExact(HalfStep(Reduced(p[1..], b), hi, b), lo, b, v * HALF + hi);
      assert (v * HALF + hi) * HALF + lo == p[0] + BETA * v;
    } else {
      DivUnique(0, b, 0, 0);
    }
  }

  /** 2^48 is reduced wrongly by every divisor above half a limb that is no power of two. */
  lemma BitsLost(b: nat)
    requires HALF < b < BETA && !PowerOfTwo(b)
    ensures Reduced([0, HALF], b) != Val([0, HALF]) % b
  {
    var p: seq<Limb> := [0, HALF];
    var q: seq<Limb> := [HALF];
    assert p[1..] == q && q[1..] == [];
    DivUnique(1, b, 0, 1);
    DivUnique(0, b, 0, 0);
    DivUnique(HALF, b, 0, HALF);
    assert HalfStep(0, 1, b) == 1;
    assert HalfStep(1, 0, b) == HALF;
    assert Reduced(q, b) == HALF;
    assert HalfStep(HALF, 0, b) == 0 && HalfStep(0, 0, b) == 0;
    assert Reduced(p, b) == 0;
    ValHead(p);
    ValHead(q);
    assert Val(p) == BETA * HALF;
    Pow2Limb();
    Pow2Add(32, 16);
    if Val(p) % b == 0 {
      DividesPowerOfTwo(48, b);
    }
  }

  /** For a divisor b the loop is right on every number exactly when no shift loses anything. */
  lemma RightExactlyWhenLossless(b: nat)
    requires 0 < b < BETA
    ensures (forall p: seq<Limb> :: Reduced(p, b) == Val(p) % b) <==> Lossless(b)
  {
    if Lossless(b) {
      forall p: seq<Limb> ensures Reduced(p, b) == Val(p) % b {
        ReducedExact(p, b);
      }
    } else {
      BitsLost(b);
    }
  }

  lemma SignedResidue(s: Mpis.Sign, v: nat, y: nat, b: nat)
    requires b > 0 && y == v % b
    ensures s * v % b == if s < 0 && y != 0 then b - y else y
  {
    var q := v / b;
    assert v == q * b + y;
    if s > 0 {
      DivUnique(v, b, q, y);
    } else if y == 0 {
      SignsOfProduct(q, b);
      DivUnique(-1 * v, b, -1 * q, 0);
    } else {
      assert (-1 * q - 1) * b == -1 * (q * b) - b;
      DivUnique(-1 * v, b, -1 * q - 1, b - y);
    }
  }

  lemma Residue(y: nat, b: nat)
    requires b > 0
    ensures y - y / b * b == y % b && 0 <= y % b < b
  {
  }

  method ReduceLimbs(p: seq<Limb>, b: nat) returns (y: nat)
    requires 2 < b < 0x8000_0000
    ensures y == Reduced(p, b) && y < b
  {
    hide HalfStep;
    y := 0;
    var i := |p|;
    while i > 0
      invariant 0 <= i <= |p| && y == Reduced(p[i..], b) && y < b
    {
      var x: int := p[i - 1];
      assert p[i - 1..][1..] == p[i..];
      y := ReduceHalf(y, x, b);
      x := x * HALF % BETA;
      assert x / HALF == p[i - 1] % HALF;
      y := ReduceHalf(y, x, b);
      i := i - 1;
    }
    assert p[0..] == p;
  }

  /** One half step of the loop: y takes the upper half of x in. */
  method ReduceHalf(y0: nat, x: Limb, b: nat) returns (y: nat)
    requires 2 < b < 0x8000_0000 && y0 < b
    ensures y == HalfStep(y0, x / HALF, b) && y < b
  {
    y := y0 * HALF % BETA + x / HALF; // the parts share no bit, so | is +
    Residue(y, b);
    var z := y / b;
    y := y - z * b;
  }

  method ModInt(A: Mpis.Mpi, b: int) returns (st: Status, r: Limb)
    requires -0x8000_0000 <= b < 0x8000_0000
    ensures st == if b == 0 then DivisionByZero else if b < 0 then NegativeValue else Ok
    ensures st == Ok ==> r == var y := Reduced(A.p, b); if A.s < 0 && y != 0 then b - y else y
    ensures st == Ok && Lossless(b) ==> r == A.Value() % b
  {
    hide Val, Lossless, HalfStep;
    if b == 0 {
      return DivisionByZero, 0;
    }
    if b < 0 {
      return NegativeValue, 0;
    }
    st := Ok;
    ghost var v := A.Abs();
    if b <= HALF {
      assert Lossless(b) by { SmallIsLossless(b); }
    }
    if Lossless(b) {
      ReducedExact(A.p, b);
      SignedResidue(A.s, v, Reduced(A.p, b), b);
    }
    if b == 1 || |A.p| == 0 {
      ValZeros([]);
      ReducedRange(A.p, b);
      return Ok, 0;
    }
    if b == 2 {
      Mpis.LowLimbParity(A.p);
      return Ok, A.p[0] % 2;
    }
    var y: nat := ReduceLimbs(A.p, b);
    if A.s < 0 && y != 0 {
      y := b - y;
    }
    r := y;
  }

  lemma SmallIsLossless(b: nat)
    requires b <= HALF
    ensures Lossless(b)
  {
  }

  lemma ReducedRange(p: seq<Limb>, b: nat)
    requires b > 0
    ensures p == [] || b == 1 ==> Reduced(p, b) == 0
  {
  }
}
