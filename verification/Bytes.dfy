/** Byte strings as numbers, in either byte order. */
module Bytes {
  import opened Arith
  import opened Words
  import Bits

  type Byte = x: int | 0 <= x < 0x100

  /** 256^k. */
  function Pow256(k: nat): (p: nat)
    ensures p > 0
  {
    if k == 0 then 1 else 256 * Pow256(k - 1)
  }

  /** The number a byte string denotes, least significant byte first. */
  function LeVal(s: seq<Byte>): nat {
    if s == [] then 0 else s[0] + 256 * LeVal(s[1..])
  }

  function Rev<T>(s: seq<T>): (r: seq<T>)
    ensures |r| == |s| && forall k :: 0 <= k < |s| ==> r[k] == s[|s| - 1 - k]
  {
    seq(|s|, k requires 0 <= k < |s| => s[|s| - 1 - k])
  }

  /** The number a byte string denotes, most significant byte first. */
  function BeVal(s: seq<Byte>): nat {
    LeVal(Rev(s))
  }

  lemma {:induction false} PowersOf256(k: nat)
    ensures Pow256(k) == Pow(256, k)
  {
    if k > 0 {
      PowersOf256(k - 1);
    }
  }

  lemma {:induction false} Pow256Add(a: nat, b: nat)
    ensures Pow256(a + b) == Pow256(a) * Pow256(b)
  {
    if a > 0 {
      Pow256Add(a - 1, b);
      MulAssoc(256, Pow256(a - 1), Pow256(b));
    }
  }

  lemma {:induction false} LeSplit(s: seq<Byte>, i: nat)
    requires i <= |s|
    ensures LeVal(s) == LeVal(s[..i]) + Pow256(i) * LeVal(s[i..])
  {
    if i == 0 {
      assert s[..0] == [] && s[0..] == s;
    } else {
      LeSplit(s[1..], i - 1);
      assert s[1..][..i - 1] == s[..i][1..] && s[1..][i - 1..] == s[i..];
      MulAssoc(256, Pow256(i - 1), LeVal(s[i..]));
    }
  }

  lemma LeStep(s: seq<Byte>, i: nat)
    requires i < |s|
    ensures LeVal(s[..i + 1]) == LeVal(s[..i]) + s[i] * Pow256(i)
  {
    LeSplit(s[..i + 1], i);
    assert s[..i + 1][..i] == s[..i] && s[..i + 1][i..] == [s[i]];
    assert [s[i]][1..] == [];
    assert LeVal([s[i]]) == s[i];
  }

  lemma {:induction false} LeBound(s: seq<Byte>)
    ensures LeVal(s) < Pow256(|s|)
  {
    if s != [] {
      LeBound(s[1..]);
    }
  }

  lemma {:induction false} LeZeros(s: seq<Byte>)
    requires forall k :: 0 <= k < |s| ==> s[k] == 0
    ensures LeVal(s) == 0
  {
    if s != [] {
      LeZeros(s[1..]);
    }
  }

  lemma {:induction false} LeZeroBytes(s: seq<Byte>)
    requires LeVal(s) == 0
    ensures forall k :: 0 <= k < |s| ==> s[k] == 0
  {
    if s != [] {
      LeZeroBytes(s[1..]);
      forall k | 0 <= k < |s| ensures s[k] == 0 {
        if k > 0 {
          assert s[k] == s[1..][k - 1];
        }
      }
    }
  }

  lemma LeTrim(s: seq<Byte>, k: nat)
    requires k <= |s| && forall j :: k <= j < |s| ==> s[j] == 0
    ensures LeVal(s) == LeVal(s[..k])
  {
    LeSplit(s, k);
    LeZeros(s[k..]);
  }

  /** The bytes from k on are zero exactly when the number fits k bytes. */
  lemma LeFits(s: seq<Byte>, k: nat)
    requires k <= |s|
    ensures LeVal(s) < Pow256(k) <==> forall j :: k <= j < |s| ==> s[j] == 0
  {
    if LeVal(s) < Pow256(k) {
      LeSplit(s, k);
      NoHighPart(LeVal(s), LeVal(s[..k]), Pow256(k), LeVal(s[k..]));
      LeZeroBytes(s[k..]);
      forall j | k <= j < |s| ensures s[j] == 0 {
        assert s[j] == s[k..][j - k];
      }
    }
    if forall j :: k <= j < |s| ==> s[j] == 0 {
      LeTrim(s, k);
      LeBound(s[..k]);
    }
  }

  /** Byte strings of one length are equal when their numbers are, in either order. */
  lemma {:induction false} LeInjective(s: seq<Byte>, t: seq<Byte>)
    requires |s| == |t| && LeVal(s) == LeVal(t)
    ensures s == t
  {
    if s != [] {
      assert s[0] == t[0] && LeVal(s[1..]) == LeVal(t[1..]);
      LeInjective(s[1..], t[1..]);
      assert s == [s[0]] + s[1..] && t == [t[0]] + t[1..];
    }
  }

  lemma RevRev<T>(s: seq<T>)
    ensures Rev(Rev(s)) == s
  {
  }

  lemma BeInjective(s: seq<Byte>, t: seq<Byte>)
    requires |s| == |t| && BeVal(s) == BeVal(t)
    ensures s == t
  {
    LeInjective(Rev(s), Rev(t));
    RevRev(s);
    RevRev(t);
  }

  // ---- Limbs as bytes ---------------------------------------------------------

  /** GET_BYTE: byte i of a limb string, counted from the least significant. */
  function ByteAt(p: seq<Limb>, i: nat): Byte
    requires i / 4 < |p|
  {
    p[i / 4] / Pow256(i % 4) % 256
  }

  /** All bytes of a limb string. */
  function LimbBytes(p: seq<Limb>): (b: seq<Byte>)
    ensures |b| == 4 * |p| && forall i :: 0 <= i < |b| ==> b[i] == ByteAt(p, i)
  {
    seq(4 * |p|, i requires 0 <= i < 4 * |p| => ByteAt(p, i))
  }

  lemma FourBytes()
    ensures Pow256(0) == 1 && Pow256(1) == 0x100 && Pow256(2) == 0x1_0000 && Pow256(3) == 0x100_0000 && Pow256(4) == BETA
  {
    assert Pow256(1) == 256 * Pow256(0);
    assert Pow256(2) == 256 * Pow256(1);
    assert Pow256(3) == 256 * Pow256(2);
    assert Pow256(4) == 256 * Pow256(3);
  }

  lemma {:induction false} FourBytesOf(b: seq<Byte>)
    requires |b| == 4
    ensures LeVal(b) == b[0] as int + 0x100 * (b[1] as int) + 0x1_0000 * (b[2] as int) + 0x100_0000 * (b[3] as int)
  {
    assert b[1..][1..] == b[2..] && b[2..][1..] == b[3..] && b[3..][1..] == [];
    assert LeVal(b[3..]) == b[3];
    assert LeVal(b[2..]) == b[2] as int + 256 * (b[3] as int);
    assert LeVal(b[1..]) == b[1] as int + 256 * (b[2] as int + 256 * (b[3] as int));
  }

  lemma LimbFromBytes(x: Limb)
    ensures x == x / 1 % 256 + 0x100 * (x / 0x100 % 256) + 0x1_0000 * (x / 0x1_0000 % 256) + 0x100_0000 * (x / 0x100_0000 % 256)
  {
    var q1, q2, q3 := x / 0x100, x / 0x1_0000, x / 0x100_0000;
    assert q2 == q1 / 256 && q3 == q2 / 256;
    assert q3 < 256;
  }

  /** A limb string and its bytes denote one number. */
  lemma {:induction false} LimbBytesVal(p: seq<Limb>)
    ensures LeVal(LimbBytes(p)) == Val(p)
  {
    if p != [] {
      var b := LimbBytes(p);
      FourBytes();
      LeSplit(b, 4);
      FourBytesOf(b[..4]);
      LimbFromBytes(p[0]);
      forall i | 0 <= i < |b| - 4 ensures b[4..][i] == LimbBytes(p[1..])[i] {
        assert (i + 4) / 4 == i / 4 + 1 && (i + 4) % 4 == i % 4;
      }
      assert b[4..] == LimbBytes(p[1..]);
      LimbBytesVal(p[1..]);
    }
  }

  lemma {:induction false} Pow256Limbs(k: nat)
    ensures Pow256(4 * k) == BPow(k)
  {
    if k > 0 {
      Pow256Limbs(k - 1);
      FourBytes();
      Pow256Add(4, 4 * (k - 1));
    }
  }

  // ---- Exclusive or ---------------------------------------------------------------

  /** Bitwise exclusive or of the low k bits. */
  function XorBits(a: nat, b: nat, k: nat): (r: nat)
    ensures r < Pow2(k)
  {
    if k == 0 then 0 else 2 * XorBits(a / 2, b / 2, k - 1) + (a % 2 + b % 2) % 2
  }

  function Xor8(a: Byte, b: Byte): Byte {
    Pow2Limb();
    XorBits(a, b, 8)
  }

  lemma XorHalves(x: nat, h: nat, l: nat)
    requires x == 2 * h + l && l < 2
    ensures x / 2 == h && x % 2 == l
  {
  }

  lemma XorStep(a: nat, b: nat, k: nat)
    requires k > 0
    ensures XorBits(a, b, k) == 2 * XorBits(a / 2, b / 2, k - 1) + (a % 2 + b % 2) % 2
  {
  }

  lemma HalfBelow(a: nat, k: nat)
    requires k > 0 && a < Pow2(k)
    ensures a / 2 < Pow2(k - 1)
  {
  }

  lemma {:induction false} XorBitsUndo(a: nat, b: nat, k: nat)
    requires a < Pow2(k)
    ensures XorBits(XorBits(a, b, k), b, k) == a
  {
    if k > 0 {
      hide XorBits, Pow2;
      HalfBelow(a, k);
      XorBitsUndo(a / 2, b / 2, k - 1);
      var x, h, l := XorBits(a, b, k), XorBits(a / 2, b / 2, k - 1), (a % 2 + b % 2) % 2;
      XorStep(a, b, k);
      XorHalves(x, h, l);
      XorStep(x, b, k);
      assert (l + b % 2) % 2 == a % 2;
    }
  }

  lemma {:induction false} XorBitsZero(a: nat, k: nat)
    requires a < Pow2(k)
    ensures XorBits(a, 0, k) == a
  {
    if k > 0 {
      XorBitsZero(a / 2, k - 1);
    }
  }

  lemma {:induction false} XorBitsCommute(a: nat, b: nat, k: nat)
    ensures XorBits(a, b, k) == XorBits(b, a, k)
  {
    if k > 0 {
      XorBitsCommute(a / 2, b / 2, k - 1);
    }
  }

  lemma XorCommutes(a: Byte, b: Byte)
    ensures Xor8(a, b) == Xor8(b, a)
  {
    XorBitsCommute(a, b, 8);
  }

  lemma HalvedBit(a: nat, i: nat)
    ensures a / 2 / Pow2(i) % 2 == a / Pow2(i + 1) % 2
  {
    Bits.DivDiv(a, 2, Pow2(i));
  }

  lemma BitBelow(v: nat, i: nat)
    ensures v / Pow2(i) % 2 == if i == 0 then v % 2 else v / 2 / Pow2(i - 1) % 2
  {
    Pow2Zero();
    if i > 0 {
      HalvedBit(v, i - 1);
    }
  }

  lemma OddSum(x: nat, y: nat)
    requires x < 2 && y < 2
    ensures (x + y) % 2 == if x != y then 1 else 0
  {
  }

  /** Bit by bit, exclusive or tells the operands apart. */
  lemma {:induction false} XorBit(a: nat, b: nat, k: nat, i: nat)
    requires i < k
    ensures var x, y := a / Pow2(i) % 2, b / Pow2(i) % 2; XorBits(a, b, k) / Pow2(i) % 2 == (if x != y then 1 else 0)
  {
    hide Pow2, XorBits;
    XorStep(a, b, k);
    var v, h := XorBits(a, b, k), XorBits(a / 2, b / 2, k - 1);
    XorHalves(v, h, (a % 2 + b % 2) % 2);
    OddSum(a % 2, b % 2);
    BitBelow(a, i);
    BitBelow(b, i);
    BitBelow(v, i);
    if i > 0 {
      XorBit(a / 2, b / 2, k - 1, i - 1);
    }
  }

  /** Or sets what either operand has. */
  lemma {:induction false} OrBit(a: nat, b: nat, k: nat, i: nat)
    requires i < k
    ensures var x, y := a / Pow2(i) % 2, b / Pow2(i) % 2; OrBits(a, b, k) / Pow2(i) % 2 == (if x == 1 || y == 1 then 1 else 0)
  {
    hide Pow2;
    var v, h := OrBits(a, b, k), OrBits(a / 2, b / 2, k - 1);
    XorHalves(v, h, v - 2 * h);
    BitBelow(a, i);
    BitBelow(b, i);
    BitBelow(v, i);
    if i > 0 {
      OrBit(a / 2, b / 2, k - 1, i - 1);
    }
  }

  /** And keeps what both have. */
  lemma {:induction false} AndBit(a: nat, b: nat, k: nat, i: nat)
    requires i < k
    ensures var x, y := a / Pow2(i) % 2, b / Pow2(i) % 2; AndBits(a, b, k) / Pow2(i) % 2 == (if x == 1 && y == 1 then 1 else 0)
  {
    hide Pow2;
    var v, h := AndBits(a, b, k), AndBits(a / 2, b / 2, k - 1);
    XorHalves(v, h, v - 2 * h);
    BitBelow(a, i);
    BitBelow(b, i);
    BitBelow(v, i);
    if i > 0 {
      AndBit(a / 2, b / 2, k - 1, i - 1);
    }
  }

  /** The same for the operations on bytes. */
  lemma ByteOps(a: Byte, b: Byte, i: nat)
    requires i < 8
    ensures var x, y := a / Pow2(i) % 2, b / Pow2(i) % 2;
            && Xor8(a, b) / Pow2(i) % 2 == (if x != y then 1 else 0)
            && Or8(a, b) / Pow2(i) % 2 == (if x == 1 || y == 1 then 1 else 0)
            && And8(a, b) / Pow2(i) % 2 == (if x == 1 && y == 1 then 1 else 0)
  {
    hide Pow2, XorBits, OrBits, AndBits;
    XorBit(a, b, 8, i);
    OrBit(a, b, 8, i);
    AndBit(a, b, 8, i);
  }

  /** Applying the same byte twice undoes it. */
  lemma XorUndo(a: Byte, b: Byte)
    ensures Xor8(Xor8(a, b), b) == a && Xor8(a, 0) == a
  {
    hide XorBits, Pow2;
    Pow2Limb();
    XorBitsUndo(a, b, 8);
    XorBitsZero(a, 8);
  }

  lemma {:induction false} XorBitsSelf(a: nat, k: nat)
    ensures XorBits(a, a, k) == 0
  {
    if k > 0 {
      XorBitsSelf(a / 2, k - 1);
    }
  }

  lemma XorOf(a: Byte, b: Byte)
    ensures Xor8(a, b) == XorBits(a, b, 8)
  {
  }

  /** Only equal bytes cancel. */
  lemma SameByte(a: Byte, b: Byte)
    ensures Xor8(a, b) == 0 <==> a == b
  {
    hide Xor8;
    XorUndo(a, b);
    XorUndo(b, 0);
    XorCommutes(b, 0);
    if a == b {
      XorBitsSelf(a, 8);
      assert Xor8(a, a) == 0 by { XorOf(a, a); }
    }
  }

  /** Bitwise and of the low k bits. */
  function AndBits(a: nat, b: nat, k: nat): (r: nat)
    ensures r < Pow2(k)
  {
    if k == 0 then 0 else 2 * AndBits(a / 2, b / 2, k - 1) + if a % 2 == 1 && b % 2 == 1 then 1 else 0
  }

  function And8(a: Byte, b: Byte): Byte {
    Pow2Limb();
    AndBits(a, b, 8)
  }

  lemma {:induction false} AndBitsMask(a: nat, k: nat)
    requires a < Pow2(k)
    ensures AndBits(a, Pow2(k) - 1, k) == a && AndBits(a, 0, k) == 0
  {
    if k > 0 {
      HalfBelow(a, k);
      AndBitsMask(a / 2, k - 1);
      assert (Pow2(k) - 1) / 2 == Pow2(k - 1) - 1 && (Pow2(k) - 1) % 2 == 1;
    }
  }

  /** A full mask keeps a byte, an empty one clears it. */
  lemma AndMask(a: Byte)
    ensures And8(a, 0xFF) == a && And8(a, 0) == 0
  {
    hide AndBits, Pow2;
    Pow2Limb();
    AndBitsMask(a, 8);
  }

  // ---- Big-endian fields ------------------------------------------------------------

  /** Bitwise or of the low k bits. */
  function OrBits(a: nat, b: nat, k: nat): (r: nat)
    ensures r < Pow2(k)
  {
    if k == 0 then 0 else 2 * OrBits(a / 2, b / 2, k - 1) + if a % 2 == 1 || b % 2 == 1 then 1 else 0
  }

  function Or8(a: Byte, b: Byte): Byte {
    Pow2Limb();
    OrBits(a, b, 8)
  }

  lemma {:induction false} OrBitsAssoc(a: nat, b: nat, c: nat, k: nat)
    ensures OrBits(OrBits(a, b, k), c, k) == OrBits(a, OrBits(b, c, k), k)
  {
    if k > 0 {
      OrBitsAssoc(a / 2, b / 2, c / 2, k - 1);
    }
  }

  lemma {:induction false} OrBitsZero(a: nat, k: nat)
    requires a < Pow2(k)
    ensures OrBits(0, a, k) == a
  {
    if k > 0 {
      HalfBelow(a, k);
      OrBitsZero(a / 2, k - 1);
    }
  }

  /** Or of parts that share no bit is their sum. */
  lemma {:induction false} OrBitsShifted(x: nat, y: nat, j: nat, k: nat)
    requires y < Pow2(j) && j <= k && x < Pow2(k - j)
    ensures OrBits(x * Pow2(j), y, k) == x * Pow2(j) + y
  {
    if j == 0 {
      OrBitsCommute(x, 0, k);
      OrBitsZero(x, k);
    } else {
      HalfBelow(y, j);
      OrBitsShifted(x, y / 2, j - 1, k - 1);
      assert x * Pow2(j) == 2 * (x * Pow2(j - 1));
    }
  }

  lemma {:induction false} OrBitsCommute(a: nat, b: nat, k: nat)
    ensures OrBits(a, b, k) == OrBits(b, a, k)
  {
    if k > 0 {
      OrBitsCommute(a / 2, b / 2, k - 1);
    }
  }

  lemma OrOf(a: Byte, b: Byte)
    ensures Or8(a, b) == OrBits(a, b, 8)
  {
  }

  lemma OrAssoc(a: Byte, b: Byte, c: Byte)
    ensures Or8(Or8(a, b), c) == Or8(a, Or8(b, c)) && Or8(0, a) == a
  {
    hide OrBits;
    Pow2Limb();
    OrBitsAssoc(a, b, c, 8);
    OrBitsZero(a, 8);
  }

  /** The low q bytes of n, most significant first. */
  function BeBytes(n: nat, q: nat): (s: seq<Byte>)
    ensures |s| == q
  {
    if q == 0 then [] else BeBytes(n / 256, q - 1) + [n % 256]
  }

  lemma {:induction false} BeBytesVal(n: nat, q: nat)
    requires n < Pow256(q)
    ensures BeVal(BeBytes(n, q)) == n
  {
    if q > 0 {
      BeBytesVal(n / 256, q - 1);
      var s := BeBytes(n, q);
      assert Rev(s)[0] == n % 256;
      assert Rev(s)[1..] == Rev(BeBytes(n / 256, q - 1));
    }
  }

  lemma OneOctet(n: nat)
    requires n <= 0xFF
    ensures BeBytes(n, 1) == [n]
  {
    assert BeBytes(n, 1) == BeBytes(n / 0x100, 0) + [n % 0x100];
  }

  lemma TwoOctets(n: nat)
    requires n <= 0xFFFF
    ensures BeBytes(n, 2) == [n / 0x100 % 0x100, n % 0x100]
  {
    OneOctet(n / 0x100);
    assert BeBytes(n, 2) == BeBytes(n / 0x100, 1) + [n % 0x100];
  }

  lemma ThreeOctets(n: nat)
    requires n <= 0xFF_FFFF
    ensures BeBytes(n, 3) == [n / 0x1_0000 % 0x100, n / 0x100 % 0x100, n % 0x100]
  {
    var a := n / 0x100;
    TwoOctets(a);
    assert a / 0x100 == n / 0x1_0000;
    assert BeBytes(n, 3) == BeBytes(a, 2) + [n % 0x100];
  }

  lemma FourOctets(n: nat)
    requires n <= 0xFFFF_FFFF
    ensures BeBytes(n, 4) == [n / 0x100_0000 % 0x100, n / 0x1_0000 % 0x100, n / 0x100 % 0x100, n % 0x100]
  {
    var a := n / 0x100;
    ThreeOctets(a);
    assert a / 0x100 == n / 0x1_0000 && a / 0x1_0000 == n / 0x100_0000;
    assert BeBytes(n, 4) == BeBytes(a, 3) + [n % 0x100];
  }

  /** Adding one to a big-endian field: the last byte, and on through carries; wraps at the end. */
  function Inc(s: seq<Byte>): (r: seq<Byte>)
    ensures |r| == |s|
  {
    if s == [] then []
    else
      var last: int := (s[|s| - 1] as int + 1) % 256;
      if last != 0 then s[..|s| - 1] + [last] else Inc(s[..|s| - 1]) + [0]
  }

  lemma {:induction false} IncBeBytes(n: nat, q: nat)
    ensures Inc(BeBytes(n, q)) == BeBytes(n + 1, q)
  {
    if q > 0 {
      var s := BeBytes(n, q);
      assert s[|s| - 1] == n % 256 && s[..|s| - 1] == BeBytes(n / 256, q - 1);
      if n % 256 == 255 {
        IncBeBytes(n / 256, q - 1);
        assert (n + 1) / 256 == n / 256 + 1 && (n + 1) % 256 == 0;
      } else {
        assert (n + 1) / 256 == n / 256 && (n + 1) % 256 == n % 256 + 1;
      }
    }
  }

  /** The low q bytes of n, least significant first. */
  function LeBytes(n: nat, q: nat): (s: seq<Byte>)
    ensures |s| == q
  {
    if q == 0 then [] else [n % 256] + LeBytes(n / 256, q - 1)
  }
}
