/** The DER encodings that asn1write.c writes and asn1parse.c reads (ITU-T X.690), and why they are inverse. */
module Der {
  import opened Arith
  import opened Bytes
  import Bits

  datatype Status = Ok | BufTooSmall | InvalidLength | OutOfData | UnexpectedTag | LengthMismatch

  const INTEGER: Byte := 0x02
  const BIT_STRING: Byte := 0x03
  const SEQUENCE_TAG: Byte := 0x30 // MBEDTLS_ASN1_CONSTRUCTED | MBEDTLS_ASN1_SEQUENCE

  // ---- Big-endian numbers ----------------------------------------------------------------

  lemma BeValSnoc(s: seq<Byte>, b: Byte)
    ensures BeVal(s + [b]) == BeVal(s) * 256 + b
  {
    var r := Rev(s + [b]);
    assert r[0] == b && r[1..] == Rev(s);
  }

  lemma BeValEmpty()
    ensures BeVal([]) == 0
  {
    assert Rev<Byte>([]) == [];
  }

  lemma BeOne(s: seq<Byte>)
    requires |s| == 1
    ensures BeVal(s) == s[0]
  {
    assert s == [] + [s[0]];
    BeValSnoc([], s[0]);
    BeValEmpty();
  }

  lemma BeMore(s: seq<Byte>)
    requires |s| >= 1
    ensures BeVal(s) == BeVal(s[..|s| - 1]) * 256 + s[|s| - 1]
  {
    assert s == s[..|s| - 1] + [s[|s| - 1]];
    BeValSnoc(s[..|s| - 1], s[|s| - 1]);
  }

  /** Two to four length octets, put together by shifts. */
  lemma BeFour(s: seq<Byte>)
    ensures |s| == 2 ==> BeVal(s) == s[0] as int * 0x100 + s[1]
    ensures |s| == 3 ==> BeVal(s) == s[0] as int * 0x1_0000 + s[1] as int * 0x100 + s[2]
    ensures |s| == 4 ==> BeVal(s) == s[0] as int * 0x100_0000 + s[1] as int * 0x1_0000 + s[2] as int * 0x100 + s[3]
  {
    hide BeVal;
    if 2 <= |s| <= 4 {
      BeMore(s);
      var t := s[..|s| - 1];
      if |t| == 1 {
        BeOne(t);
      } else {
        BeMore(t);
        var u := t[..|t| - 1];
        if |u| == 1 {
          BeOne(u);
        } else {
          BeMore(u);
          BeOne(u[..1]);
        }
      }
    }
  }

  // ---- Lengths -------------------------------------------------------------------------

  /** The number of length octets after the first, section 8.1.3: none below 0x80. */
  function LongOctets(n: nat): (k: nat)
    requires n <= 0xFFFF_FFFF
    ensures k <= 4
  {
    if n < 0x80 then 0 else if n <= 0xFF then 1 else if n <= 0xFFFF then 2 else if n <= 0xFF_FFFF then 3 else 4
  }

  function LenBytes(n: nat): (s: seq<Byte>)
    requires n <= 0xFFFF_FFFF
    ensures |s| == 1 + LongOctets(n)
  {
    if n < 0x80 then [n] else [0x80 + LongOctets(n)] + BeBytes(n, LongOctets(n))
  }

  datatype Header = Header(size: nat, len: nat) | NoHeader(error: Status)

  /** What the parser makes of the length octets at the start of s, before it looks at what follows them. */
  function HeaderOf(s: seq<Byte>): (h: Header)
    ensures h.Header? ==> 1 <= h.size <= |s|
    ensures h.NoHeader? ==> h.error != Ok
  {
    if |s| < 1 then NoHeader(OutOfData)
    else if s[0] < 0x80 then Header(1, s[0])
    else
      var k := s[0] - 0x80;
      if !(1 <= k <= 4) then NoHeader(InvalidLength)
      else if |s| < k + 1 then NoHeader(OutOfData)
      else Header(k + 1, BeVal(s[1..k + 1]))
  }

  /** The contents must follow. */
  function ParseLen(s: seq<Byte>): (h: Header)
    ensures h.Header? ==> 1 <= h.size && h.size + h.len <= |s|
    ensures h.NoHeader? ==> h.error != Ok
  {
    var h := HeaderOf(s);
    if h.Header? && h.len > |s| - h.size then NoHeader(OutOfData) else h
  }

  lemma OctetsEnough(n: nat)
    requires n <= 0xFFFF_FFFF
    ensures LongOctets(n) > 0 ==> n < Pow256(LongOctets(n))
    ensures LongOctets(n) > 1 ==> n >= Pow256(LongOctets(n) - 1)
  {
    FourBytes();
  }

  /** What the length octets mean to the parser, case by case. */
  lemma HeaderMeans(s: seq<Byte>)
    ensures s == [] ==> HeaderOf(s) == NoHeader(OutOfData)
    ensures s != [] && s[0] < 0x80 ==> HeaderOf(s) == Header(1, s[0])
    ensures s != [] && (s[0] == 0x80 || s[0] > 0x84) ==> HeaderOf(s) == NoHeader(InvalidLength)
    ensures s != [] && 0x81 <= s[0] <= 0x84 && |s| < 1 + (s[0] - 0x80) ==> HeaderOf(s) == NoHeader(OutOfData)
    ensures |s| >= 2 && s[0] == 0x81 ==> HeaderOf(s) == Header(2, s[1])
    ensures |s| >= 3 && s[0] == 0x82 ==> HeaderOf(s) == Header(3, s[1] as int * 0x100 + s[2])
    ensures |s| >= 4 && s[0] == 0x83 ==> HeaderOf(s) == Header(4, s[1] as int * 0x1_0000 + s[2] as int * 0x100 + s[3])
    ensures |s| >= 5 && s[0] == 0x84 ==>
              HeaderOf(s) == Header(5, s[1] as int * 0x100_0000 + s[2] as int * 0x1_0000 + s[3] as int * 0x100 + s[4])
  {
    hide BeVal;
    if s != [] && 0x81 <= s[0] <= 0x84 && |s| >= 1 + (s[0] - 0x80) {
      var t := s[1..1 + (s[0] - 0x80)];
      if |t| == 1 {
        BeOne(t);
      } else {
        BeFour(t);
      }
    }
  }

  /** Reading a written length gives it back, and the header's own size. */
  lemma LenRoundTrip(n: nat, rest: seq<Byte>)
    requires n <= 0xFFFF_FFFF && n <= |rest|
    ensures ParseLen(LenBytes(n) + rest) == Header(|LenBytes(n)|, n)
  {
    hide Pow256, BeVal;
    var k, s := LongOctets(n), LenBytes(n) + rest;
    if k > 0 {
      OctetsEnough(n);
      BeBytesVal(n, k);
      assert s[1..k + 1] == BeBytes(n, k);
    }
  }

  /** No header that reads as n is shorter than the written one. */
  lemma LenShortest(h: seq<Byte>, n: nat)
    requires n <= 0xFFFF_FFFF && HeaderOf(h) == Header(|h|, n)
    ensures |LenBytes(n)| <= |h|
  {
    hide Pow256;
    OctetsEnough(n);
    if h[0] >= 0x80 {
      var k := |h| - 1;
      LeBound(Rev(h[1..k + 1]));
      assert n < Pow256(k);
      if k < LongOctets(n) {
        Pow256Monotone(k, LongOctets(n) - 1);
      }
    }
  }

  lemma {:induction false} Pow256Monotone(m: nat, n: nat)
    requires m <= n
    ensures Pow256(m) <= Pow256(n)
    decreases n - m
  {
    if m < n {
      Pow256Monotone(m + 1, n);
    }
  }

  // ---- Tag, length, contents ---------------------------------------------------------------

  function Tlv(tag: Byte, content: seq<Byte>): (s: seq<Byte>)
    requires |content| <= 0xFFFF_FFFF
    ensures |s| == 2 + LongOctets(|content|) + |content|
  {
    [tag] + LenBytes(|content|) + content
  }

  /** The tag comes first, then the length, then the contents. */
  lemma TlvMeans(tag: Byte, content: seq<Byte>)
    requires |content| <= 0xFFFF_FFFF
    ensures var s := Tlv(tag, content); s[0] == tag && s[1..|s| - |content|] == LenBytes(|content|) && s[|s| - |content|..] == content
  {
  }

  /** The element at the start of s: header size including the tag, and contents length. */
  function ParseTag(s: seq<Byte>, tag: Byte): (h: Header)
    ensures h.Header? ==> 2 <= h.size && h.size + h.len <= |s|
    ensures h.NoHeader? ==> h.error != Ok
  {
    if |s| < 1 then NoHeader(OutOfData)
    else if s[0] != tag then NoHeader(UnexpectedTag)
    else
      var h := ParseLen(s[1..]);
      if h.Header? then Header(h.size + 1, h.len) else h
  }

  /** Parsing a written element consumes exactly its bytes and finds its contents. */
  lemma TlvRoundTrip(tag: Byte, content: seq<Byte>, rest: seq<Byte>)
    requires |content| <= 0xFFFF_FFFF
    ensures var s := Tlv(tag, content) + rest; var h := ParseTag(s, tag);
            h.Header? && h.size + h.len == |Tlv(tag, content)| && s[h.size..h.size + h.len] == content
  {
    hide LenBytes, ParseLen;
    var s := Tlv(tag, content) + rest;
    LenRoundTrip(|content|, content + rest);
    assert s[1..] == LenBytes(|content|) + (content + rest);
    assert s[1 + |LenBytes(|content|)|..1 + |LenBytes(|content|)| + |content|] == content;
  }

  // ---- Integers ------------------------------------------------------------------------------

  /** The big-endian digits of v, at least one. */
  function Magnitude(v: nat): (s: seq<Byte>)
    ensures |s| >= 1
  {
    (if v < 256 then [] else Magnitude(v / 256)) + [v % 256]
  }

  /** Contents of an INTEGER for v >= 0: a zero octet in front of a set top bit, section 8.3. */
  function IntContent(v: nat): (s: seq<Byte>)
    ensures |s| >= 1
  {
    var m := Magnitude(v);
    if m[0] >= 0x80 then [0] + m else m
  }

  lemma {:induction false} BeValZeros(s: seq<Byte>, k: nat)
    requires k <= |s| && forall i :: 0 <= i < k ==> s[i] == 0
    ensures BeVal(s) == BeVal(s[k..])
  {
    var r := Rev(s);
    LeTrim(r, |s| - k);
    assert r[..|s| - k] == Rev(s[k..]);
  }

  lemma {:induction false} MagnitudeValue(v: nat)
    ensures BeVal(Magnitude(v)) == v && (v > 0 ==> Magnitude(v)[0] != 0) && (v == 0 ==> Magnitude(v) == [0])
  {
    hide BeVal;
    if v < 256 {
      BeValSnoc([], v % 256);
      assert [] + [v % 256] == [v % 256];
      BeValEmpty();
    } else {
      MagnitudeValue(v / 256);
      BeValSnoc(Magnitude(v / 256), v % 256);
    }
  }

  /** The contents denote v, and the first octet shows a non-negative number. */
  lemma IntContentValue(v: nat)
    ensures BeVal(IntContent(v)) == v && IntContent(v)[0] < 0x80
  {
    hide BeVal;
    MagnitudeValue(v);
    var m := Magnitude(v);
    if m[0] >= 0x80 {
      BeValZeros([0] + m, 1);
      assert ([0] + m)[1..] == m;
    }
  }

  /** Section 8.3.2: the first nine bits are not all zero, so no shorter contents denote v. */
  lemma IntContentMinimal(v: nat, s: seq<Byte>)
    requires s != [] && s[0] < 0x80 && BeVal(s) == v
    ensures |IntContent(v)| <= |s|
  {
    hide BeVal, Pow256;
    MagnitudeValue(v);
    var m := Magnitude(v);
    BeBounds(s);
    BeBounds(m);
    if m[0] >= 0x80 {
      if |s| < |m| + 1 {
        Pow256Monotone(|s| - 1, |m| - 1);
        MulMono(s[0] as int + 1, 128, Pow256(|s| - 1));
        MulMono(128, m[0], Pow256(|m| - 1));
      }
    } else if |s| < |m| {
      Pow256Monotone(|s|, |m| - 1);
      MulMono(1, m[0], Pow256(|m| - 1));
      assert Pow256(|s|) == 256 * Pow256(|s| - 1) by { PowStep(|s| - 1); }
      MulMono(s[0] as int + 1, 128, Pow256(|s| - 1));
    }
  }

  lemma PowStep(k: nat)
    ensures Pow256(k + 1) == 256 * Pow256(k)
  {
  }

  /** The first octet weighs the most. */
  lemma BeBounds(s: seq<Byte>)
    requires s != []
    ensures s[0] as int * Pow256(|s| - 1) <= BeVal(s) < (s[0] as int + 1) * Pow256(|s| - 1)
  {
    hide BeVal, Pow256;
    var rest := BelowTop(s);
    TopOctet(BeVal(s), s[0], Pow256(|s| - 1), rest);
  }

  lemma BelowTop(s: seq<Byte>) returns (rest: nat)
    requires s != []
    ensures BeVal(s) == rest + s[0] * Pow256(|s| - 1) && rest < Pow256(|s| - 1)
  {
    hide LeVal, Pow256;
    var r := Rev(s);
    LeStep(r, |s| - 1);
    rest := LeVal(r[..|s| - 1]);
    LeBound(r[..|s| - 1]);
    assert r[..|s|] == r && r[|s| - 1] == s[0];
  }

  lemma TopOctet(v: int, d: int, p: int, rest: int)
    requires v == rest + d * p && 0 <= rest < p
    ensures d * p <= v < (d + 1) * p
  {
    assert (d + 1) * p == d * p + p;
  }

  // ---- Bit strings ----------------------------------------------------------------------------

  /** Octets for a number of bits. */
  function Octets(bits: nat): nat {
    (bits + 7) / 8
  }

  function Unused(bits: nat): (u: nat)
    ensures u <= 7
  {
    Octets(bits) * 8 - bits
  }

  /** Bit i of a string, the most significant bit of an octet first. */
  function BitOf(s: seq<Byte>, i: nat): (b: nat)
    requires i / 8 < |s|
    ensures b <= 1
  {
    s[i / 8] / Pow2(7 - i % 8) % 2
  }

  /** Bit 0 is the most significant bit of the first octet, bit 7 its least significant one. */
  lemma BitOrder(s: seq<Byte>, k: nat)
    requires k < |s|
    ensures BitOf(s, 8 * k) == s[k] / 128 && BitOf(s, 8 * k + 7) == s[k] % 2
  {
    assert 8 * k / 8 == k && 8 * k % 8 == 0 && (8 * k + 7) / 8 == k && (8 * k + 7) % 8 == 7;
    assert Pow2(4) == 16;
    assert Pow2(7) == 8 * Pow2(4);
  }

  /** An octet with its u lowest bits cleared. */
  function Cleared(b: Byte, u: nat): (c: Byte)
    requires u <= 7
  {
    ClearedFits(b, u);
    b / Pow2(u) * Pow2(u)
  }

  lemma ClearedFits(b: Byte, u: nat)
    ensures 0 <= b / Pow2(u) * Pow2(u) <= b
  {
    hide Pow2;
    RoundedDown(b, Pow2(u));
  }

  /** The octets of the first bits of s, unused bits zero. */
  function BitOctets(s: seq<Byte>, bits: nat): (c: seq<Byte>)
    requires Octets(bits) <= |s|
    ensures |c| == Octets(bits)
  {
    if bits == 0 then [] else s[..Octets(bits) - 1] + [Cleared(s[Octets(bits) - 1], Unused(bits))]
  }

  /** Contents of a BIT STRING, section 8.6: the number of unused bits, then the octets. */
  function BitContent(s: seq<Byte>, bits: nat): (c: seq<Byte>)
    requires Octets(bits) <= |s|
  {
    [Unused(bits)] + BitOctets(s, bits)
  }

  /** The bits that are left without the zeros at the end, section 11.2.2. */
  function TrimmedBits(s: seq<Byte>, bits: nat): (n: nat)
    requires Octets(bits) <= |s|
    ensures n <= bits && (n > 0 ==> BitOf(s, n - 1) == 1)
    ensures forall i :: n <= i < bits ==> BitOf(s, i) == 0
  {
    if bits == 0 then 0
    else if BitOf(s, bits - 1) == 1 then bits
    else TrimmedBits(s, bits - 1)
  }

  lemma LowBitsGone(q: nat, j: nat, k: nat)
    ensures q * Pow2(j + k + 1) / Pow2(j) % 2 == 0
  {
    hide Pow2;
    Pow2Add(j, k + 1);
    Pow2Step(k);
    var p, h := Pow2(j), Pow2(k);
    assert q * (p * (2 * h)) == (2 * (q * h)) * p + 0;
    DivUnique(q * (p * (2 * h)), p, 2 * (q * h), 0);
  }

  lemma HighBitsStay(b: nat, u: nat, k: nat)
    ensures b / Pow2(u) * Pow2(u) / Pow2(u + k) == b / Pow2(u + k)
  {
    hide Pow2;
    var q := b / Pow2(u);
    RoundedDown(b, Pow2(u));
    Pow2Add(u, k);
    Bits.DivDiv(q * Pow2(u), Pow2(u), Pow2(k));
    DivUnique(q * Pow2(u), Pow2(u), q, 0);
    Bits.DivDiv(b, Pow2(u), Pow2(k));
  }

  lemma ClearedBits(b: Byte, u: nat, j: nat)
    requires u <= 7 && j <= 7
    ensures Cleared(b, u) / Pow2(j) % 2 == if j < u then 0 else b / Pow2(j) % 2
  {
    hide Pow2;
    if j < u {
      LowBitsGone(b / Pow2(u), j, u - j - 1);
    } else {
      HighBitsStay(b, u, j - u);
    }
  }

  /** The written octets hold the first bits of s, and zeros after them. */
  lemma BitOctetsHold(s: seq<Byte>, bits: nat, i: nat)
    requires Octets(bits) <= |s| && i < 8 * Octets(bits)
    ensures BitOf(BitOctets(s, bits), i) == if i < bits then BitOf(s, i) else 0
  {
    hide Cleared;
    if i / 8 == Octets(bits) - 1 {
      ClearedBits(s[i / 8], Unused(bits), 7 - i % 8);
    }
  }
}
