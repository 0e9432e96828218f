/** Base64 (base64.c), section 5.2 of RFC 1521: the encoder and the two-pass decoder. */
module Base64 {
  import opened Bytes
  import Arith

  datatype Status = Ok | BufferTooSmall | InvalidCharacter

  const CR: Byte := 13
  const LF: Byte := 10
  const SP: Byte := 32
  const EQ: Byte := 61

  // ---- The alphabet --------------------------------------------------------------------

  /** mbedtls_ct_base64_enc_char, read as a table lookup. */
  function EncChar(v: nat): (c: Byte)
    requires v < 64
  {
    if v < 26 then 65 + v else if v < 52 then 97 + v - 26 else if v < 62 then 48 + v - 52 else if v == 62 then 43 else 47
  }

  /** mbedtls_ct_base64_dec_value: -1 for a byte that is no digit. */
  function DecValue(c: Byte): (v: int)
    ensures -1 <= v < 64
  {
    if 65 <= c <= 90 then c - 65 else if 97 <= c <= 122 then c - 97 + 26
    else if 48 <= c <= 57 then c - 48 + 52 else if c == 43 then 62 else if c == 47 then 63 else -1
  }

  lemma CharRoundTrip(v: nat)
    requires v < 64
    ensures DecValue(EncChar(v)) == v && EncChar(v) != EQ
  {
  }

  /** The table of section 5.2 of RFC 1521. */
  const ALPHABET := "ABCDEFGHIJKLM" + "NOPQRSTUVWXYZ" + "abcdefghijklm" + "nopqrstuvwxyz" + "0123456789" + "+/"

  lemma AlphabetUpper(v: nat)
    requires v < 26
    ensures |ALPHABET| == 64 && ALPHABET[v] == 'A' + v as char
  {
    if v < 13 {
      assert ALPHABET[..13] == "ABCDEFGHIJKLM";
      assert ALPHABET[v] == ALPHABET[..13][v];
    } else {
      assert ALPHABET[13..26] == "NOPQRSTUVWXYZ";
      assert ALPHABET[v] == ALPHABET[13..26][v - 13];
    }
  }

  lemma AlphabetLower(v: nat)
    requires v < 26
    ensures ALPHABET[26 + v] == 'a' + v as char
  {
    if v < 13 {
      assert ALPHABET[26..39] == "abcdefghijklm";
      assert ALPHABET[26 + v] == ALPHABET[26..39][v];
    } else {
      assert ALPHABET[39..52] == "nopqrstuvwxyz";
      assert ALPHABET[26 + v] == ALPHABET[39..52][v - 13];
    }
  }

  lemma AlphabetRest(v: nat)
    requires v < 10
    ensures ALPHABET[52 + v] == '0' + v as char && ALPHABET[62] == '+' && ALPHABET[63] == '/'
  {
    assert ALPHABET[52..62] == "0123456789";
    assert ALPHABET[52 + v] == ALPHABET[52..62][v];
  }

  /** Digits are the characters of the table, in its order, and nothing else is one. */
  lemma AlphabetMeans(v: nat, c: Byte)
    requires v < 64
    ensures |ALPHABET| == 64 && EncChar(v) == ALPHABET[v] as int
    ensures DecValue(c) == v <==> c == ALPHABET[v] as int
    ensures DecValue(c) == -1 || 0 <= DecValue(c) < 64
  {
    AlphabetUpper(0);
    AlphabetRest(0);
    if v < 26 {
      AlphabetUpper(v);
    } else if v < 52 {
      AlphabetLower(v - 26);
    } else if v < 62 {
      AlphabetRest(v - 52);
    }
  }

  /** Byte i of a group; zero where the input has ended. */
  function ByteOr0(b: seq<Byte>, i: nat): (v: nat)
    ensures v < 256
  {
    if i < |b| then b[i] else 0
  }

  /** Groups of 24 bits, the first bits first: four digits for three bytes, fewer and '=' at the end. */
  lemma GroupMeans(b: seq<Byte>, d0: nat, d1: nat, d2: nat, d3: nat)
    requires |b| > 0 && d0 < 64 && d1 < 64 && d2 < 64 && d3 < 64
    requires 0x4_0000 * d0 + 0x1000 * d1 + 64 * d2 + d3 == 0x1_0000 * ByteOr0(b, 0) + 0x100 * ByteOr0(b, 1) + ByteOr0(b, 2)
    ensures |b| == 1 ==> Encoded(b) == [EncChar(d0), EncChar(d1), 61, 61]
    ensures |b| == 2 ==> Encoded(b) == [EncChar(d0), EncChar(d1), EncChar(d2), 61]
    ensures |b| >= 3 ==> Encoded(b) == [EncChar(d0), EncChar(d1), EncChar(d2), EncChar(d3)] + Encoded(b[3..])
  {
    hide EncChar, Encoded, ByteOr0;
    FourDigits(ByteOr0(b, 0), ByteOr0(b, 1), ByteOr0(b, 2), d0, d1, d2, d3);
    DigitsGiven(b, d0, d1, d2, d3);
  }

  lemma DigitsGiven(b: seq<Byte>, d0: nat, d1: nat, d2: nat, d3: nat)
    requires |b| > 0 && d0 < 64 && d1 < 64 && d2 < 64 && d3 < 64
    requires d0 == ByteOr0(b, 0) / 4 && d1 == ByteOr0(b, 0) % 4 * 16 + ByteOr0(b, 1) / 16
    requires d2 == ByteOr0(b, 1) % 16 * 4 + ByteOr0(b, 2) / 64 && d3 == ByteOr0(b, 2) % 64
    ensures |b| == 1 ==> Encoded(b) == [EncChar(d0), EncChar(d1), 61, 61]
    ensures |b| == 2 ==> Encoded(b) == [EncChar(d0), EncChar(d1), EncChar(d2), 61]
    ensures |b| >= 3 ==> Encoded(b) == [EncChar(d0), EncChar(d1), EncChar(d2), EncChar(d3)] + Encoded(b[3..])
  {
    hide EncChar, Encoded;
    if |b| == 1 {
      OneByte(b, d0, d1);
    } else if |b| == 2 {
      TwoBytes(b, d0, d1, d2);
    } else {
      ThreeBytes(b, d0, d1, d2, d3);
    }
  }

  lemma OneByte(b: seq<Byte>, d0: nat, d1: nat)
    requires |b| == 1 && d0 < 64 && d1 < 64 && d0 == b[0] / 4 && d1 == b[0] % 4 * 16
    ensures Encoded(b) == [EncChar(d0), EncChar(d1), 61, 61]
  {
    hide EncChar;
  }

  lemma TwoBytes(b: seq<Byte>, d0: nat, d1: nat, d2: nat)
    requires |b| == 2 && d0 < 64 && d1 < 64 && d2 < 64
    requires d0 == b[0] / 4 && d1 == b[0] % 4 * 16 + b[1] / 16 && d2 == b[1] % 16 * 4
    ensures Encoded(b) == [EncChar(d0), EncChar(d1), EncChar(d2), 61]
  {
    hide EncChar;
  }

  lemma ThreeBytes(b: seq<Byte>, d0: nat, d1: nat, d2: nat, d3: nat)
    requires |b| >= 3 && d0 < 64 && d1 < 64 && d2 < 64 && d3 < 64
    requires d0 == b[0] / 4 && d1 == b[0] % 4 * 16 + b[1] / 16 && d2 == b[1] % 16 * 4 + b[2] / 64 && d3 == b[2] % 64
    ensures Encoded(b) == [EncChar(d0), EncChar(d1), EncChar(d2), EncChar(d3)] + Encoded(b[3..])
  {
    hide EncChar;
    var t := [EncChar(b[0] / 4), EncChar(b[0] % 4 * 16 + b[1] / 16), EncChar(b[1] % 16 * 4 + b[2] / 64), EncChar(b[2] % 64)];
    assert t == [EncChar(d0), EncChar(d1), EncChar(d2), EncChar(d3)];
    assert Encoded(b) == t + Encoded(b[3..]);
  }

  lemma FourDigits(a: nat, c: nat, e: nat, d0: nat, d1: nat, d2: nat, d3: nat)
    requires a < 256 && c < 256 && e < 256 && d0 < 64 && d1 < 64 && d2 < 64 && d3 < 64
    requires 0x4_0000 * d0 + 0x1000 * d1 + 64 * d2 + d3 == 0x1_0000 * a + 0x100 * c + e
    ensures d0 == a / 4 && d1 == a % 4 * 16 + c / 16 && d2 == c % 16 * 4 + e / 64 && d3 == e % 64
  {
  }

  /** The other characters that have a meaning. */
  lemma CharacterCodes()
    ensures CR == '\r' as int && LF == '\n' as int && SP == ' ' as int && EQ == '=' as int
  {
  }

  predicate Digit(c: Byte) {
    DecValue(c) >= 0
  }

  predicate Blank(c: Byte) {
    c == CR || c == LF || c == SP
  }

  // ---- The encoding ----------------------------------------------------------------------

  /** Three bytes become four digits; one or two bytes at the end are padded with '='. */
  function Encoded(b: seq<Byte>): seq<Byte>
    decreases |b|
  {
    if |b| == 0 then []
    else if |b| == 1 then [EncChar(b[0] / 4), EncChar(b[0] % 4 * 16), EQ, EQ]
    else if |b| == 2 then [EncChar(b[0] / 4), EncChar(b[0] % 4 * 16 + b[1] / 16), EncChar(b[1] % 16 * 4), EQ]
    else [EncChar(b[0] / 4), EncChar(b[0] % 4 * 16 + b[1] / 16), EncChar(b[1] % 16 * 4 + b[2] / 64), EncChar(b[2] % 64)]
         + Encoded(b[3..])
  }

  function Count(s: seq<Byte>, c: Byte): (n: nat)
    ensures n <= |s|
  {
    if s == [] then 0 else Count(s[..|s| - 1], c) + if s[|s| - 1] == c then 1 else 0
  }

  /** The digits and '=' of a text, in order. */
  function Payload(s: seq<Byte>): (p: seq<Byte>)
    ensures |p| <= |s|
  {
    if s == [] then [] else Payload(s[..|s| - 1]) + if Blank(s[|s| - 1]) then [] else [s[|s| - 1]]
  }

  /** Digits with at most two '=' after them. */
  ghost predicate WellPadded(p: seq<Byte>) {
    && (forall k :: 0 <= k < |p| ==> Digit(p[k]) || p[k] == EQ)
    && (forall j, k :: 0 <= j < k < |p| && p[j] == EQ ==> p[k] == EQ)
    && Count(p, EQ) <= 2
  }

  /** The value of a digit or '='. */
  function ValueOf(c: Byte): (v: nat)
    ensures v < 64
  {
    if Digit(c) then DecValue(c) else 0
  }

  /** The bytes of a group of four with e '=' up to its end. */
  function GroupBytes(x: nat, e: nat): (s: seq<Byte>)
    requires x < 0x100_0000
    ensures |s| <= 3
  {
    [x / 0x1_0000] + (if e <= 1 then [x / 0x100 % 0x100] else []) + if e == 0 then [x % 0x100] else []
  }

  /** Digits put together, six bits each. */
  function Packed(p: seq<Byte>): nat {
    if p == [] then 0 else Packed(p[..|p| - 1]) * 64 + ValueOf(p[|p| - 1])
  }

  lemma {:induction false} PackedBound(p: seq<Byte>)
    ensures Packed(p) < Pow64(|p|)
  {
    if p != [] {
      PackedBound(p[..|p| - 1]);
    }
  }

  function Pow64(k: nat): (p: nat)
    ensures p > 0
  {
    if k == 0 then 1 else 64 * Pow64(k - 1)
  }

  lemma Pow64Values()
    ensures Pow64(1) == 64 && Pow64(2) == 0x1000 && Pow64(3) == 0x4_0000 && Pow64(4) == 0x100_0000
  {
    assert Pow64(1) == 64 * Pow64(0);
    assert Pow64(2) == 64 * Pow64(1);
    assert Pow64(3) == 64 * Pow64(2);
    assert Pow64(4) == 64 * Pow64(3);
  }

  /** What a payload decodes to, four characters at a time; e '=' came before it. An unfinished group gives nothing. */
  function Decoded(p: seq<Byte>, e: nat): seq<Byte>
    decreases |p|
  {
    if |p| < 4 then [] else
      PackedBound(p[..4]);
      Pow64Values();
      var e' := e + Count(p[..4], EQ);
      GroupBytes(Packed(p[..4]), e') + Decoded(p[4..], e')
  }

  /** The output length the first pass computes from the number of characters. */
  function Needed(n: nat, equals: nat): int {
    6 * (n / 8) + (6 * (n % 8) + 7) / 8 - equals
  }

  // ---- Four characters at a time ----------------------------------------------------------

  lemma CountFour(p: seq<Byte>, c: Byte)
    requires |p| == 4
    ensures Count(p, c) == (if p[0] == c then 1 else 0) + (if p[1] == c then 1 else 0) + (if p[2] == c then 1 else 0) + (if p[3] == c then 1 else 0)
  {
    var q, r, s := p[..3], p[..3][..2], p[..3][..2][..1];
    assert Count(s[..0], c) == 0;
    assert Count(s, c) == if p[0] == c then 1 else 0;
    assert Count(r, c) == Count(s, c) + if p[1] == c then 1 else 0;
    assert Count(q, c) == Count(r, c) + if p[2] == c then 1 else 0;
  }

  lemma PackedFour(p: seq<Byte>)
    requires |p| == 4
    ensures Packed(p) == ((ValueOf(p[0]) * 64 + ValueOf(p[1])) * 64 + ValueOf(p[2])) * 64 + ValueOf(p[3])
  {
    hide ValueOf;
    var q, r, s := p[..3], p[..3][..2], p[..3][..2][..1];
    assert Packed(s[..0]) == 0;
    assert Packed(s) == ValueOf(p[0]);
    assert Packed(r) == Packed(s) * 64 + ValueOf(p[1]);
    assert Packed(q) == Packed(r) * 64 + ValueOf(p[2]);
  }

  lemma {:induction false} CountConcat(s: seq<Byte>, t: seq<Byte>, c: Byte)
    ensures Count(s + t, c) == Count(s, c) + Count(t, c)
  {
    if t == [] {
      assert s + t == s;
    } else {
      assert (s + t)[..|s + t| - 1] == s + t[..|t| - 1];
      CountConcat(s, t[..|t| - 1], c);
    }
  }

  lemma FullGroup(b: seq<Byte>)
    requires |b| >= 3
    ensures var g := Encoded(b)[..4];
            |Encoded(b)| >= 4 && Encoded(b)[4..] == Encoded(b[3..])
            && Count(g, EQ) == 0 && Packed(g) == b[0] as int * 0x1_0000 + b[1] as int * 0x100 + b[2]
  {
    hide EncChar, DecValue;
    var g := Encoded(b)[..4];
    CharRoundTrip(b[0] / 4);
    CharRoundTrip(b[0] % 4 * 16 + b[1] / 16);
    CharRoundTrip(b[1] % 16 * 4 + b[2] / 64);
    CharRoundTrip(b[2] % 64);
    CountFour(g, EQ);
    PackedFour(g);
  }

  lemma LastGroup(b: seq<Byte>)
    requires 1 <= |b| <= 2
    ensures var g := Encoded(b);
            |g| == 4 && Count(g, EQ) == 3 - |b|
            && Packed(g) == b[0] as int * 0x1_0000 + if |b| == 2 then b[1] as int * 0x100 else 0
  {
    hide EncChar, DecValue;
    var g := Encoded(b);
    CharRoundTrip(b[0] / 4);
    if |b| == 1 {
      CharRoundTrip(b[0] % 4 * 16);
    } else {
      CharRoundTrip(b[0] % 4 * 16 + b[1] / 16);
      CharRoundTrip(b[1] % 16 * 4);
    }
    assert ValueOf(EQ) == 0 by { EqualsIsZero(); }
    CountFour(g, EQ);
    PackedFour(g);
  }

  lemma EqualsIsZero()
    ensures ValueOf(EQ) == 0 && !Digit(EQ)
  {
  }

  /** Decoding the encoding gives the bytes back. */
  lemma {:induction false} RoundTrip(b: seq<Byte>)
    ensures Decoded(Encoded(b), 0) == b
    decreases |b|
  {
    hide Packed, Count, Encoded, GroupBytes;
    if b == [] {
      EncodedEmpty();
    } else if |b| <= 2 {
      LastGroup(b);
      LastBytes(b);
      assert Encoded(b)[..4] == Encoded(b) && Encoded(b)[4..] == [];
    } else {
      FullGroup(b);
      FullBytes(b[0], b[1], b[2]);
      RoundTrip(b[3..]);
      assert b == [b[0], b[1], b[2]] + b[3..];
    }
  }

  lemma FullBytes(x: Byte, y: Byte, z: Byte)
    ensures GroupBytes(x as int * 0x1_0000 + y as int * 0x100 + z, 0) == [x, y, z]
  {
  }

  lemma LastBytes(b: seq<Byte>)
    requires 1 <= |b| <= 2
    ensures GroupBytes(b[0] as int * 0x1_0000 + if |b| == 2 then b[1] as int * 0x100 else 0, 3 - |b|) == b
  {
  }

  lemma EncodedEmpty()
    ensures Encoded([]) == []
  {
  }

  // ---- Padding and lengths ------------------------------------------------------------------

  lemma {:induction false} NoEquals(p: seq<Byte>)
    requires forall k :: 0 <= k < |p| ==> p[k] != EQ
    ensures Count(p, EQ) == 0
  {
    if p != [] {
      NoEquals(p[..|p| - 1]);
    }
  }

  lemma {:induction false} AllEquals(p: seq<Byte>)
    requires forall k :: 0 <= k < |p| ==> p[k] == EQ
    ensures Count(p, EQ) == |p|
  {
    if p != [] {
      AllEquals(p[..|p| - 1]);
    }
  }

  /** At most two '=', at the very end: everything before the last two characters is a digit. */
  lemma EqualsLast(p: seq<Byte>, k: nat)
    requires WellPadded(p) && k + 2 < |p|
    ensures p[k] != EQ
  {
    if p[k] == EQ {
      var t := p[k..];
      forall j | 0 <= j < |t| ensures t[j] == EQ {
        assert t[j] == p[k + j];
      }
      assert p == p[..k] + t;
      AllEquals(t);
      CountConcat(p[..k], t, EQ);
    }
  }

  /** A well-padded payload: its last characters, past four digits, are well padded too. */
  lemma DropGroup(p: seq<Byte>)
    requires WellPadded(p) && |p| >= 7
    ensures WellPadded(p[4..]) && Count(p[..4], EQ) == 0 && Count(p, EQ) == Count(p[4..], EQ)
  {
    forall k | 0 <= k < 4 ensures p[k] != EQ {
      EqualsLast(p, k);
    }
    NoEquals(p[..4]);
    CountConcat(p[..4], p[4..], EQ);
    assert p == p[..4] + p[4..];
  }

  /** The second pass never writes more than the first one computed. */
  lemma {:induction false} DecodedFits(p: seq<Byte>)
    requires WellPadded(p)
    ensures |Decoded(p, 0)| <= Needed(|p|, Count(p, EQ))
    decreases |p|
  {
    hide Packed, Count;
    if |p| >= 8 {
      DropGroup(p);
      DecodedFits(p[4..]);
      NeededStep(|p|, Count(p, EQ));
    } else if |p| >= 4 {
      ShortPayload(p);
    } else {
      FewEquals(p);
    }
  }

  lemma NeededStep(n: nat, q: nat)
    requires n >= 4
    ensures Needed(n, q) == Needed(n - 4, q) + 3
  {
  }

  lemma FewEquals(p: seq<Byte>)
    requires |p| < 4 && Count(p, EQ) <= 2
    ensures Needed(|p|, Count(p, EQ)) >= 0
  {
  }

  lemma ShortPayload(p: seq<Byte>)
    requires 4 <= |p| < 8 && WellPadded(p)
    ensures |Decoded(p, 0)| <= Needed(|p|, Count(p, EQ))
  {
    hide Packed, Digit;
    var g, t := p[..4], p[4..];
    CountConcat(g, t, EQ);
    assert p == g + t;
    CountFour(g, EQ);
    assert Decoded(t, Count(g, EQ)) == [];
    if |p| >= 6 {
      EqualsLast(p, 3);
    }
    if |p| >= 5 && p[3] == EQ {
      assert p[4] == EQ;
    }
  }

  // ---- Encoding -----------------------------------------------------------------------------

  /** SIZE_MAX. */
  const SIZE_T_MAX: nat := 0xFFFF_FFFF_FFFF_FFFF

  lemma {:induction false} EncodedLength(b: seq<Byte>)
    ensures |Encoded(b)| == 4 * (|b| / 3 + if |b| % 3 != 0 then 1 else 0)
    decreases |b|
  {
    if |b| >= 3 {
      EncodedLength(b[3..]);
    }
  }

  /** The encoding of whole groups, followed by the encoding of the rest. */
  lemma {:induction false} EncodedConcat(s: seq<Byte>, t: seq<Byte>)
    requires |s| % 3 == 0
    ensures Encoded(s + t) == Encoded(s) + Encoded(t)
    decreases |s|
  {
    if s == [] {
      assert s + t == t;
    } else {
      var u := s + t;
      assert u[3..] == s[3..] + t && u[0] == s[0] && u[1] == s[1] && u[2] == s[2];
      EncodedConcat(s[3..], t);
    }
  }

  /** mbedtls_base64_encode: the text and a terminator; nothing for the empty input. */
  method Encode(dst: array<Byte>, src: seq<Byte>) returns (st: Status, olen: nat)
    modifies dst
    ensures st == if src == [] || (|Encoded(src)| + 1 <= dst.Length && |Encoded(src)| / 4 <= (0xFFFF_FFFF_FFFF_FFFF - 1) / 4) then Ok
                  else BufferTooSmall
    ensures st == Ok ==> olen == |Encoded(src)| && olen <= dst.Length && dst[..olen] == Encoded(src)
    ensures st == Ok && src != [] ==> dst[olen] == 0
    ensures st == BufferTooSmall && |Encoded(src)| / 4 <= (0xFFFF_FFFF_FFFF_FFFF - 1) / 4 ==> olen == |Encoded(src)| + 1
    ensures st == BufferTooSmall && |Encoded(src)| / 4 > (0xFFFF_FFFF_FFFF_FFFF - 1) / 4 ==> olen == 0xFFFF_FFFF_FFFF_FFFF
    ensures st == BufferTooSmall ==> dst[..] == old(dst[..])
  {
    hide EncChar;
    var slen := |src|;
    EncodedLength(src);
    if slen == 0 {
      return Ok, 0;
    }
    var n := slen / 3 + if slen % 3 != 0 then 1 else 0;
    if n > (SIZE_T_MAX - 1) / 4 {
      return BufferTooSmall, SIZE_T_MAX;
    }
    n := n * 4;
    if dst.Length < n + 1 {
      return BufferTooSmall, n + 1;
    }
    n := slen / 3 * 3;
    var p := EncodeGroups(dst, src, n);
    if n < slen {
      p := EncodeRest(dst, src, n, p);
    } else {
      assert src[..n] == src;
    }
    olen := p;
    dst[p] := 0;
    st := Ok;
  }

  method EncodeGroups(dst: array<Byte>, src: seq<Byte>, n: nat) returns (p: nat)
    requires n == |src| / 3 * 3 && dst.Length >= |Encoded(src)|
    modifies dst
    ensures p == |Encoded(src[..n])| <= dst.Length && dst[..p] == Encoded(src[..n])
  {
    hide EncChar, Encoded;
    var i := 0;
    p := 0;
    assert src[..0] == [];
    EncodedEmpty();
    EncodedLength(src);
    while i < n
      invariant 0 <= i <= n && i % 3 == 0 && p == 4 * (i / 3) <= dst.Length && dst[..p] == Encoded(src[..i])
    {
      GroupFits(|src|, i);
      NextThree(src, i);
      var c1, c2, c3 := src[i], src[i + 1], src[i + 2];
      PutFour(dst, p, EncChar(c1 / 4), EncChar(c1 % 4 * 16 + c2 / 16), EncChar(c2 % 16 * 4 + c3 / 64), EncChar(c3 % 64));
      i := i + 3;
      p := p + 4;
    }
    EncodedLength(src[..n]);
  }

  lemma GroupFits(n: nat, i: nat)
    requires i % 3 == 0 && i < n / 3 * 3
    ensures i + 3 <= n / 3 * 3 && (i + 3) / 3 == i / 3 + 1 && 4 * (i / 3) + 4 <= 4 * (n / 3)
  {
  }

  lemma NextThree(src: seq<Byte>, i: nat)
    requires i % 3 == 0 && i + 3 <= |src|
    ensures var c1, c2, c3 := src[i], src[i + 1], src[i + 2];
            Encoded(src[..i + 3]) == Encoded(src[..i])
              + [EncChar(c1 / 4), EncChar(c1 % 4 * 16 + c2 / 16), EncChar(c2 % 16 * 4 + c3 / 64), EncChar(c3 % 64)]
  {
    hide EncChar, Encoded;
    var g := src[i..i + 3];
    EncodedConcat(src[..i], g);
    assert src[..i] + g == src[..i + 3];
    OneGroup(g);
  }

  lemma OneGroup(g: seq<Byte>)
    requires |g| == 3
    ensures Encoded(g) == [EncChar(g[0] / 4), EncChar(g[0] % 4 * 16 + g[1] / 16), EncChar(g[1] % 16 * 4 + g[2] / 64), EncChar(g[2] % 64)]
  {
    hide EncChar;
    assert g[3..] == [];
    EncodedEmpty();
  }

  method PutFour(dst: array<Byte>, p: nat, a: Byte, b: Byte, c: Byte, d: Byte)
    requires p + 4 <= dst.Length
    modifies dst
    ensures dst[..p + 4] == old(dst[..p]) + [a, b, c, d]
  {
    dst[p], dst[p + 1], dst[p + 2], dst[p + 3] := a, b, c, d;
  }

  method EncodeRest(dst: array<Byte>, src: seq<Byte>, i: nat, p0: nat) returns (p: nat)
    requires i == |src| / 3 * 3 < |src| && p0 == |Encoded(src[..i])| <= dst.Length && dst.Length > |Encoded(src)| && dst[..p0] == Encoded(src[..i])
    modifies dst
    ensures p == |Encoded(src)| && dst[..p] == Encoded(src)
  {
    hide EncChar;
    EncodedLength(src);
    EncodedLength(src[..i]);
    EncodedConcat(src[..i], src[i..]);
    assert src[..i] + src[i..] == src;
    var c1: int, c2: int := src[i], if i + 1 < |src| then src[i + 1] else 0;
    PutFour(dst, p0, EncChar(c1 / 4), EncChar(c1 % 4 * 16 + c2 / 16), if i + 1 < |src| then EncChar(c2 % 16 * 4) else EQ, EQ);
    p := p0 + 4;
  }

  // ---- Decoding: the first pass -----------------------------------------------------------------

  /** What is demanded of position k: a digit, '=' or line end; a space only before another blank or at the end. */
  ghost predicate GoodAt(s: seq<Byte>, k: nat)
    requires k < |s|
  {
    && (Digit(s[k]) || s[k] == EQ || Blank(s[k]))
    && (s[k] == CR ==> k + 1 < |s| && s[k + 1] == LF)
    && (s[k] == SP && k + 1 < |s| ==> Blank(s[k + 1]))
  }

  /** The texts the decoder accepts. */
  ghost predicate Accepted(s: seq<Byte>) {
    (forall k :: 0 <= k < |s| ==> GoodAt(s, k)) && WellPadded(Payload(s))
  }

  lemma PayloadStep(s: seq<Byte>, i: nat)
    requires i < |s|
    ensures Payload(s[..i + 1]) == Payload(s[..i]) + if Blank(s[i]) then [] else [s[i]]
  {
    assert s[..i + 1][..i] == s[..i];
  }

  lemma {:induction false} PayloadPrefix(s: seq<Byte>, i: nat)
    requires i <= |s|
    ensures Payload(s[..i]) <= Payload(s)
  {
    if i < |s| {
      PayloadPrefix(s[..|s| - 1], i);
      assert s[..|s| - 1][..i] == s[..i];
    } else {
      assert s[..i] == s;
    }
  }

  /** A prefix of the payload that is not well padded rules the text out. */
  lemma BadPrefix(s: seq<Byte>, i: nat)
    requires i <= |s| && !WellPadded(Payload(s[..i]))
    ensures !Accepted(s)
  {
    PayloadPrefix(s, i);
    var p, q := Payload(s[..i]), Payload(s);
    assert q == p + q[|p|..];
    if WellPadded(q) {
      PaddedPrefix(p, q[|p|..]);
    }
  }

  lemma PaddedPrefix(p: seq<Byte>, t: seq<Byte>)
    requires WellPadded(p + t)
    ensures WellPadded(p)
  {
    hide Digit;
    CountConcat(p, t, EQ);
    forall k | 0 <= k < |p| ensures Digit(p[k]) || p[k] == EQ {
      assert p[k] == (p + t)[k];
    }
    forall j, k | 0 <= j < k < |p| && p[j] == EQ ensures p[k] == EQ {
      assert p[j] == (p + t)[j] && p[k] == (p + t)[k];
    }
  }

  lemma PaddedSnoc(p: seq<Byte>, c: Byte)
    requires WellPadded(p)
    ensures Count(p + [c], EQ) == Count(p, EQ) + if c == EQ then 1 else 0
    ensures WellPadded(p + [c]) <==> if c == EQ then Count(p, EQ) < 2 else Digit(c) && Count(p, EQ) == 0
  {
    hide Count, Digit;
    var q := p + [c];
    CountSnoc(p, c);
    EqualsIsZero();
    if Count(p, EQ) == 0 {
      CountedNone(p);
    } else {
      SomeEquals(p);
      var k :| 0 <= k < |p| && p[k] == EQ;
      assert q[k] == EQ && q[|p|] == c;
    }
  }

  lemma CountSnoc(p: seq<Byte>, c: Byte)
    ensures Count(p + [c], EQ) == Count(p, EQ) + if c == EQ then 1 else 0
  {
    assert (p + [c])[..|p|] == p;
  }

  lemma {:induction false} Counted(p: seq<Byte>, k: nat)
    requires k < |p| && p[k] == EQ
    ensures Count(p, EQ) > 0
  {
    if k < |p| - 1 {
      Counted(p[..|p| - 1], k);
    }
  }

  lemma CountedNone(p: seq<Byte>)
    requires Count(p, EQ) == 0
    ensures forall k :: 0 <= k < |p| ==> p[k] != EQ
  {
    forall k | 0 <= k < |p| ensures p[k] != EQ {
      if p[k] == EQ {
        Counted(p, k);
      }
    }
  }

  lemma SomeEquals(p: seq<Byte>)
    requires Count(p, EQ) > 0
    ensures exists k :: 0 <= k < |p| && p[k] == EQ
  {
    if forall k :: 0 <= k < |p| ==> p[k] != EQ {
      NoEquals(p);
    }
  }

  lemma SpaceBefore(s: seq<Byte>, i: nat)
    requires 0 < i < |s| && s[i - 1] == SP && !Blank(s[i])
    ensures !Accepted(s)
  {
    assert !GoodAt(s, i - 1);
  }

  lemma BadCharacter(s: seq<Byte>, i: nat)
    requires i < |s| && !GoodAt(s, i)
    ensures !Accepted(s)
  {
  }

  /** Positions below i are in order, the payload so far is well padded, n characters with q '='. */
  ghost predicate Passed(s: seq<Byte>, i: nat, n: nat, q: nat) {
    && i <= |s| && (forall k :: 0 <= k < i ==> GoodAt(s, k))
    && WellPadded(Payload(s[..i])) && n == |Payload(s[..i])| && q == Count(Payload(s[..i]), EQ)
  }

  lemma PassedStart(s: seq<Byte>)
    ensures Passed(s, 0, 0, 0)
  {
  }

  lemma PassedBlank(s: seq<Byte>, i: nat, n: nat, q: nat)
    requires i < |s| && Passed(s, i, n, q) && Blank(s[i]) && GoodAt(s, i)
    ensures Passed(s, i + 1, n, q)
  {
    PayloadStep(s, i);
    assert Payload(s[..i]) + [] == Payload(s[..i]);
  }

  lemma PassedChar(s: seq<Byte>, i: nat, n: nat, q: nat)
    requires i < |s| && Passed(s, i, n, q) && (s[i] == EQ || Digit(s[i])) && (if s[i] == EQ then q < 2 else q == 0)
    ensures Passed(s, i + 1, n + 1, if s[i] == EQ then q + 1 else q)
  {
    PayloadStep(s, i);
    NotBlank(s[i]);
    PaddedSnoc(Payload(s[..i]), s[i]);
  }

  lemma NotBlank(c: Byte)
    requires c == EQ || Digit(c)
    ensures !Blank(c)
  {
  }

  lemma RejectedChar(s: seq<Byte>, i: nat, n: nat, q: nat)
    requires i < |s| && Passed(s, i, n, q) && !Blank(s[i])
    requires if s[i] == EQ then q >= 2 else q != 0 || !Digit(s[i])
    ensures !Accepted(s)
  {
    PayloadStep(s, i);
    PaddedSnoc(Payload(s[..i]), s[i]);
    BadPrefix(s, i + 1);
  }

  lemma PassedEnd(s: seq<Byte>, n: nat, q: nat)
    requires Passed(s, |s|, n, q)
    ensures Accepted(s) && n == |Payload(s)| && q == Count(Payload(s), EQ)
  {
    assert s[..|s|] == s;
  }

  /** The first pass: validity, and the numbers the length is computed from. */
  method FirstPass(src: seq<Byte>) returns (st: Status, n: nat, equals: nat)
    ensures st == if Accepted(src) then Ok else InvalidCharacter
    ensures st == Ok ==> n == |Payload(src)| && equals == Count(Payload(src), EQ)
  {
    hide Accepted, Passed, Digit, Count;
    n, equals := 0, 0;
    var i, slen := 0, |src|;
    PassedStart(src);
    while i < slen
      invariant 0 <= i <= slen && Passed(src, i, n, equals)
    {
      var spacesPresent;
      i, spacesPresent := SkipSpaces(src, i, n, equals);
      if i == slen {
        break;
      }
      if slen - i >= 2 && src[i] == CR && src[i + 1] == LF {
        PassedBlank(src, i, n, equals);
        i := i + 1;
        continue;
      }
      if src[i] == LF {
        PassedBlank(src, i, n, equals);
        i := i + 1;
        continue;
      }
      if spacesPresent {
        if src[i] == CR {
          BadCharacter(src, i);
        } else {
          SpaceBefore(src, i);
        }
        return InvalidCharacter, 0, 0;
      }
      Classify(src, i);
      if src[i] > 127 {
        BadCharacter(src, i);
        return InvalidCharacter, 0, 0;
      }
      if src[i] == EQ {
        if equals + 1 > 2 {
          RejectedChar(src, i, n, equals);
          return InvalidCharacter, 0, 0;
        }
      } else {
        if equals != 0 {
          RejectedOther(src, i, n, equals);
          return InvalidCharacter, 0, 0;
        }
        if DecValue(src[i]) < 0 {
          BadCharacter(src, i);
          return InvalidCharacter, 0, 0;
        }
      }
      PassedChar(src, i, n, equals);
      equals := if src[i] == EQ then equals + 1 else equals;
      n := n + 1;
      i := i + 1;
    }
    PassedEnd(src, n, equals);
    st := Ok;
  }

  /** The inner loop over spaces. */
  method SkipSpaces(src: seq<Byte>, i0: nat, ghost n: nat, ghost q: nat) returns (i: nat, present: bool)
    requires i0 <= |src| && Passed(src, i0, n, q)
    ensures i0 <= i <= |src| && (i < |src| ==> src[i] != SP) && present == (i > i0)
    ensures i > i0 ==> src[i - 1] == SP
    ensures i == |src| || Blank(src[i]) ==> Passed(src, i, n, q)
    ensures !present ==> Passed(src, i, n, q)
  {
    hide Passed;
    i, present := i0, false;
    while i < |src| && src[i] == SP
      invariant i0 <= i <= |src| && present == (i > i0) && forall k :: i0 <= k < i ==> src[k] == SP
    {
      i := i + 1;
      present := true;
    }
    if i == |src| || Blank(src[i]) {
      SpacesPassed(src, i0, i, n, q);
    }
  }

  lemma {:induction false} SpacesPassed(s: seq<Byte>, i: nat, j: nat, n: nat, q: nat)
    requires i <= j <= |s| && Passed(s, i, n, q) && (forall k :: i <= k < j ==> s[k] == SP) && (j < |s| ==> Blank(s[j]))
    ensures Passed(s, j, n, q)
    decreases j - i
  {
    hide Passed;
    if i < j {
      assert GoodAt(s, i) by {
        if i + 1 < j {
          assert s[i + 1] == SP;
        }
      }
      PassedBlank(s, i, n, q);
      SpacesPassed(s, i + 1, j, n, q);
    }
  }

  /** What a character that is no line end and no space can be. */
  lemma Classify(s: seq<Byte>, i: nat)
    requires i < |s| && s[i] != LF && s[i] != SP && !(|s| - i >= 2 && s[i] == CR && s[i + 1] == LF)
    ensures s[i] > 127 ==> !GoodAt(s, i)
    ensures s[i] != EQ && DecValue(s[i]) < 0 ==> !GoodAt(s, i)
    ensures Digit(s[i]) <==> DecValue(s[i]) >= 0
  {
  }

  lemma RejectedOther(s: seq<Byte>, i: nat, n: nat, q: nat)
    requires i < |s| && Passed(s, i, n, q) && s[i] != EQ && q != 0
    requires s[i] != LF && s[i] != SP && !(|s| - i >= 2 && s[i] == CR && s[i + 1] == LF)
    ensures !Accepted(s)
  {
    if Blank(s[i]) {
      BadCharacter(s, i);
    } else {
      RejectedChar(s, i, n, q);
    }
  }

  // ---- Decoding: the second pass ------------------------------------------------------------------

  /** The accumulator's low bits take six more. */
  lemma TakeSix(x: nat, m: nat, c: nat, r: nat, v: nat)
    requires m > 0 && 64 * m * c == 0x1_0000_0000 && x % m == r && v < 64
    ensures (x * 64 % 0x1_0000_0000 + v) % (64 * m) == r * 64 + v
  {
    var q, t := x / m, x * 64 / 0x1_0000_0000;
    assert x == q * m + r;
    var y := x * 64 % 0x1_0000_0000 + v;
    assert y == x * 64 + v - t * 0x1_0000_0000;
    assert q * m * 64 == q * (64 * m) && t * (64 * m * c) == (t * c) * (64 * m);
    assert y == (q - t * c) * (64 * m) + (r * 64 + v) by {
      assert (q - t * c) * (64 * m) == q * (64 * m) - (t * c) * (64 * m);
    }
    Arith.DivUnique(y, 64 * m, q - t * c, r * 64 + v);
  }

  /** The part of the payload from group start g with acc characters pending in x. */
  ghost predicate Pending(p: seq<Byte>, g: nat, acc: nat, x: nat) {
    g + acc <= |p| && acc < 4 && x % Pow64(acc) == Packed(p[g..g + acc])
  }

  lemma PendingNext(p: seq<Byte>, g: nat, acc: nat, x: nat)
    requires Pending(p, g, acc, x) && g + acc < |p|
    ensures var y := x * 64 % 0x1_0000_0000 + ValueOf(p[g + acc]);
            y < 0x1_0000_0000 && y % Pow64(acc + 1) == Packed(p[g..g + acc + 1])
  {
    hide ValueOf;
    Pow64Values();
    var t := p[g..g + acc + 1];
    assert t[..|t| - 1] == p[g..g + acc] && t[|t| - 1] == p[g + acc];
    TakeSix(x, Pow64(acc), 0x400_0000 / Pow64(acc), Packed(p[g..g + acc]), ValueOf(p[g + acc]));
    SixBitsRoom(x);
  }

  lemma SixBitsRoom(x: nat)
    ensures x * 64 % 0x1_0000_0000 <= 0x1_0000_0000 - 64
  {
    var h, l := x / 0x400_0000, x % 0x400_0000;
    Arith.DivUnique(x * 64, 0x1_0000_0000, h, l * 64);
  }

  lemma GroupDone(p: seq<Byte>, g: nat, y: nat)
    requires g + 4 <= |p| && y % Pow64(4) == Packed(p[g..g + 4])
    ensures var x := y % 0x100_0000;
            Decoded(p[g..], Count(p[..g], EQ)) == GroupBytes(x, Count(p[..g + 4], EQ)) + Decoded(p[g + 4..], Count(p[..g + 4], EQ))
  {
    hide Packed, Count, GroupBytes;
    Pow64Values();
    var t := p[g..];
    assert t[..4] == p[g..g + 4] && t[4..] == p[g + 4..];
    CountConcat(p[..g], p[g..g + 4], EQ);
    assert p[..g] + p[g..g + 4] == p[..g + 4];
  }

  lemma CharAt(src: seq<Byte>, k: nat)
    requires k < |src| && !Blank(src[k])
    ensures |Payload(src[..k])| < |Payload(src)| && Payload(src)[|Payload(src[..k])|] == src[k]
    ensures Payload(src[..k + 1]) == Payload(src[..k]) + [src[k]]
  {
    PayloadStep(src, k);
    PayloadPrefix(src, k + 1);
  }

  lemma CountNext(p: seq<Byte>, k: nat)
    requires k < |p|
    ensures Count(p[..k + 1], EQ) == Count(p[..k], EQ) + if p[k] == EQ then 1 else 0
  {
    assert p[..k + 1] == p[..k] + [p[k]];
    CountSnoc(p[..k], p[k]);
  }

  /** The bytes of a finished group. */
  method PutGroup(dst: array<Byte>, p0: nat, x: nat, equals: nat) returns (p: nat)
    requires x < 0x1_0000_0000 && p0 + |GroupBytes(x % 0x100_0000, equals)| <= dst.Length
    modifies dst
    ensures p == p0 + |GroupBytes(x % 0x100_0000, equals)|
    ensures dst[..p] == old(dst[..p0]) + GroupBytes(x % 0x100_0000, equals)
  {
    p := p0;
    LowThree(x);
    dst[p] := x / 0x1_0000 % 0x100;
    p := p + 1;
    if equals <= 1 {
      dst[p] := x / 0x100 % 0x100;
      p := p + 1;
    }
    if equals <= 0 {
      dst[p] := x % 0x100;
      p := p + 1;
    }
  }

  lemma LowThree(x: nat)
    ensures x % 0x100_0000 / 0x1_0000 == x / 0x1_0000 % 0x100
    ensures x % 0x100_0000 / 0x100 % 0x100 == x / 0x100 % 0x100 && x % 0x100_0000 % 0x100 == x % 0x100
  {
    var h, l := x / 0x100_0000, x % 0x100_0000;
    assert x / 0x1_0000 == h * 0x100 + l / 0x1_0000;
    assert x / 0x100 == h * 0x1_0000 + l / 0x100;
  }

  /** What the second pass has written, and what is left from group start g on, make up the whole. */
  ghost predicate Written(all: seq<Byte>, g: nat, out: seq<Byte>) {
    g <= |all| && Decoded(all, 0) == out + Decoded(all[g..], Count(all[..g], EQ))
  }

  lemma WrittenGroup(all: seq<Byte>, g: nat, out: seq<Byte>, y: nat)
    requires g + 4 <= |all| && y % Pow64(4) == Packed(all[g..g + 4]) && Written(all, g, out)
    ensures var b := GroupBytes(y % 0x100_0000, Count(all[..g + 4], EQ));
            Written(all, g + 4, out + b) && |out| + |b| <= |Decoded(all, 0)|
  {
    hide Decoded, Packed, Count, GroupBytes, Pow64;
    GroupDone(all, g, y);
    var b, rest := GroupBytes(y % 0x100_0000, Count(all[..g + 4], EQ)), Decoded(all[g + 4..], Count(all[..g + 4], EQ));
    assert out + (b + rest) == out + b + rest;
  }

  /** One digit or '=' of the text. */
  method TakeChar(dst: array<Byte>, c: Byte, p0: nat, x0: nat, acc0: nat, equals0: nat, ghost all: seq<Byte>, ghost g0: nat)
    returns (p: nat, x: nat, acc: nat, equals: nat, ghost g: nat)
    requires Pending(all, g0, acc0, x0) && g0 + acc0 < |all| && all[g0 + acc0] == c && equals0 == Count(all[..g0 + acc0], EQ)
    requires p0 <= dst.Length && Written(all, g0, dst[..p0]) && |Decoded(all, 0)| <= dst.Length
    requires ValueOf(c) == if c == EQ then 0 else DecValue(c)
    modifies dst
    ensures Pending(all, g, acc, x) && g + acc == g0 + acc0 + 1 <= |all| && equals == Count(all[..g + acc], EQ)
    ensures p <= dst.Length && Written(all, g, dst[..p])
  {
    hide Decoded, Packed, Count, GroupBytes, ValueOf, Pending, Pow64, Written;
    p, equals, g := p0, equals0, g0;
    PendingFacts(all, g, acc0, x0);
    PendingNext(all, g, acc0, x0);
    CountNext(all, g + acc0);
    x := x0 * 64 % 0x1_0000_0000;
    if c == EQ {
      equals := equals + 1;
    } else {
      x := x + DecValue(c); // the six low bits are clear, so |= is +
    }
    acc := acc0 + 1;
    if acc == 4 {
      acc := 0;
      WrittenGroup(all, g, dst[..p], x);
      p := PutGroup(dst, p, x, equals);
      g := g + 4;
      NothingPending(all, g, x);
    } else {
      SomePending(all, g, acc, x);
    }
  }

  /** The loop of the second pass. */
  method SecondPass(dst: array<Byte>, src: seq<Byte>) returns (p: nat)
    requires Accepted(src) && |Decoded(Payload(src), 0)| <= dst.Length
    modifies dst
    ensures p == |Decoded(Payload(src), 0)| && dst[..p] == Decoded(Payload(src), 0)
  {
    hide Decoded, Payload, Accepted, Packed, Count, ValueOf, Pending, Written;
    ghost var all := Payload(src);
    var x: nat, accumulatedDigits: nat, equals: nat := 0, 0, 0;
    ghost var g: nat := 0;
    p := 0;
    StartPending(all, src);
    assert dst[..0] == [];
    for k := 0 to |src|
      invariant p <= dst.Length && g + accumulatedDigits <= |all| && Pending(all, g, accumulatedDigits, x)
      invariant g + accumulatedDigits == |Payload(src[..k])| && equals == Count(all[..g + accumulatedDigits], EQ)
      invariant Written(all, g, dst[..p])
    {
      if src[k] == CR || src[k] == LF || src[k] == SP {
        PayloadStep(src, k);
        assert Payload(src[..k]) + [] == Payload(src[..k]);
      } else {
        CharAt(src, k);
        AcceptedChar(src, k);
        p, x, accumulatedDigits, equals, g := TakeChar(dst, src[k], p, x, accumulatedDigits, equals, all, g);
      }
    }
    assert src[..|src|] == src;
    PendingFacts(all, g, accumulatedDigits, x);
    Unfinished(all, g, dst[..p]);
  }

  lemma StartPending(all: seq<Byte>, src: seq<Byte>)
    ensures Pending(all, 0, 0, 0) && |Payload(src[..0])| == 0 && Count(all[..0], EQ) == 0
    ensures Written(all, 0, [])
  {
    assert all[0..] == all && all[0..0] == [];
  }

  lemma PendingFacts(p: seq<Byte>, g: nat, acc: nat, x: nat)
    requires Pending(p, g, acc, x)
    ensures acc < 4 && g + acc <= |p|
  {
  }

  lemma NothingPending(p: seq<Byte>, g: nat, x: nat)
    requires g <= |p|
    ensures Pending(p, g, 0, x)
  {
    assert p[g..g + 0] == [];
  }

  lemma SomePending(p: seq<Byte>, g: nat, acc: nat, x: nat)
    requires g + acc <= |p| && acc < 4 && x % Pow64(acc) == Packed(p[g..g + acc])
    ensures Pending(p, g, acc, x)
  {
  }

  /** An unfinished group at the end gives nothing. */
  lemma Unfinished(all: seq<Byte>, g: nat, out: seq<Byte>)
    requires g <= |all| < g + 4 && Written(all, g, out)
    ensures out == Decoded(all, 0)
  {
    assert Decoded(all[g..], Count(all[..g], EQ)) == [];
  }

  lemma AcceptedChar(s: seq<Byte>, k: nat)
    requires Accepted(s) && k < |s| && !Blank(s[k])
    ensures ValueOf(s[k]) == if s[k] == EQ then 0 else DecValue(s[k])
    ensures s[k] != EQ ==> DecValue(s[k]) >= 0
  {
    assert GoodAt(s, k);
    EqualsIsZero();
  }

  /** mbedtls_base64_decode. */
  method Decode(dst: array<Byte>, src: seq<Byte>) returns (st: Status, olen: nat)
    modifies dst
    ensures var p := Payload(src); var n := Needed(|p|, Count(p, EQ));
            st == if !Accepted(src) then InvalidCharacter else if p != [] && dst.Length < n then BufferTooSmall else Ok
    ensures st == Ok ==> olen == |Decoded(Payload(src), 0)| <= dst.Length && dst[..olen] == Decoded(Payload(src), 0)
    ensures st == BufferTooSmall ==> olen == Needed(|Payload(src)|, Count(Payload(src), EQ))
    ensures st != Ok ==> dst[..] == old(dst[..])
  {
    hide Accepted, Payload, Count, Decoded;
    var n, equals;
    st, n, equals := FirstPass(src);
    olen := 0;
    if st != Ok {
      return;
    }
    ghost var p := Payload(src);
    AcceptedPadding(src);
    DecodedFits(p);
    if n == 0 {
      NothingDecoded(p);
      return Ok, 0;
    }
    n := 6 * (n / 8) + (6 * (n % 8) + 7) / 8 - equals;
    if dst.Length < n {
      return BufferTooSmall, n;
    }
    olen := SecondPass(dst, src);
  }

  lemma AcceptedPadding(s: seq<Byte>)
    requires Accepted(s)
    ensures WellPadded(Payload(s))
  {
  }

  lemma NothingDecoded(p: seq<Byte>)
    requires |p| == 0
    ensures Decoded(p, 0) == []
  {
  }

  // ---- Line ends do not matter --------------------------------------------------------------------

  /** t is s with LF or CR LF put in anywhere. */
  ghost predicate LineBroken(t: seq<Byte>, s: seq<Byte>)
    decreases |t|
  {
    if t == [] then s == []
    else if t[0] == LF then LineBroken(t[1..], s)
    else if |t| >= 2 && t[0] == CR && t[1] == LF then LineBroken(t[2..], s)
    else s != [] && t[0] == s[0] && LineBroken(t[1..], s[1..])
  }

  ghost predicate TextOnly(s: seq<Byte>) {
    forall k :: 0 <= k < |s| ==> Digit(s[k]) || s[k] == EQ
  }

  lemma {:induction false} PayloadConcat(s: seq<Byte>, t: seq<Byte>)
    ensures Payload(s + t) == Payload(s) + Payload(t)
  {
    if t == [] {
      assert s + t == s;
    } else {
      assert (s + t)[..|s + t| - 1] == s + t[..|t| - 1];
      PayloadConcat(s, t[..|t| - 1]);
    }
  }

  lemma PayloadOne(c: Byte)
    ensures Payload([c]) == if Blank(c) then [] else [c]
  {
    assert [c][..0] == [];
  }

  lemma GoodShift(t: seq<Byte>, k: nat)
    requires 0 < k < |t| && GoodAt(t[1..], k - 1)
    ensures GoodAt(t, k)
  {
    if k + 1 < |t| {
      assert t[1..][k] == t[k + 1];
    }
  }

  /** The payload of the broken text is the text, and every position is in order. */
  lemma {:induction false} LineBreaksIgnored(t: seq<Byte>, s: seq<Byte>)
    requires LineBroken(t, s) && TextOnly(s)
    ensures Payload(t) == s && forall k :: 0 <= k < |t| ==> GoodAt(t, k)
    decreases |t|
  {
    hide Payload, GoodAt;
    if t == [] {
      EmptyPayload();
    } else {
      assert t == [t[0]] + t[1..];
      PayloadConcat([t[0]], t[1..]);
      PayloadOne(t[0]);
      if t[0] == LF {
        LineBreaksIgnored(t[1..], s);
      } else if |t| >= 2 && t[0] == CR && t[1] == LF {
        assert t[1..][1..] == t[2..];
        assert LineBroken(t[1..], s);
        LineBreaksIgnored(t[1..], s);
      } else {
        NotBlank(t[0]);
        LineBreaksIgnored(t[1..], s[1..]);
        assert s == [s[0]] + s[1..];
      }
      FirstGood(t);
      forall k | 0 < k < |t| ensures GoodAt(t, k) {
        GoodShift(t, k);
      }
    }
  }

  lemma EmptyPayload()
    ensures Payload([]) == []
  {
  }

  lemma FirstGood(t: seq<Byte>)
    requires t != [] && t[0] != SP && (t[0] == LF || Digit(t[0]) || t[0] == EQ || (t[0] == CR && |t| >= 2 && t[1] == LF))
    ensures GoodAt(t, 0)
  {
    if t[0] == CR {
      assert t[0 + 1] == LF;
    }
  }

  lemma {:induction false} EncodedText(b: seq<Byte>)
    ensures WellPadded(Encoded(b))
    decreases |b|
  {
    hide Count;
    if b == [] {
      EmptyPadded();
    } else if |b| <= 2 {
      LastGroup(b);
      LastText(b);
    } else {
      EncodedText(b[3..]);
      FullText(b);
    }
  }

  lemma EmptyPadded()
    ensures WellPadded([])
  {
  }

  lemma LastText(b: seq<Byte>)
    requires 1 <= |b| <= 2 && Count(Encoded(b), EQ) == 3 - |b|
    ensures WellPadded(Encoded(b))
  {
    hide EncChar, DecValue, Count;
    var e := Encoded(b);
    CharRoundTrip(b[0] / 4);
    if |b| == 1 {
      CharRoundTrip(b[0] % 4 * 16);
    } else {
      CharRoundTrip(b[0] % 4 * 16 + b[1] / 16);
      CharRoundTrip(b[1] % 16 * 4);
    }
    FourPadded(e);
  }

  lemma FourPadded(e: seq<Byte>)
    requires |e| == 4 && Digit(e[0]) && Digit(e[1]) && e[0] != EQ && e[1] != EQ && e[3] == EQ
    requires (Digit(e[2]) || e[2] == EQ) && Count(e, EQ) <= 2
    ensures WellPadded(e)
  {
    hide Digit, Count;
  }

  lemma FullText(b: seq<Byte>)
    requires |b| >= 3 && WellPadded(Encoded(b[3..]))
    ensures WellPadded(Encoded(b))
  {
    hide EncChar, Count, Digit;
    FullGroup(b);
    var e := Encoded(b);
    var g, t := e[..4], e[4..];
    GroupDigits(b);
    CountConcat(g, t, EQ);
    assert e == g + t;
    forall k | 0 <= k < |e| ensures Digit(e[k]) || e[k] == EQ {
      if k >= 4 {
        assert e[k] == t[k - 4];
      }
    }
    forall j, k | 0 <= j < k < |e| && e[j] == EQ ensures e[k] == EQ {
      assert e[j] == t[j - 4] && e[k] == t[k - 4];
    }
  }

  lemma GroupDigits(b: seq<Byte>)
    requires |b| >= 3
    ensures forall k :: 0 <= k < 4 ==> Digit(Encoded(b)[k]) && Encoded(b)[k] != EQ
  {
    hide EncChar;
    CharRoundTrip(b[0] / 4);
    CharRoundTrip(b[0] % 4 * 16 + b[1] / 16);
    CharRoundTrip(b[1] % 16 * 4 + b[2] / 64);
    CharRoundTrip(b[2] % 64);
  }

  /** Decoding an encoding with line ends put in anywhere: accepted, and the original bytes. */
  lemma BrokenRoundTrip(b: seq<Byte>, t: seq<Byte>)
    requires LineBroken(t, Encoded(b))
    ensures Accepted(t) && Decoded(Payload(t), 0) == b
  {
    hide LineBroken, Payload, Decoded, Encoded;
    EncodedText(b);
    LineBreaksIgnored(t, Encoded(b));
    RoundTrip(b);
  }

  lemma {:induction false} Unbroken(s: seq<Byte>)
    requires TextOnly(s)
    ensures LineBroken(s, s)
  {
    if s != [] {
      NotBlank(s[0]);
      Unbroken(s[1..]);
    }
  }

  /** The first pass asks for exactly the original length. */
  lemma {:induction false} EncodedNeeds(b: seq<Byte>)
    ensures Needed(|Encoded(b)|, Count(Encoded(b), EQ)) == |b|
    decreases |b|
  {
    hide Packed, Count, Encoded, Needed;
    if b == [] {
      EncodedEmpty();
      NothingNeeded([]);
    } else if |b| <= 2 {
      LastGroup(b);
      FourNeed(3 - |b|);
    } else {
      var e := Encoded(b);
      FullGroup(b);
      EncodedNeeds(b[3..]);
      CountConcat(e[..4], e[4..], EQ);
      assert e[..4] + e[4..] == e;
      NeededStep(|e|, Count(e, EQ));
    }
  }

  lemma NothingNeeded(p: seq<Byte>)
    requires p == []
    ensures Needed(|p|, Count(p, EQ)) == 0
  {
  }

  lemma FourNeed(q: nat)
    ensures Needed(4, q) == 3 - q
  {
  }

  /** Encoding, then decoding the text: the original bytes, whenever text and result have room. */
  method EncodeThenDecode(src: seq<Byte>, text: array<Byte>, dst: array<Byte>) returns (st: Status, olen: nat)
    requires text != dst
    modifies text, dst
    ensures st == if src == [] || (|Encoded(src)| + 1 <= text.Length && |Encoded(src)| / 4 <= (0xFFFF_FFFF_FFFF_FFFF - 1) / 4 && |src| <= dst.Length)
                  then Ok else BufferTooSmall
    ensures st == Ok ==> olen == |src| <= dst.Length && dst[..olen] == src
  {
    hide Encoded, Decoded, Payload, Accepted, Count, LineBroken, Needed;
    EncodedNeeds(src);
    var n;
    st, n := Encode(text, src);
    if st != Ok {
      return st, 0;
    }
    EncodedText(src);
    Unbroken(Encoded(src));
    BrokenRoundTrip(src, Encoded(src));
    LineBreaksIgnored(Encoded(src), Encoded(src));
    EncodedLength(src);
    st, olen := Decode(dst, text[..n]);
  }
}
