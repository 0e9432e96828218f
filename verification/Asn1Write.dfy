/** The backwards DER writer (asn1write.c). */
module Asn1Write {
  import opened Arith
  import Words
  import opened Bytes
  import opened CoreBits
  import CoreBytes
  import opened Der
  import Bits
  import Mpis
  import MpiAddSub

  /** The length octets in numbers: how many follow, and these most significant first. */
  lemma LenOctets(n: nat)
    requires 0x80 <= n <= 0xFFFF_FFFF
    ensures LenBytes(n) ==
            if n <= 0xFF then [0x81, n]
            else if n <= 0xFFFF then [0x82, n / 0x100 % 0x100, n % 0x100]
            else if n <= 0xFF_FFFF then [0x83, n / 0x1_0000 % 0x100, n / 0x100 % 0x100, n % 0x100]
            else [0x84, n / 0x100_0000 % 0x100, n / 0x1_0000 % 0x100, n / 0x100 % 0x100, n % 0x100]
  {
    hide BeBytes;
    if n <= 0xFF {
      OneOctet(n);
    } else if n <= 0xFFFF {
      TwoOctets(n);
    } else if n <= 0xFF_FFFF {
      ThreeOctets(n);
    } else {
      FourOctets(n);
    }
  }

  /** A buffer that is filled from its end towards start; p is where the written part begins. */
  class Writer {
    const buf: array<Byte>
    const start: nat
    var p: nat

    constructor (b: array<Byte>, s: nat)
      requires s <= b.Length
      ensures buf == b && start == s && p == b.Length && Valid()
    {
      buf, start, p := b, s, b.Length;
    }

    ghost predicate Valid()
      reads this
    {
      start <= p <= buf.Length
    }

    /** What has been written. */
    ghost function Written(): seq<Byte>
      requires Valid()
      reads this, buf
    {
      buf[p..]
    }

    /** *--(*p) = b. */
    method Prepend(b: Byte)
      requires Valid() && p > start
      modifies this, buf
      ensures Valid() && p == old(p) - 1 && Written() == [b] + old(Written())
      ensures buf[..start] == old(buf[..start])
    {
      p := p - 1;
      buf[p] := b;
    }

    /** mbedtls_asn1_write_len. */
    method WriteLen(len: nat) returns (st: Status, n: nat)
      requires Valid()
      modifies this, buf
      ensures Valid() && buf[..start] == old(buf[..start])
      ensures st == if len > 0xFFFF_FFFF then InvalidLength else if old(p) - start < |LenBytes(len)| then BufTooSmall else Ok
      ensures st == Ok ==> n == |LenBytes(len)| && Written() == LenBytes(len) + old(Written())
      ensures st != Ok ==> Written() == old(Written()) && p == old(p)
    {
      hide BeBytes;
      if len < 0x80 {
        if p - start < 1 {
          return BufTooSmall, 0;
        }
        Prepend(len);
        return Ok, 1;
      }
      if len > 0xFFFF_FFFF {
        return InvalidLength, 0;
      }
      hide LenBytes;
      LenOctets(len);
      if len <= 0xFF {
        if p - start < 2 {
          return BufTooSmall, 0;
        }
        PrependTwo(0x81, len);
        return Ok, 2;
      }
      st, n := WriteLongLen(len);
    }

    /** Two octets, the second one first. */
    method PrependTwo(a: Byte, b: Byte)
      requires Valid() && p >= start + 2
      modifies this, buf
      ensures Valid() && p == old(p) - 2 && Written() == [a, b] + old(Written())
      ensures buf[..start] == old(buf[..start])
    {
      ghost var w := Written();
      Prepend(b);
      Prepend(a);
      assert [a] + ([b] + w) == [a, b] + w;
    }

    method PrependFour(a: Byte, b: Byte, c: Byte, d: Byte)
      requires Valid() && p >= start + 4
      modifies this, buf
      ensures Valid() && p == old(p) - 4 && Written() == [a, b, c, d] + old(Written())
      ensures buf[..start] == old(buf[..start])
    {
      ghost var w := Written();
      PrependTwo(c, d);
      PrependTwo(a, b);
      assert [a, b] + ([c, d] + w) == [a, b, c, d] + w;
    }

    /** The branches with two to four length octets after the first. */
    method WriteLongLen(len: nat) returns (st: Status, n: nat)
      requires Valid() && 0xFF < len <= 0xFFFF_FFFF
      modifies this, buf
      ensures Valid() && buf[..start] == old(buf[..start])
      ensures st == if old(p) - start < |LenBytes(len)| then BufTooSmall else Ok
      ensures st == Ok ==> n == |LenBytes(len)| && Written() == LenBytes(len) + old(Written())
      ensures st != Ok ==> Written() == old(Written()) && p == old(p)
    {
      hide BeBytes, LenBytes;
      LenOctets(len);
      ghost var w := Written();
      var b0, b1, b2, b3 := len % 0x100, len / 0x100 % 0x100, len / 0x1_0000 % 0x100, len / 0x100_0000 % 0x100;
      if len <= 0xFFFF {
        if p - start < 3 {
          return BufTooSmall, 0;
        }
        PrependTwo(b1, b0);
        Prepend(0x82);
        assert [0x82] + ([b1, b0] + w) == [0x82, b1, b0] + w;
        return Ok, 3;
      }
      if len <= 0xFF_FFFF {
        if p - start < 4 {
          return BufTooSmall, 0;
        }
        PrependFour(0x83, b2, b1, b0);
        return Ok, 4;
      }
      if p - start < 5 {
        return BufTooSmall, 0;
      }
      PrependFour(b3, b2, b1, b0);
      Prepend(0x84);
      assert [0x84] + ([b3, b2, b1, b0] + w) == [0x84, b3, b2, b1, b0] + w;
      return Ok, 5;
    }

    /** mbedtls_asn1_write_tag. */
    method WriteTag(tag: Byte) returns (st: Status, n: nat)
      requires Valid()
      modifies this, buf
      ensures Valid() && buf[..start] == old(buf[..start])
      ensures st == if old(p) - start < 1 then BufTooSmall else Ok
      ensures st == Ok ==> n == 1 && Written() == [tag] + old(Written())
      ensures st != Ok ==> Written() == old(Written()) && p == old(p)
    {
      if p - start < 1 {
        return BufTooSmall, 0;
      }
      Prepend(tag);
      return Ok, 1;
    }

    /** Length and tag in front of contents that have just been written: len counts the contents. */
    method WriteHeader(len: nat, tag: Byte, ghost content: seq<Byte>, ghost before: seq<Byte>) returns (st: Status, n: nat)
      requires Valid() && len == |content| && Written() == content + before
      modifies this, buf
      ensures Valid() && buf[..start] == old(buf[..start])
      ensures st == if len > 0xFFFF_FFFF then InvalidLength else if old(p) - start + len < |Tlv(tag, content)| then BufTooSmall else Ok
      ensures st == Ok ==> n == |Tlv(tag, content)| && Written() == Tlv(tag, content) + before
      ensures p <= old(p)
    {
      hide LenBytes;
      n := len;
      var k;
      st, k := WriteLen(len);
      if st != Ok {
        return;
      }
      n := n + k;
      assert LenBytes(len) + (content + before) == LenBytes(len) + content + before;
      st, k := WriteTag(tag);
      if st != Ok {
        return;
      }
      n := n + k;
      assert [tag] + (LenBytes(len) + content + before) == Tlv(tag, content) + before;
    }

    // ---- Integers ---------------------------------------------------------------------------

    /** The value a 32-bit int is written as: a negative one loses all but its low octet. */
    static function WrittenInt(val: int): nat {
      if val < 0 then val % 256 else val
    }

    method PrependDigit(b: Byte, ghost done: seq<Byte>, ghost before: seq<Byte>)
      requires Valid() && p > start && Written() == done + before
      modifies this, buf
      ensures Valid() && p == old(p) - 1 && Written() == [b] + done + before
      ensures buf[..start] == old(buf[..start])
    {
      Prepend(b);
      assert [b] + (done + before) == [b] + done + before;
    }

    /** The do-while loop: octets from the least significant. */
    method WriteDigits(val0: int) returns (st: Status, len: nat)
      requires Valid() && -0x8000_0000 <= val0 < 0x8000_0000
      modifies this, buf
      ensures Valid() && buf[..start] == old(buf[..start]) && p <= old(p)
      ensures st == if old(p) - start < |Magnitude(WrittenInt(val0))| then BufTooSmall else Ok
      ensures st == Ok ==> len == |Magnitude(WrittenInt(val0))| && Written() == Magnitude(WrittenInt(val0)) + old(Written())
    {
      hide Magnitude, DigitsLeft;
      var val, again := val0, true;
      len := 0;
      ghost var m, done: seq<Byte> := Magnitude(WrittenInt(val0)), [];
      DigitsStart(m, val0);
      while again
        invariant Valid() && buf[..start] == old(buf[..start]) && p == old(p) - len && len == |done|
        invariant Written() == done + old(Written()) && DigitsLeft(m, val, again, done)
        invariant again ==> done == [] || val > 0
        decreases again, if val < 0 then 0 else val
      {
        DigitsNext(m, val, done);
        if p - start < 1 {
          return BufTooSmall, 0;
        }
        len := len + 1;
        PrependDigit(val % 0x100, done, old(Written()));
        done := [val % 0x100] + done;
        val := val / 0x100;
        again := val > 0;
      }
      DigitsEnd(m, val, done);
      st := Ok;
    }

    /** asn1_write_tagged_int. */
    method WriteTaggedInt(val: int, tag: Byte) returns (st: Status, n: nat)
      requires Valid() && -0x8000_0000 <= val < 0x8000_0000
      modifies this, buf
      ensures Valid() && buf[..start] == old(buf[..start])
      ensures var content := IntContent(WrittenInt(val));
              |content| <= 5 && st == (if old(p) - start < |Tlv(tag, content)| then BufTooSmall else Ok)
              && (st == Ok ==> n == |Tlv(tag, content)| && Written() == Tlv(tag, content) + old(Written()))
    {
      hide Magnitude, LenBytes;
      ghost var before, m := Written(), Magnitude(WrittenInt(val));
      IntSize(WrittenInt(val));
      var len;
      st, len := WriteDigits(val);
      if st != Ok {
        return BufTooSmall, 0;
      }
      assert buf[p] == (m + before)[0];
      if buf[p] >= 0x80 {
        if p - start < 1 {
          return BufTooSmall, 0;
        }
        Prepend(0);
        len := len + 1;
        assert [0] + (m + before) == [0] + m + before;
      }
      st, n := WriteHeader(len, tag, IntContent(WrittenInt(val)), before);
    }

    // ---- Multi-precision integers ---------------------------------------------------------------

    /** Bytes copied in front of what is written. */
    method PrependBytes(s: seq<Byte>)
      requires Valid() && p >= start + |s|
      modifies this, buf
      ensures Valid() && p == old(p) - |s| && Written() == s + old(Written())
      ensures buf[..start] == old(buf[..start])
    {
      ghost var w := Written();
      p := p - |s|;
      for i := 0 to |s|
        invariant p == old(p) - |s| && buf[old(p)..] == w && buf[..start] == old(buf[..start])
        invariant buf[p..p + i] == s[..i]
      {
        buf[p + i] := s[i];
      }
      assert s[..|s|] == s;
      SplitTail(buf[..], p, |s|);
    }

    /** mbedtls_asn1_write_mpi: the sign only decides about the zero octet. */
    method WriteMpi(X: Mpis.Mpi) returns (st: Status, n: nat)
      requires Valid()
      modifies this, buf
      ensures Valid() && buf[..start] == old(buf[..start])
      ensures var content := MpiContent(X.s, X.Abs());
              st == (if old(p) - start < |Magnitude(X.Abs())| then BufTooSmall
                     else if content != Magnitude(X.Abs()) && old(p) - start < |content| then BufTooSmall
                     else if |content| > 0xFFFF_FFFF then InvalidLength
                     else if old(p) - start < |Tlv(0x02, content)| then BufTooSmall else Ok)
              && (st == Ok ==> n == |Tlv(0x02, content)| && Written() == Tlv(0x02, content) + old(Written()))
    {
      hide Words.Val, BitLength, Magnitude, LenBytes;
      ghost var v, before := X.Abs(), Written();
      MagnitudeSize(v);
      var len := Bitlen(X.p);
      len := (len + 7) / 8;
      if len == 0 {
        len := 1;
      }
      if p - start < len {
        return BufTooSmall, 0;
      }
      var out := new Byte[len];
      MagnitudeBound(v);
      var bytes := WriteBinary(X, out);
      PrependBytes(bytes);
      assert bytes == Magnitude(v) by { SameMagnitude(v, bytes); }
      assert buf[p] == (bytes + before)[0] == bytes[0];
      if X.s == 1 && buf[p] >= 0x80 {
        if p - start < 1 {
          return BufTooSmall, 0;
        }
        Prepend(0);
        len := len + 1;
        assert [0] + (bytes + before) == [0] + bytes + before;
      }
      st, n := WriteHeader(len, INTEGER, MpiContent(X.s, v), before);
    }

    /** mbedtls_mpi_write_binary, into a buffer of its own. */
    method WriteBinary(X: Mpis.Mpi, out: array<Byte>) returns (bytes: seq<Byte>)
      requires X.Abs() < Pow256(out.Length) && out != buf
      modifies out
      ensures |bytes| == out.Length && BeVal(bytes) == X.Abs()
    {
      hide Words.Val, BeVal, Pow256;
      var xs := MpiAddSub.ToArray(X.p);
      assert xs[..|X.p|] == X.p;
      var ok := CoreBytes.WriteBe(xs, |X.p|, out);
      bytes := out[..];
    }

    // ---- Bit strings --------------------------------------------------------------------------------

    /** mbedtls_asn1_write_bitstring. */
    method WriteBitstring(src: seq<Byte>, bits: nat) returns (st: Status, n: nat)
      requires Valid() && Octets(bits) <= |src|
      modifies this, buf
      ensures Valid() && buf[..start] == old(buf[..start])
      ensures var content := BitContent(src, bits);
              st == (if old(p) - start < |content| then BufTooSmall
                     else if |content| > 0xFFFF_FFFF then InvalidLength
                     else if old(p) - start < |Tlv(0x03, content)| then BufTooSmall else Ok)
              && (st == Ok ==> n == |Tlv(0x03, content)| && Written() == Tlv(0x03, content) + old(Written()))
    {
      hide LenBytes, BitOctets;
      ghost var before := Written();
      var byteLen := (bits + 7) / 8;
      var unusedBits := byteLen * 8 - bits;
      if p - start < byteLen + 1 {
        return BufTooSmall, 0;
      }
      WriteOctets(src, bits, byteLen, unusedBits);
      Prepend(unusedBits);
      assert [unusedBits] + (BitOctets(src, bits) + before) == BitContent(src, bits) + before;
      st, n := WriteHeader(byteLen + 1, BIT_STRING, BitContent(src, bits), before);
    }

    /** The octets of a bit string: the last one first, its unused bits cleared. */
    method WriteOctets(src: seq<Byte>, bits: nat, len: nat, unusedBits: nat)
      requires Valid() && len == Octets(bits) <= |src| && unusedBits == Unused(bits) && p - start >= len
      modifies this, buf
      ensures Valid() && p == old(p) - len && Written() == BitOctets(src, bits) + old(Written())
      ensures buf[..start] == old(buf[..start])
    {
      hide Cleared;
      ghost var before := Written();
      if len > 0 {
        Prepend(Cleared(src[len - 1], unusedBits)); // the mask keeps all but the lowest unusedBits
        PrependBytes(src[..len - 1]);
        assert src[..len - 1] + ([Cleared(src[len - 1], unusedBits)] + before) == BitOctets(src, bits) + before;
      } else {
        assert BitOctets(src, bits) + before == before;
      }
    }

    /** The scan for the last bit that is set: a shifting copy of the current octet. */
    method TrimBits(src: seq<Byte>, bits0: nat) returns (bits: nat)
      requires Octets(bits0) <= |src|
      ensures bits == TrimmedBits(src, bits0)
    {
      hide TrimmedBits, BitOf, Pow2;
      bits := bits0;
      if bits != 0 {
        var byteLen := (bits + 7) / 8;
        var cur := byteLen - 1;
        var shifted: nat := src[cur] / Pow2(byteLen * 8 - bits);
        while true
          invariant 0 < bits <= bits0 && cur == (bits - 1) / 8 && TrimmedBits(src, bits) == TrimmedBits(src, bits0)
          invariant shifted == src[cur] / Pow2(7 - (bits - 1) % 8)
          decreases bits
        {
          TrimStep(src, bits, shifted);
          var bit := shifted % 2;
          shifted := shifted / 2;
          if bit != 0 {
            break;
          }
          bits := bits - 1;
          if bits == 0 {
            break;
          }
          if bits % 8 == 0 {
            cur := cur - 1;
            shifted := src[cur];
          }
        }
      } else {
        TrimNothing(src);
      }
    }

    /** mbedtls_asn1_write_named_bitstring. */
    method WriteNamedBitstring(src: seq<Byte>, bits: nat) returns (st: Status, n: nat)
      requires Valid() && Octets(bits) <= |src|
      modifies this, buf
      ensures Valid() && buf[..start] == old(buf[..start])
      ensures var content := BitContent(src, TrimmedBits(src, bits));
              st == (if old(p) - start < |content| then BufTooSmall
                     else if |content| > 0xFFFF_FFFF then InvalidLength
                     else if old(p) - start < |Tlv(0x03, content)| then BufTooSmall else Ok)
              && (st == Ok ==> n == |Tlv(0x03, content)| && Written() == Tlv(0x03, content) + old(Written()))
    {
      hide TrimmedBits, BitContent, LenBytes;
      var used := TrimBits(src, bits);
      st, n := WriteBitstring(src, used);
    }
  }

  /** Contents for a number of either sign: its magnitude, with a zero octet only for a positive one. */
  function MpiContent(s: int, v: nat): (c: seq<Byte>)
    ensures |c| >= 1
  {
    if s == 1 then IntContent(v) else Magnitude(v)
  }

  lemma BitLengthByte(v: nat)
    requires v >= 256
    ensures BitLength(v) == BitLength(v / 256) + 8
  {
    hide Pow2, BitLength;
    Words.Pow2Limb();
    BitLengthShift(v, v / 256, v % 256, 8);
  }

  lemma {:induction false} MagnitudeSize(v: nat)
    ensures |Magnitude(v)| == if v == 0 then 1 else (BitLength(v) + 7) / 8
    ensures BitLength(v) == 0 <==> v == 0
  {
    hide BitLength;
    if v < 256 {
      ByteLength(v);
    } else {
      MagnitudeSize(v / 256);
      BitLengthByte(v);
    }
  }

  lemma ByteLength(v: nat)
    requires v < 256
    ensures BitLength(v) <= 8 && (BitLength(v) == 0 <==> v == 0)
  {
    BitLengthBounds(v);
    Words.Pow2Limb();
    if BitLength(v) > 8 {
      Pow2Monotone(8, BitLength(v) - 1);
    }
  }

  lemma MagnitudeBound(v: nat)
    ensures v < Pow256(|Magnitude(v)|)
  {
    hide Magnitude, Pow256;
    MagnitudeValue(v);
    LeBound(Rev(Magnitude(v)));
  }

  lemma SameMagnitude(v: nat, bytes: seq<Byte>)
    requires BeVal(bytes) == v && |bytes| == |Magnitude(v)|
    ensures bytes == Magnitude(v)
  {
    hide Magnitude, BeVal;
    MagnitudeValue(v);
    BeInjective(bytes, Magnitude(v));
  }

  lemma SplitTail(b: seq<Byte>, p: nat, n: nat)
    requires p + n <= |b|
    ensures b[p..] == b[p..p + n] + b[p + n..]
  {
  }

  lemma TrimStep(src: seq<Byte>, bits: nat, shifted: nat)
    requires 0 < bits && Octets(bits) <= |src| && shifted == src[(bits - 1) / 8] / Pow2(7 - (bits - 1) % 8)
    ensures shifted % 2 == BitOf(src, bits - 1)
    ensures TrimmedBits(src, bits) == if shifted % 2 != 0 then bits else TrimmedBits(src, bits - 1)
    ensures bits - 1 > 0 && (bits - 1) % 8 != 0 ==>
              (bits - 2) / 8 == (bits - 1) / 8 && shifted / 2 == src[(bits - 2) / 8] / Pow2(7 - (bits - 2) % 8)
    ensures bits - 1 > 0 && (bits - 1) % 8 == 0 ==>
              (bits - 2) / 8 == (bits - 1) / 8 - 1 && Pow2(7 - (bits - 2) % 8) == 1
    ensures TrimmedBits(src, 0) == 0
  {
    hide Pow2;
    var k := bits - 1;
    Pow2Zero();
    if k > 0 && k % 8 != 0 {
      assert (k - 1) / 8 == k / 8 && (k - 1) % 8 == k % 8 - 1;
      Bits.DivDiv(src[k / 8], Pow2(7 - k % 8), 2);
      Pow2Step(7 - k % 8);
    } else if k > 0 {
      assert (k - 1) / 8 == k / 8 - 1 && (k - 1) % 8 == 7;
    }
  }

  lemma TrimNothing(src: seq<Byte>)
    ensures TrimmedBits(src, 0) == 0
  {
  }

  /** The octets of m are those of val, unless the loop is done, and then done. */
  ghost predicate DigitsLeft(m: seq<Byte>, val: int, again: bool, done: seq<Byte>) {
    m == (if again then Magnitude(Writer.WrittenInt(val)) else []) + done
  }

  lemma DigitsStart(m: seq<Byte>, val: int)
    requires m == Magnitude(Writer.WrittenInt(val))
    ensures DigitsLeft(m, val, true, [])
  {
  }

  lemma MagnitudeStep(val: int)
    ensures Magnitude(Writer.WrittenInt(val))
            == (if val / 256 > 0 then Magnitude(Writer.WrittenInt(val / 256)) else []) + [val % 256]
    ensures val > 0 ==> val / 256 < val
  {
  }

  lemma DigitsNext(m: seq<Byte>, val: int, done: seq<Byte>)
    requires DigitsLeft(m, val, true, done)
    ensures DigitsLeft(m, val / 256, val / 256 > 0, [val % 256] + done)
    ensures |m| > |done| && (val > 0 ==> val / 256 < val)
  {
    hide Magnitude;
    MagnitudeStep(val);
  }

  lemma DigitsEnd(m: seq<Byte>, val: int, done: seq<Byte>)
    requires DigitsLeft(m, val, false, done)
    ensures done == m
  {
  }

  lemma IntSize(v: nat)
    requires v <= 0xFFFF_FFFF
    ensures |Magnitude(v)| <= 4 && |IntContent(v)| <= 5
  {
    var a, b, c := v / 256, v / 256 / 256, v / 256 / 256 / 256;
    assert c < 256;
    assert |Magnitude(c)| == 1;
    assert |Magnitude(b)| <= 2;
    assert |Magnitude(a)| <= 3;
  }

  /** Only non-negative ints are written as themselves. */
  lemma WrittenAsItself(val: int)
    ensures BeVal(IntContent(Writer.WrittenInt(val))) == val <==> val >= 0
  {
    IntContentValue(Writer.WrittenInt(val));
  }

  /** A negative int leaves its low octet, with a zero in front if that has its top bit set. */
  lemma NegativeWritten(val: int)
    requires val < 0
    ensures IntContent(Writer.WrittenInt(val)) == if val % 256 >= 128 then [0, val % 256] else [val % 256]
  {
    assert Magnitude(val % 256) == [] + [val % 256];
  }

  /** The zero octet is there exactly for a positive sign and a set top bit; what follows is the shortest magnitude. */
  lemma ZeroOctet(s: int, v: nat)
    ensures var m, c := Magnitude(v), MpiContent(s, v);
            && c == (if s == 1 && m[0] >= 128 then [0] + m else m)
            && BeVal(m) == v && (m[0] == 0 ==> m == [0])
  {
    hide BeVal;
    MagnitudeValue(v);
  }
}
