/** DER written by asn1write.c and read back by asn1parse.c. */
module DerRoundTrip {
  import opened Bytes
  import opened Der
  import opened Asn1Write
  import opened Asn1Parse
  import Mpis

  /** The parser finds a written element at the front of a buffer, contents included. */
  lemma FrontElement(data: seq<Byte>, tag: Byte, content: seq<Byte>, after: seq<Byte>)
    requires |content| <= 0xFFFF_FFFF && data == Tlv(tag, content) + after
    ensures var h := ParseTag(data, tag);
            h.Header? && h.size + h.len == |Tlv(tag, content)| && data[h.size..h.size + h.len] == content
  {
    hide Tlv, ParseTag;
    TlvRoundTrip(tag, content, after);
  }

  /** An int comes back as itself exactly when it is not negative. */
  method IntWrittenAndRead(val: int, tag: Byte) returns (got: int)
    requires -0x8000_0000 <= val < 0x8000_0000
    ensures got == val <==> val >= 0
  {
    hide Tlv, ParseTag, IntContent, BeVal;
    var buf := new Byte[16];
    var w := new Writer(buf, 0);
    ghost var content := IntContent(Writer.WrittenInt(val));
    IntSize(Writer.WrittenInt(val));
    TlvSize(tag, content);
    var st, n := w.WriteTaggedInt(val, tag);
    IntContentValue(Writer.WrittenInt(val));
    WrittenAsItself(val);
    var r := new Reader(buf[w.p..]);
    assert r.data == Tlv(tag, content) + [];
    FrontElement(r.data, tag, content, []);
    assert r.data[r.p..|r.data|] == r.data;
    st, got := r.GetTaggedInt(|r.data|, tag);
    assert st == Ok && r.p == |r.data|;
  }

  lemma TlvSize(tag: Byte, content: seq<Byte>)
    requires |content| <= 5
    ensures |Tlv(tag, content)| == 2 + |content|
  {
  }

  /** A multi-precision integer comes back as its absolute value: as itself exactly when it is not negative. */
  method MpiWrittenAndRead(X: Mpis.Mpi, Y: Mpis.Mpi, buf: array<Byte>) returns (st: Status)
    requires X != Y
    modifies Y, buf
    ensures st == Ok ==> Y.Abs() == X.Abs() && (Y.Value() == X.Value() <==> X.Value() >= 0)
    ensures 8 + |Magnitude(X.Abs())| <= buf.Length && |Magnitude(X.Abs())| < 0xFFFF_FFFF ==> st == Ok
  {
    hide Tlv, ParseTag, IntContent, BeVal, Magnitude, Words.Val;
    ghost var content := MpiContent(X.s, X.Abs());
    MpiContentFacts(X.s, X.Abs());
    if |content| <= 0xFFFF_FFFF {
      TlvBound(INTEGER, content);
    }
    var w := new Writer(buf, 0);
    var n;
    st, n := w.WriteMpi(X);
    if st != Ok {
      return;
    }
    var r := new Reader(buf[w.p..]);
    ghost var after := r.data[|Tlv(INTEGER, content)|..];
    assert r.data == Tlv(INTEGER, content) + after;
    FrontElement(r.data, INTEGER, content, after);
    assert r.data[r.p..|r.data|] == r.data;
    st := r.GetMpi(|r.data|, Y);
    SameSign(X.s, X.Abs());
  }

  lemma SameSign(s: Mpis.Sign, v: nat)
    ensures 1 * v == s * v <==> s * v >= 0
  {
  }

  lemma TlvBound(tag: Byte, content: seq<Byte>)
    requires |content| <= 0xFFFF_FFFF
    ensures |Tlv(tag, content)| <= 6 + |content|
  {
  }

  lemma MpiContentFacts(s: int, v: nat)
    ensures BeVal(MpiContent(s, v)) == v && |MpiContent(s, v)| <= |Magnitude(v)| + 1
  {
    hide BeVal, Magnitude;
    IntContentValue(v);
    MagnitudeValue(v);
  }

  /** A named bit string comes back without its zeros at the end, bit for bit. */
  method NamedBitsWrittenAndRead(src: seq<Byte>, bits: nat, buf: array<Byte>) returns (st: Status, bs: BitString, data: seq<Byte>)
    requires Octets(bits) <= |src|
    modifies buf
    ensures st == Ok ==> bs.p + bs.len == |data| && bs.unusedBits <= 7 && 8 * bs.len - bs.unusedBits == TrimmedBits(src, bits)
    ensures st == Ok ==> forall i :: 0 <= i < 8 * bs.len ==>
                           BitOf(data[bs.p..], i) == if i < TrimmedBits(src, bits) then BitOf(src, i) else 0
    ensures Octets(bits) + 8 <= buf.Length && Octets(bits) < 0xFFFF_FFFF ==> st == Ok
  {
    hide Tlv, ParseTag, BitOctets, BitOf, TrimmedBits;
    bs, data := BitString(0, 0, 0), [];
    ghost var used := TrimmedBits(src, bits);
    ghost var content := BitContent(src, used);
    FewerOctets(used, bits);
    if |content| <= 0xFFFF_FFFF {
      TlvBound(BIT_STRING, content);
    }
    var w := new Writer(buf, 0);
    var n;
    st, n := w.WriteNamedBitstring(src, bits);
    if st != Ok {
      return;
    }
    data := buf[w.p..];
    assert data == Tlv(BIT_STRING, content) + [];
    FrontElement(data, BIT_STRING, content, []);
    var r := new Reader(data);
    assert data[0..|data|] == data;
    st, bs := r.GetBitstring(|data|);
    assert data[bs.p..] == BitOctets(src, used) by {
      assert data[bs.p..] == content[1..];
    }
    forall i | 0 <= i < 8 * bs.len
      ensures BitOf(data[bs.p..], i) == if i < used then BitOf(src, i) else 0
    {
      BitOctetsHold(src, used, i);
    }
  }

  lemma FewerOctets(a: nat, b: nat)
    requires a <= b
    ensures Octets(a) <= Octets(b) && 8 * Octets(a) - Unused(a) == a
  {
  }

  /** A SEQUENCE OF written element by element, from the last, and split again: the same contents in order. */
  method SequenceWrittenAndRead(tag: Byte, contents: seq<seq<Byte>>, buf: array<Byte>)
    returns (st: Status, data: seq<Byte>, stop: nat, list: Builder?)
    requires forall c :: c in contents ==> |c| <= 0xFFFF_FFFF
    modifies buf
    ensures st == Ok ==> list != null && fresh(list) && list.Valid() && PointAt(data, list.elems, tag, contents)
    ensures st == Ok ==> |WrittenElems(tag, contents)| <= 0xFFFF_FFFF && data == Tlv(0x30, WrittenElems(tag, contents)) && stop == |data|
    ensures |WrittenElems(tag, contents)| <= 0xFFFF_FFFF && 6 + |WrittenElems(tag, contents)| <= buf.Length ==> st == Ok
  {
    hide Tlv, WrittenElems, ParseTag, PointAt, ParseElems, LenBytes, Builder.Valid;
    data, stop, list := [], 0, null;
    var w := new Writer(buf, 0);
    var total;
    st, total := WriteElems(w, tag, contents);
    if st != Ok {
      return;
    }
    ghost var body := WrittenElems(tag, contents);
    assert body + [] == body;
    var n;
    if |body| <= 0xFFFF_FFFF {
      TlvBound(SEQUENCE_TAG, body);
    }
    st, n := w.WriteHeader(total, SEQUENCE_TAG, body, []);
    if st != Ok {
      return;
    }
    data := buf[w.p..];
    assert data == Tlv(SEQUENCE_TAG, body) + [];
    FrontElement(data, SEQUENCE_TAG, body, []);
    ghost var h := ParseTag(data, SEQUENCE_TAG);
    ElemsRoundTrip(data, h.size, |data|, tag, contents);
    var r := new Reader(data);
    var head := new Node();
    assert data[0..|data|] == data;
    st, list := GetSequenceOf(r, |data|, head, tag);
    stop := r.p;
  }

  method WriteElems(w: Writer, tag: Byte, contents: seq<seq<Byte>>) returns (st: Status, total: nat)
    requires w.Valid() && w.p == w.buf.Length && forall c :: c in contents ==> |c| <= 0xFFFF_FFFF
    modifies w, w.buf
    ensures w.Valid() && (st == Ok ==> w.Written() == WrittenElems(tag, contents) && total == |WrittenElems(tag, contents)|)
    ensures |WrittenElems(tag, contents)| <= old(w.p) - w.start ==> st == Ok
  {
    hide Tlv, WrittenElems;
    NothingWritten(tag, []);
    total := 0;
    var i := |contents|;
    assert contents[i..] == [];
    while i > 0
      invariant 0 <= i <= |contents| && w.Valid()
      invariant w.Written() == WrittenElems(tag, contents[i..]) && total == |w.Written()|
    {
      i := i - 1;
      var c := contents[i];
      WrittenFirst(tag, contents[i..]);
      SuffixShorter(tag, contents, i);
      assert |Tlv(tag, c)| >= |c|;
      if w.p - w.start < |c| {
        return BufTooSmall, total;
      }
      ghost var before := w.Written();
      assert contents[i..][1..] == contents[i + 1..];
      w.PrependBytes(c);
      var n;
      st, n := w.WriteHeader(|c|, tag, c, before);
      if st != Ok {
        return;
      }
      total := total + n;
    }
    assert contents[0..] == contents;
    st := Ok;
  }

  lemma NothingWritten(tag: Byte, contents: seq<seq<Byte>>)
    requires contents == []
    ensures WrittenElems(tag, contents) == []
  {
  }

  lemma {:induction false} SuffixShorter(tag: Byte, contents: seq<seq<Byte>>, i: nat)
    requires i <= |contents| && forall c :: c in contents ==> |c| <= 0xFFFF_FFFF
    ensures |WrittenElems(tag, contents[i..])| <= |WrittenElems(tag, contents)|
    decreases i
  {
    hide WrittenElems, Tlv;
    if i == 0 {
      assert contents[0..] == contents;
    } else {
      assert contents[i - 1..][1..] == contents[i..];
      WrittenFirst(tag, contents[i - 1..]);
      SuffixShorter(tag, contents, i - 1);
    }
  }
}
