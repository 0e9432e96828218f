/** The DER parser (asn1parse.c): a cursor over a byte string. */
module Asn1Parse {
  import Arith
  import opened Bytes
  import CoreBytes
  import opened Der
  import Mpis
  import MpiAddSub

  /** mbedtls_asn1_bitstring. */
  datatype BitString = BitString(len: nat, unusedBits: nat, p: nat)

  lemma SliceOfSlice(d: seq<Byte>, p: nat, end: nat, k: nat)
    requires p + k + 1 <= end <= |d|
    ensures d[p..end][1..k + 1] == d[p + 1..p + 1 + k]
  {
    var s, x, y := d[p..end], d[p..end][1..k + 1], d[p + 1..p + 1 + k];
    forall i | 0 <= i < k ensures x[i] == y[i] {
      assert x[i] == s[1 + i] == d[p + (1 + i)];
    }
  }

  class Reader {
    const data: seq<Byte>
    var p: nat

    constructor (d: seq<Byte>)
      ensures data == d && p == 0
    {
      data, p := d, 0;
    }

    /** mbedtls_asn1_get_len. */
    method GetLen(end: nat) returns (st: Status, len: nat)
      requires p <= end <= |data|
      modifies this
      ensures p <= end
      ensures var h := ParseLen(data[old(p)..end]);
              if h.Header? then st == Ok && len == h.len && p == old(p) + h.size else st == h.error
    {
      hide BeVal;
      ghost var s := data[p..end];
      len := 0;
      if end - p < 1 {
        return OutOfData, len;
      }
      if data[p] < 0x80 {
        len := data[p];
        p := p + 1;
      } else {
        var k: nat := data[p] - 0x80;
        if !(1 <= k <= 4) {
          return InvalidLength, len;
        }
        if end - p < k + 1 {
          return OutOfData, len;
        }
        SliceOfSlice(data, p, end, k);
        len := LengthOctets(p + 1, k);
        p := p + k + 1;
      }
      if len > end - p {
        return OutOfData, len;
      }
      st := Ok;
    }

    /** The four cases of the switch. */
    method LengthOctets(at: nat, k: nat) returns (len: nat)
      requires 1 <= k <= 4 && at + k <= |data|
      ensures len == BeVal(data[at..at + k])
    {
      hide BeVal;
      ghost var s := data[at..at + k];
      BeFour(s);
      if k == 1 {
        BeOne(s);
        len := data[at];
      } else if k == 2 {
        len := data[at] as int * 0x100 + data[at + 1];
      } else if k == 3 {
        len := data[at] as int * 0x1_0000 + data[at + 1] as int * 0x100 + data[at + 2];
      } else {
        len := data[at] as int * 0x100_0000 + data[at + 1] as int * 0x1_0000 + data[at + 2] as int * 0x100 + data[at + 3];
      }
    }

    /** mbedtls_asn1_get_tag. */
    method GetTag(end: nat, tag: Byte) returns (st: Status, len: nat)
      requires p <= end <= |data|
      modifies this
      ensures p <= end
      ensures var h := ParseTag(data[old(p)..end], tag);
              if h.Header? then st == Ok && len == h.len && p == old(p) + h.size else st == h.error
    {
      hide ParseLen;
      if end - p < 1 {
        return OutOfData, 0;
      }
      if data[p] != tag {
        return UnexpectedTag, 0;
      }
      assert data[p..end][1..] == data[p + 1..end];
      p := p + 1;
      st, len := GetLen(end);
    }

    // ---- Integers ------------------------------------------------------------------------

    /** Leading zero octets are skipped. */
    method SkipZeros(len0: nat) returns (len: nat)
      requires p + len0 <= |data|
      modifies this
      ensures len <= len0 && p == old(p) + (len0 - len) && (len > 0 ==> data[p] != 0)
      ensures BeVal(data[p..p + len]) == BeVal(data[old(p)..old(p) + len0])
    {
      hide BeVal;
      len := len0;
      ghost var s := data[p..p + len0];
      while len > 0 && data[p] == 0
        invariant len <= len0 && p == old(p) + (len0 - len)
        invariant forall i :: 0 <= i < len0 - len ==> s[i] == 0
      {
        assert s[len0 - len] == data[p];
        p := p + 1;
        len := len - 1;
      }
      BeValZeros(s, len0 - len);
      assert s[len0 - len..] == data[p..p + len];
    }

    /** *val = (*val << 8) | **p, len times. */
    method Gather(len: nat) returns (val: nat)
      requires p + len <= |data| && len <= 4 && BeVal(data[p..p + len]) < 0x8000_0000
      modifies this
      ensures val == BeVal(data[old(p)..old(p) + len]) && p == old(p) + len
    {
      hide BeVal;
      ghost var q, s := p, data[p..p + len];
      val := 0;
      BeValEmpty();
      assert s[..0] == [];
      for i := 0 to len
        invariant p == q + i && val == BeVal(s[..i])
      {
        BeMore(s[..i + 1]);
        assert s[..i + 1][..i] == s[..i];
        val := val * 0x100 + data[p]; // the low octet is clear, so | is +
        p := p + 1;
      }
      assert s[..len] == s;
    }

    /** asn1_get_tagged_int. */
    method GetTaggedInt(end: nat, tag: Byte) returns (st: Status, val: int)
      requires p <= end <= |data|
      modifies this
      ensures p <= end
      ensures var h := ParseTag(data[old(p)..end], tag);
              if h.NoHeader? then st == h.error
              else var content := data[old(p) + h.size..old(p) + h.size + h.len];
                   (st == if content != [] && content[0] < 0x80 && BeVal(content) < 0x8000_0000 then Ok else InvalidLength)
                   && (st == Ok ==> val == BeVal(content) && p == old(p) + h.size + h.len)
    {
      hide BeVal, ParseTag;
      var len;
      st, len := GetTag(end, tag);
      if st != Ok {
        return st, 0;
      }
      ghost var content := data[p..p + len];
      if len == 0 {
        return InvalidLength, 0;
      }
      if data[p] >= 0x80 {
        return InvalidLength, 0;
      }
      len := SkipZeros(len);
      IntFits(data[p..p + len]);
      if len > 4 {
        return InvalidLength, 0;
      }
      if len == 4 && data[p] >= 0x80 {
        return InvalidLength, 0;
      }
      val := Gather(len);
      st := Ok;
    }

    /** mbedtls_asn1_get_mpi. The octets are read as a non-negative number whatever their first bit. */
    method GetMpi(end: nat, X: Mpis.Mpi) returns (st: Status)
      requires p <= end <= |data|
      modifies this, X
      ensures p <= end
      ensures var h := ParseTag(data[old(p)..end], 0x02);
              if h.NoHeader? then st == h.error
              else st == Ok && p == old(p) + h.size + h.len && X.s == 1
                   && X.Abs() == BeVal(data[old(p) + h.size..old(p) + h.size + h.len])
    {
      hide BeVal, ParseTag, Words.Val;
      var len;
      st, len := GetTag(end, INTEGER);
      if st != Ok {
        return;
      }
      ReadBinary(X, data[p..p + len]);
      p := p + len;
    }

    // ---- Bit strings -----------------------------------------------------------------------

    /** mbedtls_asn1_get_bitstring. */
    method GetBitstring(end: nat) returns (st: Status, bs: BitString)
      requires p <= end <= |data|
      modifies this
      ensures p <= end
      ensures var h := ParseTag(data[old(p)..end], 0x03);
              if h.NoHeader? then st == h.error
              else var content := data[old(p) + h.size..old(p) + h.size + h.len];
                   (st == if content == [] then OutOfData else if content[0] > 7 then InvalidLength
                          else if old(p) + h.size + h.len != end then LengthMismatch else Ok)
                   && (st == Ok ==> bs == BitString(h.len - 1, content[0], old(p) + h.size + 1) && p == end)
    {
      hide ParseTag;
      bs := BitString(0, 0, 0);
      var len;
      st, len := GetTag(end, BIT_STRING);
      if st != Ok {
        return;
      }
      if len < 1 {
        return OutOfData, bs;
      }
      len := len - 1;
      var unusedBits: nat := data[p];
      if unusedBits > 7 {
        return InvalidLength, bs;
      }
      p := p + 1;
      bs := BitString(len, unusedBits, p);
      p := p + len;
      if p != end {
        return LengthMismatch, bs;
      }
      st := Ok;
    }
  }

  /** After the zeros are gone, the length and the first octet tell whether the number fits an int. */
  lemma IntFits(s: seq<Byte>)
    requires s != [] ==> s[0] != 0
    ensures BeVal(s) < 0x8000_0000 <==> |s| < 4 || (|s| == 4 && s[0] < 0x80)
  {
    hide BeVal, Pow256;
    FourBytes();
    if s == [] {
      BeValEmpty();
    } else {
      BeBounds(s);
      if |s| > 4 {
        Pow256Monotone(4, |s| - 1);
        Arith.MulMono(1, s[0], Pow256(|s| - 1));
      } else if |s| < 4 {
        Pow256Monotone(|s| - 1, 2);
        Arith.MulMono(s[0] as int + 1, 256, Pow256(|s| - 1));
      }
    }
  }

  /** mbedtls_mpi_read_binary: X gets exactly the limbs the octets need. */
  method ReadBinary(X: Mpis.Mpi, buf: seq<Byte>)
    modifies X
    ensures X.s == 1 && X.Abs() == BeVal(buf) && |X.p| == CoreBytes.CharsToLimbs(|buf|)
  {
    hide BeVal, Words.Val;
    var limbs := CoreBytes.CharsToLimbs(|buf|);
    X.s := 1;
    X.p := Mpis.Zeros(limbs);
    var xs := MpiAddSub.ToArray(X.p);
    var ok := CoreBytes.ReadBe(xs, limbs, buf);
    assert xs[..limbs] == xs[..];
    X.p := xs[..];
  }

  // ---- SEQUENCE OF ----------------------------------------------------------------------------

  /** An element: its tag, and where its contents are. */
  datatype Elem = Elem(tag: Byte, start: nat, len: nat)

  datatype Elems = Good(elems: seq<Elem>) | Bad(error: Status)

  /** The elements that fill d[p..end] exactly, all with a tag that agrees with must under the mask. */
  function ParseElems(d: seq<Byte>, p: nat, end: nat, mask: Byte, must: Byte): Elems
    requires p <= end <= |d|
    decreases end - p
  {
    if p == end then Good([])
    else if And8(d[p], mask) != must then Bad(UnexpectedTag)
    else
      var h := ParseLen(d[p + 1..end]);
      if h.NoHeader? then Bad(h.error)
      else
        var start := p + 1 + h.size;
        var rest := ParseElems(d, start + h.len, end, mask, must);
        if rest.Good? then Good([Elem(d[p], start, h.len)] + rest.elems) else rest
  }

  /** The elements a second mask selects for the callback. */
  function Chosen(es: seq<Elem>, mask: Byte, may: Byte): seq<Elem> {
    if es == [] then [] else (if And8(es[0].tag, mask) == may then [es[0]] else []) + Chosen(es[1..], mask, may)
  }

  datatype Pointer = Null | At(index: nat)

  /** mbedtls_asn1_sequence. */
  class Node {
    var tag: Byte
    var len: nat
    var p: Pointer
    var next: Node?

    constructor ()
      ensures p == Null && next == null
    {
      tag, len, p, next := 0, 0, Null, null;
    }

    ghost predicate Is(e: Elem)
      reads this
    {
      tag == e.tag && len == e.len && p == At(e.start)
    }
  }

  /** asn1_get_sequence_of_cb_ctx_t: the node that was filled last. */
  class Builder {
    var cur: Node
    ghost var nodes: seq<Node>
    ghost var elems: seq<Elem>

    constructor (head: Node)
      requires head.p == Null && head.next == null
      ensures Valid() && nodes == [head] && elems == []
    {
      cur, nodes, elems := head, [head], [];
    }

    /** The list from nodes[0] holds elems in order; an unused head stands for the empty list. */
    ghost predicate Valid()
      reads this, nodes
    {
      && nodes != [] && cur == nodes[|nodes| - 1] && cur.next == null
      && (forall i, j :: 0 <= i < j < |nodes| ==> nodes[i] != nodes[j])
      && (forall i :: 0 <= i < |nodes| - 1 ==> nodes[i].next == nodes[i + 1])
      && if elems == [] then |nodes| == 1 && cur.p == Null
         else |nodes| == |elems| && forall i :: 0 <= i < |nodes| ==> nodes[i].Is(elems[i])
    }

    lemma InList()
      requires Valid()
      ensures nodes != [] && cur in nodes
    {
    }

    /** asn1_get_sequence_of_cb. */
    method Append(e: Elem)
      requires Valid()
      modifies this, cur
      ensures Valid() && elems == old(elems) + [e] && nodes[0] == old(nodes[0])
      ensures forall i :: 0 <= i < |nodes| ==> nodes[i] in old(nodes) || fresh(nodes[i])
    {
      var c := cur;
      if c.p != Null {
        c.next := new Node();
        c := c.next;
        nodes := nodes + [c];
      }
      c.p := At(e.start);
      c.len := e.len;
      c.tag := e.tag;
      cur := c;
      elems := elems + [e];
    }
  }

  /** mbedtls_asn1_traverse_sequence_of, with the callback that builds the list. */
  method Traverse(r: Reader, end: nat, mustMask: Byte, mustVal: Byte, mayMask: Byte, mayVal: Byte, list: Builder) returns (st: Status)
    requires r.p <= end <= |r.data| && list.Valid() && list.elems == []
    modifies r, list, list.nodes
    ensures r.p <= end && list.Valid() && list.nodes[0] == old(list.nodes[0])
    ensures var h := ParseTag(r.data[old(r.p)..end], 0x30);
            if h.NoHeader? then st == h.error
            else if old(r.p) + h.size + h.len != end then st == LengthMismatch
            else var es := ParseElems(r.data, old(r.p) + h.size, end, mustMask, mustVal);
                 if es.Bad? then st == es.error
                 else st == Ok && r.p == end && list.elems == Chosen(es.elems, mayMask, mayVal)
  {
    hide ParseTag, ParseLen, And8, Builder.Valid;
    var len;
    st, len := r.GetTag(end, SEQUENCE_TAG);
    if st != Ok {
      return;
    }
    if r.p + len != end {
      return LengthMismatch;
    }
    ghost var start, d := r.p, r.data;
    ghost var all, done := ParseElems(d, start, end, mustMask, mustVal), [];
    ParseStart(all);
    list.InList();
    while r.p < end
      invariant r.p <= end && list.Valid() && list.nodes != [] && list.nodes[0] == old(list.nodes[0])
      invariant forall i :: 0 <= i < |list.nodes| ==> list.nodes[i] in old(list.nodes) || fresh(list.nodes[i])
      invariant Progress(all, done, ParseElems(d, r.p, end, mustMask, mustVal)) && list.elems == Chosen(done, mayMask, mayVal)
      decreases end - r.p
    {
      ghost var p := r.p;
      var tag := r.data[r.p];
      r.p := r.p + 1;
      if And8(tag, mustMask) != mustVal {
        return UnexpectedTag;
      }
      st, len := r.GetLen(end);
      if st != Ok {
        return;
      }
      var e := Elem(tag, r.p, len);
      ChosenSnoc(done, e, mayMask, mayVal);
      ProgressStep(all, done, d, p, end, mustMask, mustVal, e);
      done := done + [e];
      if And8(tag, mayMask) == mayVal {
        list.InList();
        list.Append(e);
        list.InList();
      }
      r.p := r.p + len;
    }
    ProgressEnd(all, done, d, end, mustMask, mustVal);
    st := Ok;
  }

  /** What is parsed already and what the rest gives make up the whole. */
  ghost predicate Progress(all: Elems, done: seq<Elem>, rest: Elems) {
    if rest.Good? then all == Good(done + rest.elems) else all == rest
  }

  lemma ParseStart(all: Elems)
    ensures Progress(all, [], all)
  {
  }

  lemma ProgressStep(all: Elems, done: seq<Elem>, d: seq<Byte>, p: nat, end: nat, mask: Byte, must: Byte, e: Elem)
    requires p < end <= |d| && Progress(all, done, ParseElems(d, p, end, mask, must)) && And8(d[p], mask) == must
    requires var h := ParseLen(d[p + 1..end]); h.Header? && e == Elem(d[p], p + 1 + h.size, h.len)
    ensures e.start + e.len <= end && Progress(all, done + [e], ParseElems(d, e.start + e.len, end, mask, must))
  {
    hide ParseLen, And8;
  }

  lemma ProgressEnd(all: Elems, done: seq<Elem>, d: seq<Byte>, end: nat, mask: Byte, must: Byte)
    requires end <= |d| && Progress(all, done, ParseElems(d, end, end, mask, must))
    ensures all == Good(done)
  {
    assert done + [] == done;
  }

  lemma {:induction false} ChosenSnoc(es: seq<Elem>, e: Elem, mask: Byte, may: Byte)
    ensures Chosen(es + [e], mask, may) == Chosen(es, mask, may) + if And8(e.tag, mask) == may then [e] else []
  {
    hide And8;
    if es == [] {
      assert es + [e] == [e] && [e][1..] == [];
    } else {
      ChosenSnoc(es[1..], e, mask, may);
      assert (es + [e])[1..] == es[1..] + [e];
    }
  }

  lemma {:induction false} ChosenAll(es: seq<Elem>)
    ensures Chosen(es, 0, 0) == es
  {
    if es != [] {
      AndMask(es[0].tag);
      ChosenAll(es[1..]);
    }
  }

  /** mbedtls_asn1_get_sequence_of. The list starts at cur. */
  method GetSequenceOf(r: Reader, end: nat, cur: Node, tag: Byte) returns (st: Status, list: Builder)
    requires r.p <= end <= |r.data|
    modifies r, cur
    ensures r.p <= end && fresh(list) && list.Valid() && list.nodes[0] == cur
    ensures var h := ParseTag(r.data[old(r.p)..end], 0x30);
            if h.NoHeader? then st == h.error
            else if old(r.p) + h.size + h.len != end then st == LengthMismatch
            else var es := ParseElems(r.data, old(r.p) + h.size, end, 0xFF, tag);
                 if es.Bad? then st == es.error else st == Ok && r.p == end && list.elems == es.elems
  {
    hide ParseTag, ParseElems, Chosen;
    cur.tag, cur.len, cur.p, cur.next := 0, 0, Null, null;
    list := new Builder(cur);
    ghost var h := ParseTag(r.data[r.p..end], SEQUENCE_TAG);
    ghost var p := r.p;
    st := Traverse(r, end, 0xFF, tag, 0, 0, list);
    if h.Header? && p + h.size + h.len == end {
      ghost var es := ParseElems(r.data, p + h.size, end, 0xFF, tag);
      if es.Good? {
        ChosenAll(es.elems);
      }
    }
  }

  // ---- What was written, read back ---------------------------------------------------------------

  /** Elements with one tag, one after the other. */
  function WrittenElems(tag: Byte, contents: seq<seq<Byte>>): (s: seq<Byte>)
    requires forall c :: c in contents ==> |c| <= 0xFFFF_FFFF
  {
    if contents == [] then [] else Tlv(tag, contents[0]) + WrittenElems(tag, contents[1..])
  }

  /** The contents the elements point at. */
  ghost predicate PointAt(d: seq<Byte>, es: seq<Elem>, tag: Byte, contents: seq<seq<Byte>>) {
    && |es| == |contents|
    && forall i :: 0 <= i < |es| ==> es[i].tag == tag && es[i].start + es[i].len <= |d| && d[es[i].start..es[i].start + es[i].len] == contents[i]
  }

  lemma PointAtCons(d: seq<Byte>, e: Elem, es: seq<Elem>, tag: Byte, contents: seq<seq<Byte>>)
    requires contents != [] && PointAt(d, es, tag, contents[1..])
    requires e.tag == tag && e.start + e.len <= |d| && d[e.start..e.start + e.len] == contents[0]
    ensures PointAt(d, [e] + es, tag, contents)
  {
    var all := [e] + es;
    forall i | 0 <= i < |all|
      ensures all[i].tag == tag && all[i].start + all[i].len <= |d| && d[all[i].start..all[i].start + all[i].len] == contents[i]
    {
      if i > 0 {
        assert all[i] == es[i - 1] && contents[i] == contents[1..][i - 1];
      }
    }
  }

  /** Written elements are found in order, each with its contents, up to exactly the end. */
  lemma {:induction false} ElemsRoundTrip(d: seq<Byte>, p: nat, end: nat, tag: Byte, contents: seq<seq<Byte>>)
    requires p <= end <= |d| && (forall c :: c in contents ==> |c| <= 0xFFFF_FFFF) && d[p..end] == WrittenElems(tag, contents)
    ensures var es := ParseElems(d, p, end, 0xFF, tag);
            es.Good? && PointAt(d, es.elems, tag, contents)
    decreases |contents|
  {
    hide Tlv, ParseLen, LenBytes, And8, PointAt, WrittenElems, ParseElems;
    if contents == [] {
      NoElems(d, p, end, tag);
    } else {
      var c := contents[0];
      WrittenFirst(tag, contents);
      var start := FirstAt(d, p, end, tag, c, WrittenElems(tag, contents[1..]));
      ElemsRoundTrip(d, start + |c|, end, tag, contents[1..]);
      var es := ParseElems(d, start + |c|, end, 0xFF, tag);
      PointAtCons(d, Elem(tag, start, |c|), es.elems, tag, contents);
    }
  }

  lemma NoElems(d: seq<Byte>, p: nat, end: nat, tag: Byte)
    requires p <= end <= |d| && d[p..end] == WrittenElems(tag, [])
    ensures ParseElems(d, p, end, 0xFF, tag) == Good([]) && PointAt(d, [], tag, [])
  {
  }

  lemma WrittenFirst(tag: Byte, contents: seq<seq<Byte>>)
    requires contents != [] && forall c :: c in contents ==> |c| <= 0xFFFF_FFFF
    ensures WrittenElems(tag, contents) == Tlv(tag, contents[0]) + WrittenElems(tag, contents[1..])
  {
  }

  /** The first element of a written string, found by the parser. */
  lemma FirstAt(d: seq<Byte>, p: nat, end: nat, tag: Byte, c: seq<Byte>, rest: seq<Byte>) returns (start: nat)
    requires p <= end <= |d| && |c| <= 0xFFFF_FFFF && d[p..end] == Tlv(tag, c) + rest
    ensures start + |c| <= end && d[start..start + |c|] == c && d[start + |c|..end] == rest
    ensures var es := ParseElems(d, start + |c|, end, 0xFF, tag);
            ParseElems(d, p, end, 0xFF, tag) == if es.Good? then Good([Elem(tag, start, |c|)] + es.elems) else es
  {
    hide Tlv, ParseLen, LenBytes, And8;
    AndMask(tag);
    FirstElem(d[p..end], tag, c, rest);
    SliceTail(d, p, end, 1);
    var h := ParseLen(d[p + 1..end]);
    start := p + 1 + h.size;
    SliceAt(d, p, end, 1 + h.size, h.len);
    SliceTail(d, p, end, |Tlv(tag, c)|);
    assert (Tlv(tag, c) + rest)[|Tlv(tag, c)|..] == rest;
  }

  lemma SliceTail(d: seq<Byte>, p: nat, end: nat, a: nat)
    requires p + a <= end <= |d|
    ensures d[p..end][a..] == d[p + a..end]
  {
  }

  lemma SliceAt(d: seq<Byte>, p: nat, end: nat, a: nat, n: nat)
    requires p <= end <= |d| && a + n <= end - p
    ensures d[p..end][a..a + n] == d[p + a..p + a + n]
  {
    var s, x, y := d[p..end], d[p..end][a..a + n], d[p + a..p + a + n];
    forall i | 0 <= i < n ensures x[i] == y[i] {
      assert x[i] == s[a + i] == d[p + (a + i)];
    }
  }

  lemma FirstElem(s: seq<Byte>, tag: Byte, c: seq<Byte>, rest: seq<Byte>)
    requires |c| <= 0xFFFF_FFFF && s == Tlv(tag, c) + rest
    ensures s[0] == tag && ParseLen(s[1..]).Header?
    ensures var h := ParseLen(s[1..]); h.len == |c| && 1 + h.size + h.len == |Tlv(tag, c)| && s[1 + h.size..1 + h.size + h.len] == c
  {
    hide ParseLen, LenBytes;
    LenRoundTrip(|c|, c + rest);
    assert s[1..] == LenBytes(|c|) + (c + rest);
  }
}
