/** The response header builder of the server (src/http_parser.c) and its sender (src/http.c). */
module HttpResponse {
  import opened Utility
  import Arith

  const HTTP_BODY_FIELD_LIMIT := 128
  const SIZEOF_HEADER_DELIMINATIONS := 7
  const MAX_CHUNK_SIZE := 8192
  const NETWORK_ERROR := -1

  /** A C string without its terminator. */
  type CString = s: string | '\0' !in s

  datatype StatusLine = Unset | Line(version: CString, code: CString, status: CString)

  /** What a HttpResponseHeader holds; capacity is the number of slots of its body array. */
  datatype Header = Header(line: StatusLine, fields: seq<CString>, capacity: nat, total: int)

  // ---- What is sent, and how long it is ---------------------------------------------------------

  function LineText(line: StatusLine): CString {
    if line.Unset? then "" else line.version + " " + line.code + " " + line.status + "\r\n"
  }

  function Joined(fields: seq<CString>): CString {
    if fields == [] then "" else Joined(fields[..|fields| - 1]) + fields[|fields| - 1]
  }

  /** The header as it goes out: status line, fields, blank line. */
  function Text(h: Header): CString {
    LineText(h.line) + Joined(h.fields) + "\r\n"
  }

  /** Where field i starts, when the fields follow each other from at on. */
  function FieldAt(fields: seq<CString>, at: nat, i: nat): nat
    requires i <= |fields|
  {
    if i == 0 then at else FieldAt(fields, at, i - 1) + |fields[i - 1]|
  }

  ghost predicate PartAt(buf: seq<char>, at: nat, part: string) {
    at + |part| <= |buf| && buf[at..at + |part|] == part
  }

  /** A response cut back into its parts: version, code and status with spaces between and a line end behind them, the
      fields one after the other, a line end and the terminator. */
  ghost predicate Shows(buf: seq<char>, version: string, code: string, status: string, fields: seq<CString>) {
    var c := |version| + 1;
    var s := c + |code| + 1;
    var f := s + |status| + 2;
    var e := FieldAt(fields, f, |fields|);
    && PartAt(buf, 0, version) && PartAt(buf, c - 1, " ") && PartAt(buf, c, code) && PartAt(buf, s - 1, " ")
    && PartAt(buf, s, status) && PartAt(buf, f - 2, "\r\n")
    && (forall i :: 0 <= i < |fields| ==> PartAt(buf, FieldAt(fields, f, i), fields[i]))
    && PartAt(buf, e, "\r\n") && PartAt(buf, e + 2, "\0")
  }

  /** The bytes to account for: the text and its terminator, or only the fields without a status line. */
  function Written(h: Header): nat {
    if h.line.Unset? then |Joined(h.fields)| else |Text(h)| + 1
  }

  // ---- Sizes in size_t and int --------------------------------------------------------------------

  /** Conversion to a 32-bit int. */
  function AsInt(x: int): (r: int)
    ensures -0x8000_0000 <= r < 0x8000_0000 && (-0x8000_0000 <= x < 0x8000_0000 ==> r == x)
  {
    (x + 0x8000_0000) % 0x1_0000_0000 - 0x8000_0000
  }

  /** Conversion to a 64-bit size_t. */
  function AsSize(x: int): nat {
    x % 0x1_0000_0000_0000_0000
  }

  /** An int to which a size is added with the wrap-around of size_t keeps its value modulo 2^32. */
  lemma AddedSize(total: int, e: int, x: int)
    requires total == AsInt(x)
    ensures AsInt(AsSize(AsSize(total) + AsSize(e))) == AsInt(x + e)
  {
    var w, v := 0x1_0000_0000_0000_0000, 0x1_0000_0000;
    var a, b, c := total / w, e / w, (AsSize(total) + AsSize(e)) / w;
    var d := (x + 0x8000_0000) / v;
    var y := AsSize(AsSize(total) + AsSize(e));
    assert y == x + e - d * v - (a + b + c) * w;
    SameInt(y, x + e, -d - (a + b + c) * v);
  }

  lemma SameInt(y: int, x: int, k: int)
    requires y == x + k * 0x1_0000_0000
    ensures AsInt(y) == AsInt(x)
  {
    var v := 0x1_0000_0000;
    Arith.DivUnique(y + 0x8000_0000, v, (x + 0x8000_0000) / v + k, (x + 0x8000_0000) % v);
  }

  // ---- One call -------------------------------------------------------------------------------------

  /** The key of a property: everything up to and including its first space. */
  predicate HasKey(p: CString)
    requires |p| <= INT_MAX
  {
    GetKeywordIndex(p, " ") != OTHER_ERROR
  }

  function Key(p: CString): CString
    requires |p| <= INT_MAX && HasKey(p)
  {
    p[..GetKeywordIndex(p, " ")]
  }

  predicate Contains(field: CString, key: CString) {
    Strstr(field, key) != -1
  }

  /** The first field from i on that contains the key anywhere, |fields| if there is none. */
  function FirstWith(fields: seq<CString>, key: CString, i: nat := 0): (m: nat)
    requires i <= |fields|
    ensures i <= m <= |fields| && (m < |fields| ==> Contains(fields[m], key))
    ensures forall j :: i <= j < m ==> !Contains(fields[j], key)
    decreases |fields| - i
  {
    if i == |fields| || Contains(fields[i], key) then i else FirstWith(fields, key, i + 1)
  }

  /** The slots of the body array once a property is about to be stored. */
  function Grown(h: Header): nat {
    var n := |h.fields|;
    if n == 0 then 2 else if n == HTTP_BODY_FIELD_LIMIT then h.capacity
    else if n == CeilPow2(n) then 2 * n else h.capacity
  }

  /** A property replaces the first field that contains its key, or is appended; with 128 fields or no key it is dropped. */
  function WithProperty(h: Header, p: CString): Header
    requires |p| <= INT_MAX
  {
    var n := |h.fields|;
    if n == HTTP_BODY_FIELD_LIMIT then h
    else if !HasKey(p) then h.(capacity := Grown(h))
    else
      var m := FirstWith(h.fields, Key(p));
      if m < n then
        Header(h.line, h.fields[m := p], Grown(h), AsInt(h.total + |p| - |h.fields[m]|))
      else
        Header(h.line, h.fields + [p], Grown(h), AsInt(h.total + |p|))
  }

  function LineBytes(line: StatusLine): nat {
    if line.Unset? then 0 else |line.version| + |line.code| + |line.status| + SIZEOF_HEADER_DELIMINATIONS
  }

  function WithLine(h: Header, line: StatusLine): Header {
    h.(line := line, total := AsInt(h.total + LineBytes(line)))
  }

  // ---- Whole runs -------------------------------------------------------------------------------------

  datatype Call = SetLine(version: CString, code: CString, status: CString) | SetProperty(property: CString)

  predicate Callable(calls: seq<Call>) {
    forall c :: c in calls && c.SetProperty? ==> |c.property| <= INT_MAX
  }

  function Step(h: Header, c: Call): Header
    requires c.SetProperty? ==> |c.property| <= INT_MAX
  {
    match c
    case SetLine(v, k, s) => WithLine(h, Line(v, k, s))
    case SetProperty(p) => WithProperty(h, p)
  }

  /** A header that starts out zeroed, after a run of calls. */
  function Run(calls: seq<Call>): Header
    requires Callable(calls)
  {
    if calls == [] then Header(Unset, [], 0, 0)
    else Step(Run(calls[..|calls| - 1]), calls[|calls| - 1])
  }

  function Lines(calls: seq<Call>): nat {
    if calls == [] then 0
    else Lines(calls[..|calls| - 1]) + if calls[|calls| - 1].SetLine? then 1 else 0
  }

  /** The bytes counted for status lines that a later one replaced. */
  function Superseded(calls: seq<Call>): nat
    requires Callable(calls)
  {
    if calls == [] then 0
    else
      var init := calls[..|calls| - 1];
      Superseded(init) + if calls[|calls| - 1].SetLine? then LineBytes(Run(init).line) else 0
  }

  lemma {:induction false} JoinedUpdate(fields: seq<CString>, m: nat, p: CString)
    requires m < |fields|
    ensures |Joined(fields[m := p])| == |Joined(fields)| + |p| - |fields[m]|
  {
    var n := |fields|;
    if m < n - 1 {
      assert fields[m := p][..n - 1] == fields[..n - 1][m := p];
      JoinedUpdate(fields[..n - 1], m, p);
    } else {
      assert fields[m := p][..n - 1] == fields[..n - 1];
    }
  }

  /** A property moves the number of bytes to account for as it moves the running total. */
  lemma PropertyCounted(h: Header, p: CString, extra: int)
    requires |p| <= INT_MAX && h.total == AsInt(Written(h) + extra)
    ensures var g := WithProperty(h, p); g.total == AsInt(Written(g) + extra) && g.line == h.line
  {
    hide AsInt, Grown, HasKey, FirstWith;
    var g := WithProperty(h, p);
    if |h.fields| != HTTP_BODY_FIELD_LIMIT && HasKey(p) {
      var m := FirstWith(h.fields, Key(p));
      if m < |h.fields| {
        JoinedUpdate(h.fields, m, p);
        Recount(h.total, Written(h) + extra, |p| - |h.fields[m]|);
      } else {
        assert (h.fields + [p])[..|h.fields|] == h.fields;
        Recount(h.total, Written(h) + extra, |p|);
      }
    }
  }

  lemma Recount(total: int, x: int, d: int)
    requires total == AsInt(x)
    ensures AsInt(total + d) == AsInt(x + d)
  {
    var k := (x + 0x8000_0000) / 0x1_0000_0000;
    SameInt(total + d, x + d, -k);
  }

  /** After any run the total is the bytes written plus what replaced status lines left behind. */
  lemma {:induction false} RunAccounted(calls: seq<Call>)
    requires Callable(calls)
    ensures Run(calls).total == AsInt(Written(Run(calls)) + Superseded(calls))
    ensures Run(calls).line.Line? <==> Lines(calls) > 0
    ensures Lines(calls) <= 1 ==> Superseded(calls) == 0
    ensures Lines(calls) > 1 ==> Superseded(calls) > 0
  {
    hide AsInt, WithProperty;
    if calls == [] {
      ZeroTotal();
    } else {
      var init, last := calls[..|calls| - 1], calls[|calls| - 1];
      RunAccounted(init);
      var h := Run(init);
      match last {
        case SetLine(v, k, s) => Recount(h.total, Written(h) + Superseded(init), LineBytes(Line(v, k, s)));
        case SetProperty(p) => PropertyCounted(h, p, Superseded(init));
      }
    }
  }

  lemma ZeroTotal()
    ensures AsInt(0) == 0
  {
  }

  /** With totals an int can hold: exact if and only if the status line was set exactly once. */
  lemma ExactIffOneStatusLine(calls: seq<Call>)
    requires Callable(calls) && Lines(calls) > 0 && Written(Run(calls)) + Superseded(calls) <= INT_MAX
    ensures Run(calls).total >= |Text(Run(calls))| + 1
    ensures Run(calls).total == |Text(Run(calls))| + 1 <==> Lines(calls) == 1
  {
    RunAccounted(calls);
  }

  // ---- Growth ---------------------------------------------------------------------------------------------

  ghost predicate WellSized(h: Header) {
    var n := |h.fields|;
    && n <= HTTP_BODY_FIELD_LIMIT
    && (n > 0 ==> h.capacity == CeilPow2(n) || h.capacity == CeilPow2(n + 1))
  }

  /** After the growth step there is a free slot, and never more than the next power of two asks for. */
  lemma RoomToAppend(h: Header)
    requires WellSized(h) && |h.fields| < HTTP_BODY_FIELD_LIMIT
    ensures |h.fields| < Grown(h)
    ensures Grown(h) == if h.fields == [] then 2 else CeilPow2(|h.fields| + 1)
  {
    hide CeilPow2;
    var n := |h.fields|;
    if n > 0 {
      CeilPow2Next(n);
      CeilPow2Least(n + 1, 0);
    }
  }

  lemma {:induction false} RunWellSized(calls: seq<Call>)
    requires Callable(calls)
    ensures WellSized(Run(calls))
  {
    hide CeilPow2, AsInt, Grown, HasKey, FirstWith;
    if calls != [] {
      var init, last := calls[..|calls| - 1], calls[|calls| - 1];
      RunWellSized(init);
      if last.SetProperty? {
        PropertyWellSized(Run(init), last.property);
      }
    }
  }

  lemma PropertyWellSized(h: Header, p: CString)
    requires |p| <= INT_MAX && WellSized(h)
    ensures WellSized(WithProperty(h, p))
  {
    hide CeilPow2, AsInt, Grown, HasKey, FirstWith;
    if |h.fields| < HTTP_BODY_FIELD_LIMIT {
      RoomToAppend(h);
      FirstPower();
    }
  }

  lemma FirstPower()
    ensures CeilPow2(1) == 1 && CeilPow2(2) == 2
  {
    CeilPow2Least(1, 0);
    CeilPow2Least(2, 1);
    assert Arith.Pow2(1) == 2 && Arith.Pow2(0) == 1;
  }

  // ---- Where the documentation and the code part ------------------------------------------------------------

  /** With all slots taken even a property whose key is present is dropped. */
  lemma FullIsFrozen(h: Header, p: CString)
    requires |p| <= INT_MAX
    ensures |h.fields| == 128 ==> WithProperty(h, p) == h
    ensures |h.fields| < 128 && HasKey(p) ==> p in WithProperty(h, p).fields
  {
    if |h.fields| < HTTP_BODY_FIELD_LIMIT && HasKey(p) {
      var g, m := WithProperty(h, p), FirstWith(h.fields, Key(p));
      assert g.fields[m] == p;
    }
  }

  /** A property takes another's place exactly if its key occurs anywhere in some field, not only as that field's key. */
  lemma ReplacesIffKeyOccurs(h: Header, p: CString)
    requires |p| <= INT_MAX && HasKey(p) && |h.fields| < HTTP_BODY_FIELD_LIMIT
    ensures |WithProperty(h, p).fields| == |h.fields| <==>
              exists i, at: nat :: 0 <= i < |h.fields| && OccursAt(h.fields[i], Key(p), at)
  {
    hide OccursAt;
    var m := FirstWith(h.fields, Key(p));
    if m < |h.fields| {
      assert OccursAt(h.fields[m], Key(p), Strstr(h.fields[m], Key(p)));
    }
    forall i, at: nat | 0 <= i < |h.fields| && OccursAt(h.fields[i], Key(p), at)
      ensures m <= i
    {
      OccurrenceFound(h.fields[i], Key(p), at);
    }
  }

  lemma OccurrenceFound(f: CString, key: CString, at: nat)
    requires OccursAt(f, key, at)
    ensures Contains(f, key)
  {
  }

  /** The first field from i on that starts with the key, |fields| if there is none. */
  ghost function FirstKeyed(fields: seq<CString>, key: CString, i: nat := 0): (m: nat)
    requires i <= |fields|
    ensures i <= m <= |fields| && (m < |fields| ==> OccursAt(fields[m], key, 0))
    ensures forall j :: i <= j < m ==> !OccursAt(fields[j], key, 0)
    decreases |fields| - i
  {
    if i == |fields| || OccursAt(fields[i], key, 0) then i else FirstKeyed(fields, key, i + 1)
  }

  /** What the documentation says: the field with the key of p is overwritten, and without one p is appended. */
  ghost function Documented(fields: seq<CString>, p: CString): seq<CString>
    requires |p| <= INT_MAX && HasKey(p)
  {
    var m := FirstKeyed(fields, Key(p));
    if m < |fields| then fields[m := p] else fields + [p]
  }

  /** The code does that exactly when no field before the one with the key contains the key further on. */
  lemma DocumentedIff(h: Header, p: CString)
    requires |p| <= INT_MAX && HasKey(p) && |h.fields| < HTTP_BODY_FIELD_LIMIT
    ensures WithProperty(h, p).fields == Documented(h.fields, p) <==>
              forall j :: 0 <= j < FirstKeyed(h.fields, Key(p)) ==> !Contains(h.fields[j], Key(p))
  {
    hide Strstr, GetKeywordIndex;
    var key := Key(p);
    var c, m := FirstWith(h.fields, key), FirstKeyed(h.fields, key);
    if m < |h.fields| {
      OccurrenceFound(h.fields[m], key, 0);
    }
    if c < m {
      assert OccursAt(p, key, 0);
      assert h.fields[c] != p;
      assert WithProperty(h, p).fields[c] == p;
    }
  }

  /** So a key inside the value of an unrelated field gets that field overwritten. */
  lemma UnrelatedFieldReplaced()
    ensures HasKey("b c") && Key("b c") == "b " && Key("a b d") == "a "
            && WithProperty(Header(Unset, ["a b d"], 2, 5), "b c").fields == ["b c"]
  {
    hide Strstr, GetKeywordIndex;
    KeyOfTwo("b c");
    KeyOfTwo("a b d");
    assert "a b d"[2..4] == "b " && OccursAt("a b d", "b ", 2);
    OccurrenceFound("a b d", "b ", 2);
  }

  lemma KeyOfTwo(p: CString)
    requires 2 <= |p| <= INT_MAX && p[0] != ' ' && p[1] == ' '
    ensures HasKey(p) && Key(p) == p[..2]
  {
    assert p[0..1] == [p[0]] && p[1..2] == " ";
    assert OccursAt(p, " ", 1) && !OccursAt(p, " ", 0);
  }

  // ---- The header object ------------------------------------------------------------------------------------

  datatype Pointer = Null | To(text: CString)

  /** A C string and its terminator at the start of a buffer. */
  ghost predicate Holds(buf: seq<char>, s: CString) {
    |s| < |buf| && buf[..|s|] == s && buf[|s|] == '\0'
  }

  /** strcpy. */
  method Strcpy(buf: array<char>, s: CString)
    requires |s| < buf.Length
    modifies buf
    ensures Holds(buf[..], s)
  {
    CopyIn(buf, 0, s);
    buf[|s|] := '\0';
  }

  /** memcpy to an offset. */
  method CopyIn(buf: array<char>, at: nat, s: seq<char>)
    requires at + |s| <= buf.Length
    modifies buf
    ensures buf[..] == old(buf[..at]) + s + old(buf[at + |s|..])
  {
    for i := 0 to |s|
      invariant buf[..] == old(buf[..at]) + s[..i] + old(buf[at + i..])
    {
      buf[at + i] := s[i];
    }
    assert s[..|s|] == s;
  }

  /** strcat: the text in the buffer is found by its terminator. */
  method Strcat(buf: array<char>, ghost t: CString, s: CString)
    requires Holds(buf[..], t) && |t| + |s| < buf.Length
    modifies buf
    ensures Holds(buf[..], t + s)
  {
    var n := 0;
    assert forall k :: 0 <= k < |t| ==> buf[k] == buf[..|t|][k] == t[k] != '\0';
    while buf[n] != '\0'
      invariant n <= |t|
      decreases |t| - n
    {
      assert buf[n] == t[n];
      n := n + 1;
    }
    CopyIn(buf, n, s);
    buf[n + |s|] := '\0';
  }

  class HttpResponseHeader {
    var version: Pointer
    var statusCode: Pointer
    var status: Pointer
    var body: array?<CString>
    var numberOfBodyFields: nat
    var totalByteLength: int

    ghost predicate Valid()
      reads this, body
    {
      && numberOfBodyFields <= HTTP_BODY_FIELD_LIMIT
      && Stored()
      && (version.To? <==> status.To?) && (statusCode.To? <==> status.To?)
      && -0x8000_0000 <= totalByteLength < 0x8000_0000
      && WellSized(View())
    }

    /** The fields in use have slots. */
    ghost predicate Stored()
      reads this, body
    {
      numberOfBodyFields > 0 ==> body != null && numberOfBodyFields <= body.Length
    }

    ghost function View(): Header
      requires Stored()
      reads this, body
    {
      Header(if version.To? && statusCode.To? && status.To? then Line(version.text, statusCode.text, status.text) else Unset,
             if numberOfBodyFields == 0 then [] else body[..numberOfBodyFields],
             if body == null then 0 else body.Length,
             totalByteLength)
    }

    /** All fields zero, as the callers initialise the structure. */
    constructor ()
      ensures Valid() && View() == Run([])
    {
      version, statusCode, status := Null, Null, Null;
      body := null;
      numberOfBodyFields := 0;
      totalByteLength := 0;
    }

    method ExpandBodySize()
      requires Valid() && numberOfBodyFields > 0
      modifies this`body
      ensures body != null && fresh(body) && body.Length == 2 * numberOfBodyFields
      ensures body[..numberOfBodyFields] == old(body[..numberOfBodyFields])
    {
      var newBody := new CString[numberOfBodyFields * 2];
      for i := 0 to numberOfBodyFields
        invariant body == old(body) && body != null && numberOfBodyFields <= body.Length
        invariant body[..] == old(body[..]) && newBody[..i] == body[..i]
      {
        newBody[i] := body[i];
      }
      body := newBody;
    }

    method SetResponseStatusLine(v: CString, code: CString, s: CString)
      requires Valid()
      modifies this`version, this`statusCode, this`status, this`totalByteLength
      ensures Valid() && View() == WithLine(old(View()), Line(v, code, s))
      ensures version == To(v) && statusCode == To(code) && status == To(s)
    {
      hide AsInt, AsSize, CeilPow2;
      version, statusCode, status := To(v), To(code), To(s);
      ghost var before := totalByteLength;
      InRange(before);
      AddedSize(before, LineBytes(Line(v, code, s)), before);
      totalByteLength := AsInt(AsSize(AsSize(totalByteLength) + AsSize(|v| + |code| + |s| + SIZEOF_HEADER_DELIMINATIONS)));
      InRange(AsSize(AsSize(before) + AsSize(LineBytes(Line(v, code, s)))));
    }

    /** Room for one more field, unless the limit is reached. */
    method Prepare() returns (full: bool)
      requires Valid()
      modifies this`body
      ensures Stored() && full == (numberOfBodyFields == HTTP_BODY_FIELD_LIMIT)
      ensures full ==> View() == old(View())
      ensures !full ==> View() == old(View()).(capacity := Grown(old(View()))) && body != null && numberOfBodyFields < body.Length
      ensures body == old(body) || fresh(body)
    {
      hide CeilPow2, Joined;
      if numberOfBodyFields == 0 {
        body := new CString[2];
      } else if numberOfBodyFields == HTTP_BODY_FIELD_LIMIT {
        return true;
      } else {
        RoomToAppend(View());
        var next := NextHighestPowerOfTwo(numberOfBodyFields);
        if numberOfBodyFields == next {
          ExpandBodySize();
        }
      }
      return false;
    }

    method SetResponseProperty(property: CString)
      requires Valid() && |property| <= INT_MAX
      modifies this`body, this`numberOfBodyFields, this`totalByteLength, body
      ensures Valid() && View() == WithProperty(old(View()), property)
      ensures body == old(body) || fresh(body)
    {
      hide CeilPow2, AsInt, AsSize, Grown, FirstWith, Strstr, GetKeywordIndex;
      ghost var h := View();
      PropertyWellSized(h, property);
      var full := Prepare();
      if full {
        return;
      }
      var keyLength := GetKeywordIndex(property, " ");
      if keyLength == OTHER_ERROR {
        return;
      }
      var key: CString := property[..keyLength];
      assert key == Key(property) && View().fields == h.fields;
      var i := FindField(key);
      if i < numberOfBodyFields {
        Count(|property| - |body[i]|);
        body[i] := property;
        assert View().fields == h.fields[i := property];
        return;
      }
      Count(|property|);
      body[numberOfBodyFields] := property;
      numberOfBodyFields := numberOfBodyFields + 1;
      assert View().fields == h.fields + [property];
    }

    /** total_byte_length += size, in the types of the source. */
    method Count(size: int)
      requires -0x8000_0000 <= totalByteLength < 0x8000_0000
      modifies this`totalByteLength
      ensures totalByteLength == AsInt(old(totalByteLength) + size)
      ensures -0x8000_0000 <= totalByteLength < 0x8000_0000
    {
      InRange(totalByteLength);
      AddedSize(totalByteLength, size, totalByteLength);
      totalByteLength := AsInt(AsSize(AsSize(totalByteLength) + AsSize(size)));
    }

    /** The loop over the fields. */
    method FindField(key: CString) returns (i: nat)
      requires Stored()
      ensures i == FirstWith(View().fields, key)
    {
      i := 0;
      ghost var fields := View().fields;
      while i < numberOfBodyFields
        invariant i <= numberOfBodyFields && FirstWith(fields, key, i) == FirstWith(fields, key)
      {
        if Strstr(body[i], key) != -1 {
          return;
        }
        i := i + 1;
      }
    }

    /** The text, in a buffer of total_byte_length characters. */
    method ResponseToBuff() returns (st: int, buff: array?<char>)
      requires Valid() && (status.To? ==> |Text(View())| + 1 <= totalByteLength)
      ensures st == if old(View()).line.Unset? then OTHER_ERROR else 0
      ensures st == 0 <==> buff != null
      ensures st == 0 ==> fresh(buff) && buff.Length == totalByteLength && Holds(buff[..], Text(View()))
      ensures st == 0 ==> version.To? && statusCode.To? && status.To?
                          && Shows(buff[..], version.text, statusCode.text, status.text, View().fields)
    {
      if version.Null? || statusCode.Null? || status.Null? {
        return OTHER_ERROR, null;
      }
      hide WellSized, LineText, Joined, Holds, Shows;
      buff := new char[totalByteLength];
      PutLine(buff);
      PutFields(buff, LineText(View().line), View().fields);
      Strcat(buff, LineText(View().line) + Joined(View().fields), "\r\n");
      TextShows(View(), buff[..]);
      st := 0;
    }

    /** The fields behind the text t that is already in the buffer. */
    method PutFields(buff: array<char>, ghost t: CString, ghost fields: seq<CString>)
      requires Stored() && fields == View().fields && Holds(buff[..], t) && |t| + |Joined(fields)| < buff.Length
      modifies buff
      ensures Holds(buff[..], t + Joined(fields))
    {
      hide Holds, Joined;
      JoinedEmpty(fields);
      assert t + Joined(fields[..0]) == t;
      for i := 0 to numberOfBodyFields
        invariant Holds(buff[..], t + Joined(fields[..i]))
      {
        JoinedStep(fields, i);
        JoinedShorter(fields, i + 1);
        assert body[i] == fields[i];
        Strcat(buff, t + Joined(fields[..i]), body[i]);
        assert t + Joined(fields[..i]) + fields[i] == t + Joined(fields[..i + 1]);
      }
      assert fields[..|fields|] == fields;
    }

    /** The status line at the start of the buffer. */
    method PutLine(buff: array<char>)
      requires Valid() && View().line.Line? && |LineText(View().line)| < buff.Length
      modifies buff
      ensures Holds(buff[..], LineText(View().line))
    {
      Strcpy(buff, version.text);
      Strcat(buff, version.text, " ");
      Strcat(buff, version.text + " ", statusCode.text);
      Strcat(buff, version.text + " " + statusCode.text, " ");
      Strcat(buff, version.text + " " + statusCode.text + " ", status.text);
      Strcat(buff, version.text + " " + statusCode.text + " " + status.text, "\r\n");
    }
  }

  lemma PartIn(t: string, buf: seq<char>, at: nat, a: string, part: string, b: string)
    requires |t| <= |buf| && buf[..|t|] == t && t == a + part + b && at == |a|
    ensures PartAt(buf, at, part)
  {
    assert t[at..at + |part|] == part;
    assert buf[at..at + |part|] == buf[..|t|][at..at + |part|];
  }

  lemma {:induction false} FieldsEnd(fields: seq<CString>, at: nat, i: nat)
    requires i <= |fields|
    ensures FieldAt(fields, at, i) == at + |Joined(fields[..i])|
  {
    if i == 0 {
      JoinedEmpty(fields);
    } else {
      FieldsEnd(fields, at, i - 1);
      JoinedStep(fields, i - 1);
    }
  }

  lemma {:induction false} JoinedSplit(fields: seq<CString>, i: nat)
    requires i <= |fields|
    ensures Joined(fields) == Joined(fields[..i]) + Joined(fields[i..])
    decreases |fields|
  {
    var n := |fields|;
    if i == n {
      assert fields[..i] == fields && fields[i..] == [];
    } else {
      JoinedSplit(fields[..n - 1], i);
      assert fields[..n - 1][..i] == fields[..i] && fields[..n - 1][i..] == fields[i..][..n - 1 - i];
      assert fields[i..][n - 1 - i] == fields[n - 1];
    }
  }

  lemma LineShown(line: StatusLine, buf: seq<char>)
    requires line.Line? && |LineText(line)| <= |buf| && buf[..|LineText(line)|] == LineText(line)
    ensures var c := |line.version| + 1; var s := c + |line.code| + 1; var f := s + |line.status| + 2;
            && PartAt(buf, 0, line.version) && PartAt(buf, c - 1, " ") && PartAt(buf, c, line.code)
            && PartAt(buf, s - 1, " ") && PartAt(buf, s, line.status) && PartAt(buf, f - 2, "\r\n")
            && |LineText(line)| == f
  {
    hide PartAt;
    var t, v, k, s := LineText(line), line.version, line.code, line.status;
    assert t == "" + v + (" " + k + " " + s + "\r\n");
    PartIn(t, buf, 0, "", v, " " + k + " " + s + "\r\n");
    assert t == v + " " + (k + " " + s + "\r\n");
    PartIn(t, buf, |v|, v, " ", k + " " + s + "\r\n");
    assert t == v + " " + k + (" " + s + "\r\n");
    PartIn(t, buf, |v| + 1, v + " ", k, " " + s + "\r\n");
    assert t == v + " " + k + " " + (s + "\r\n");
    PartIn(t, buf, |v| + 1 + |k|, v + " " + k, " ", s + "\r\n");
    PartIn(t, buf, |v| + 2 + |k|, v + " " + k + " ", s, "\r\n");
    assert t == v + " " + k + " " + s + "\r\n" + "";
    PartIn(t, buf, |v| + 2 + |k| + |s|, v + " " + k + " " + s, "\r\n", "");
  }

  lemma FieldShown(h: Header, buf: seq<char>, i: nat)
    requires i < |h.fields| && Holds(buf, Text(h))
    ensures PartAt(buf, FieldAt(h.fields, |LineText(h.line)|, i), h.fields[i])
  {
    hide PartAt, LineText, Joined, FieldAt;
    var f, l := h.fields, LineText(h.line);
    FieldsEnd(f, |l|, i);
    JoinedSplit(f, i + 1);
    JoinedStep(f, i);
    var a, b := l + Joined(f[..i]), Joined(f[i + 1..]) + "\r\n";
    assert Text(h) == a + f[i] + b;
    PartIn(Text(h), buf, |a|, a, f[i], b);
  }

  /** A buffer with the text shows the parts that were stored. */
  lemma TextShows(h: Header, buf: seq<char>)
    requires h.line.Line? && Holds(buf, Text(h))
    ensures Shows(buf, h.line.version, h.line.code, h.line.status, h.fields)
  {
    hide PartAt, LineText, Joined, FieldAt;
    var l, t := LineText(h.line), Text(h);
    assert buf[..|l|] == buf[..|t|][..|l|];
    LineShown(h.line, buf);
    forall i | 0 <= i < |h.fields| ensures PartAt(buf, FieldAt(h.fields, |l|, i), h.fields[i]) {
      FieldShown(h, buf, i);
    }
    FieldsEnd(h.fields, |l|, |h.fields|);
    assert h.fields[..|h.fields|] == h.fields;
    assert t == l + Joined(h.fields) + "\r\n" + "";
    PartIn(t, buf, |l| + |Joined(h.fields)|, l + Joined(h.fields), "\r\n", "");
    assert buf[..|t| + 1] == t + "\0" + "";
    PartIn(t + "\0", buf, |t|, t, "\0", "");
  }

  lemma InRange(x: int)
    ensures -0x8000_0000 <= AsInt(x) < 0x8000_0000 && (-0x8000_0000 <= x < 0x8000_0000 ==> AsInt(x) == x)
  {
  }

  lemma JoinedEmpty(fields: seq<CString>)
    ensures Joined(fields[..0]) == ""
  {
  }

  lemma JoinedStep(fields: seq<CString>, i: nat)
    requires i < |fields|
    ensures Joined(fields[..i + 1]) == Joined(fields[..i]) + fields[i]
  {
    assert fields[..i + 1][..i] == fields[..i];
  }

  lemma {:induction false} JoinedShorter(fields: seq<CString>, i: nat)
    requires i <= |fields|
    ensures |Joined(fields[..i])| <= |Joined(fields)|
    decreases |fields| - i
  {
    if i == |fields| {
      assert fields[..i] == fields;
    } else {
      JoinedStep(fields, i);
      JoinedShorter(fields, i + 1);
    }
  }

  // ---- Sending ------------------------------------------------------------------------------------------------

  /** What mbedtls_ssl_write is called with, if it is. */
  datatype Given = Nothing | NullPointer(length: int) | Bytes(bytes: seq<char>)

  /** The text, from offset on the appended data; the text's terminator and bytes nobody set are between the two. */
  ghost predicate Laid(bytes: seq<char>, text: CString, offset: nat, appendData: seq<char>) {
    && |text| <= offset <= |bytes| && bytes[..|text|] == text && bytes[offset..] == appendData
    && (|text| < offset ==> bytes[|text|] == '\0')
  }

  lemma LaidOut(before: seq<char>, after: seq<char>, text: CString, at: nat, data: seq<char>)
    requires Holds(before, text) && |text| <= at && |before| == |after| == at + |data| + 1
    requires after == if data == [] then before else before[..at] + data + before[at + |data|..]
    ensures Laid(after[..|after| - 1], text, at, data)
  {
  }

  /** SendHttpHeader: what the transport is given, for the result the transport returns. */
  method SendHttpHeader(resp: HttpResponseHeader, appendData: seq<char>, written: int) returns (st: int, given: Given)
    requires resp.Valid() && resp.totalByteLength + |appendData| <= INT_MAX
    requires resp.totalByteLength + |appendData| <= MAX_CHUNK_SIZE ==>
               if resp.status.To? then |Text(resp.View())| + 1 <= resp.totalByteLength else appendData == []
    modifies resp`totalByteLength
    ensures resp.totalByteLength == old(resp.totalByteLength)
    ensures old(resp.totalByteLength) + |appendData| > 8192 ==> st == -1 && given == Nothing
    ensures old(resp.totalByteLength) + |appendData| <= 8192 ==>
              st == (if written < 0 then -1 else 0)
              && if resp.status.Null? then given == NullPointer(old(resp.totalByteLength) - 1)
                 else given.Bytes? && |given.bytes| == old(resp.totalByteLength) + |appendData| - 1 < 8192
                      && Laid(given.bytes, Text(resp.View()), old(resp.totalByteLength) - 1, appendData)
  {
    hide LineText, Joined, CeilPow2, Laid, Holds, Shows;
    resp.totalByteLength := resp.totalByteLength + |appendData|;
    assert resp.View() == old(resp.View()).(total := resp.totalByteLength);
    if resp.totalByteLength > MAX_CHUNK_SIZE {
      resp.totalByteLength := resp.totalByteLength - |appendData|;
      return NETWORK_ERROR, Nothing;
    }
    var ok, payload := resp.ResponseToBuff();
    ghost var at := resp.totalByteLength - |appendData| - 1;
    ghost var text, before := Text(resp.View()), if payload == null then [] else payload[..];
    if |appendData| != 0 {
      CopyIn(payload, resp.totalByteLength - |appendData| - 1, appendData);
    }
    if payload != null {
      LaidOut(before, payload[..], text, at, appendData);
    }
    given := if payload == null then NullPointer(resp.totalByteLength - 1) else Bytes(payload[..resp.totalByteLength - 1]);
    if written < 0 {
      resp.totalByteLength := resp.totalByteLength - |appendData|;
      return NETWORK_ERROR, given;
    }
    resp.totalByteLength := resp.totalByteLength - |appendData|;
    return 0, given;
  }
}
