/** Whole CCM sessions: any run of calls between the start and the tag (ccm.c:200-468). */
module CcmSession {
  import opened Bytes
  import opened Ccm

  /** A call of mbedtls_ccm_update_ad, or of mbedtls_ccm_update with room bytes of output buffer. */
  datatype Call = Ad(data: seq<Byte>) | Payload(data: seq<Byte>, room: nat)

  /** What was accepted: associated data, payload while associated data was missing, payload after that. */
  datatype Taken = Taken(processed: nat, started: bool, finished: bool, ad: seq<Byte>, early: seq<Byte>, late: seq<Byte>) {
    predicate MissingAd(a: nat) {
      a > 0 && !finished
    }

    /** What finish asks for, with a bytes of associated data and l of payload announced. */
    predicate Complete(a: nat, l: nat) {
      !MissingAd(a) && (l > 0 ==> processed == l)
    }

    function Payload(): seq<Byte> {
      early + late
    }
  }

  const Nothing := Taken(0, false, false, [], [], [])

  /** One call, with a bytes of associated data, l of payload and a tag of t bytes announced. */
  function After(c: Taken, call: Call, a: nat, l: nat, t: nat): Taken {
    var n := |call.data|;
    match call
    case Ad(data) =>
      if n == 0 || c.finished || n + (if c.started then c.processed else 0) > a then c
      else
        var whole := c.processed + n == a;
        c.(processed := if whole then 0 else c.processed + n, started := true, finished := whole, ad := c.ad + data)
    case Payload(data, room) =>
      if (t > 0 && c.processed + n > l) || room < n then c
      else if c.MissingAd(a) then c.(processed := c.processed + n, early := c.early + data)
      else c.(processed := c.processed + n, late := c.late + data)
  }

  function Run(calls: seq<Call>, a: nat, l: nat, t: nat): Taken {
    if calls == [] then Nothing else After(Run(calls[..|calls| - 1], a, l, t), calls[|calls| - 1], a, l, t)
  }

  /** One counter serves both kinds of data: what came early is counted with the associated data. */
  ghost predicate Counted(c: Taken, a: nat, l: nat, t: nat) {
    && (c.MissingAd(a) ==> c.processed == |c.ad| + |c.early| && c.late == [] && (c.early == [] ==> |c.ad| < a))
    && (!c.MissingAd(a) ==> |c.ad| + |c.early| == a && c.processed == |c.late|)
    && (t > 0 ==> |c.early| <= l && |c.late| <= l)
    && (c.started <==> c.ad != []) && (c.finished ==> c.started)
  }

  lemma {:induction false} RunCounted(calls: seq<Call>, a: nat, l: nat, t: nat)
    ensures Counted(Run(calls, a, l, t), a, l, t)
  {
    if calls != [] {
      RunCounted(calls[..|calls| - 1], a, l, t);
    }
  }

  /** Every byte of payload that came early stands in for one of associated data: that many are missing
      from the associated data when finish accepts, and that many too many are in the payload. */
  lemma EarlyBytesReplaceAd(calls: seq<Call>, a: nat, l: nat, t: nat)
    requires t == 0 ==> l == 0
    ensures var c := Run(calls, a, l, t);
            c.Complete(a, l) ==> |c.ad| == a - |c.early| && (t > 0 ==> |c.Payload()| == l + |c.early|)
  {
    RunCounted(calls, a, l, t);
  }

  /** Without early payload the tests of finish mean what they are for. */
  lemma CompleteIfNotEarly(calls: seq<Call>, a: nat, l: nat, t: nat)
    requires t == 0 ==> l == 0
    requires Run(calls, a, l, t).early == []
    ensures var c := Run(calls, a, l, t);
            c.Complete(a, l) <==> |c.ad| == a && (t > 0 ==> |c.Payload()| == l)
  {
    RunCounted(calls, a, l, t);
  }

  /** One byte of two of the associated data is missing, one of payload came early: still complete. */
  lemma EarlyByteCompletes(d: Byte, p: seq<Byte>)
    requires |p| == 4
    ensures Run([Payload(p[..1], 1), Ad([d]), Payload(p[1..], 3)], 2, 3, 4) == Taken(3, true, true, [d], p[..1], p[1..])
    ensures Taken(3, true, true, [d], p[..1], p[1..]).Complete(2, 3)
  {
    var calls := [Payload(p[..1], 1), Ad([d]), Payload(p[1..], 3)];
    assert calls[..2] == [Payload(p[..1], 1), Ad([d])] && calls[..2][..1] == [Payload(p[..1], 1)];
    assert Run([], 2, 3, 4) == Nothing;
    assert Run(calls[..2][..1], 2, 3, 4) == Taken(1, false, false, [], p[..1], []);
    assert Run(calls[..2], 2, 3, 4) == Taken(0, true, true, [d], p[..1], []);
  }

  // ---- The context under any run of calls ----------------------------------------------------

  /** The context has taken what the record says; the output is the translation of the payload. */
  ghost predicate Tracks(m: Context, c: Taken, output: seq<Byte>)
    reads m
  {
    && m.Sane() && !m.error && |output| == |c.Payload()|
    && m.processed == c.processed && m.authStarted == c.started && m.authFinished == c.finished
    && m.ad == c.ad && m.msg == (if m.mode.Encrypts() then c.Payload() else output)
    && (c.early == [] ==> m.Running() && NonceLength(|m.nonce|) && output == CtrCrypt(m.E, m.nonce, 0, c.late))
  }

  twostate lemma NothingChanged(m: Context)
    requires old(m.Running())
    requires m.y == old(m.y) && m.ctr == old(m.ctr) && m.plaintextLen == old(m.plaintextLen) && m.addLen == old(m.addLen)
    requires m.tagLen == old(m.tagLen) && m.processed == old(m.processed) && m.q == old(m.q) && m.mode == old(m.mode)
    requires m.started == old(m.started) && m.lengthsSet == old(m.lengthsSet) && m.error == old(m.error)
    requires m.authStarted == old(m.authStarted) && m.authFinished == old(m.authFinished)
    requires m.nonce == old(m.nonce) && m.ad == old(m.ad) && m.msg == old(m.msg)
    ensures m.Running()
  {
  }

  lemma RunningMeans(m: Context)
    requires m.Running()
    ensures m.authFinished == (m.addLen > 0 && |m.ad| == m.addLen) && m.authStarted == (m.ad != []) && |m.ad| <= m.addLen
    ensures NonceLength(|m.nonce|) && (|m.ad| == m.addLen ==> m.Following())
    ensures m.processed == if |m.ad| == m.addLen then |m.msg| else |m.ad|
  {
  }

  /** Right after the start. */
  lemma NothingTaken(m: Context)
    requires m.Running() && m.ad == [] && m.msg == []
    ensures Tracks(m, Nothing, [])
  {
    hide Context.Running, CtrCrypt;
    RunningMeans(m);
    m.StateIsSane();
    CtrNothing(m.E, m.nonce, 0);
  }

  method GiveAd(m: Context, data: seq<Byte>, ghost c: Taken, ghost output: seq<Byte>)
    requires Tracks(m, c, output) && Counted(c, m.addLen, m.plaintextLen, m.tagLen)
    modifies m
    ensures m.nonce == old(m.nonce) && m.mode == old(m.mode)
    ensures m.addLen == old(m.addLen) && m.plaintextLen == old(m.plaintextLen) && m.tagLen == old(m.tagLen)
    ensures Tracks(m, After(c, Ad(data), m.addLen, m.plaintextLen, m.tagLen), output)
  {
    hide Context.Running, CtrCrypt, NonceLength, Context.Sane, Context.AdPassed;
    var st := m.UpdateAd(data);
  }

  /** Payload that is accepted goes behind what there is. */
  lemma PayloadTaken(c: Taken, data: seq<Byte>, room: nat, a: nat, l: nat, t: nat)
    requires c.MissingAd(a) ==> c.late == []
    ensures var c' := After(c, Payload(data, room), a, l, t);
            if (t > 0 && c.processed + |data| > l) || room < |data| then c' == c
            else c' == c.(processed := c.processed + |data|, early := c'.early, late := c'.late)
                 && c'.Payload() == c.Payload() + data
                 && (c'.early == [] ==> c.early == [] && c'.late == c.late + data && (data == [] || !c.MissingAd(a)))
  {
    if c.MissingAd(a) {
      assert c.early + data + [] == c.early + [] + data;
    } else {
      assert c.early + (c.late + data) == c.early + c.late + data;
    }
  }

  /** mbedtls_ccm_update into a buffer of its own; an empty piece changes nothing. */
  method UpdateFresh(m: Context, data: seq<Byte>, room: nat) returns (st: Status, given: seq<Byte>)
    requires m.Sane() && !m.error
    modifies m`y, m`ctr, m`processed, m`msg
    ensures m.Sane() && (st != Ok <==> (m.tagLen > 0 && old(m.processed) + |data| > m.plaintextLen) || room < |data|)
    ensures st != Ok ==> unchanged(m) && given == []
    ensures st == Ok ==> |given| == |data| && m.processed == old(m.processed) + |data|
                         && m.msg == old(m.msg) + if m.mode.Encrypts() then data else given
    ensures old(m.Following()) ==> m.Running() && NonceLength(|m.nonce|)
    ensures old(m.Following()) && st == Ok ==> given == CtrCrypt(m.E, m.nonce, |old(m.msg)|, data)
    ensures old(m.Running()) && data == [] ==> m.Running()
  {
    hide Context.Running, CtrCrypt, NonceLength, Context.Sane, Context.Passed;
    m.NothingLeft([]);
    if m.Running() {
      RunningMeans(m);
    }
    var buffer := new Byte[room];
    label before:
    var n;
    st, n := m.Update(data, buffer);
    given := if st == Ok then buffer[..n] else [];
    if st == Ok && data == [] && old(m.Running()) {
      assert given == [] && m.msg + [] == m.msg;
      NothingChanged@before(m);
    }
  }

  method GivePayload(m: Context, data: seq<Byte>, room: nat, ghost c: Taken, ghost output: seq<Byte>) returns (given: seq<Byte>)
    requires Tracks(m, c, output) && Counted(c, m.addLen, m.plaintextLen, m.tagLen)
    modifies m
    ensures m.nonce == old(m.nonce) && m.mode == old(m.mode)
    ensures m.addLen == old(m.addLen) && m.plaintextLen == old(m.plaintextLen) && m.tagLen == old(m.tagLen)
    ensures Tracks(m, After(c, Payload(data, room), m.addLen, m.plaintextLen, m.tagLen), output + given)
  {
    hide Context.Running, CtrCrypt, NonceLength, Context.Sane, Context.Passed, After, Taken.Payload, Context.Following;
    PayloadTaken(c, data, room, m.addLen, m.plaintextLen, m.tagLen);
    if c.early == [] {
      RunningMeans(m);
      CtrSplit(m.E, m.nonce, 0, c.late, data);
      assert c.Payload() == c.late by { EarlyNone(c); }
    }
    var st;
    st, given := UpdateFresh(m, data, room);
    if st != Ok {
      assert output + given == output;
      return;
    }
    assert data == [] ==> output + given == output && c.late + data == c.late;
  }

  lemma EarlyNone(c: Taken)
    ensures c.early == [] ==> c.Payload() == c.late
  {
  }

  /** Nonce and lengths in either order, then any calls, refused ones included, then the tag. */
  method Session(m: Context, mode: Mode, lengthsFirst: bool, iv: seq<Byte>, adLen: nat, len: nat, tLen: nat, calls: seq<Call>)
    returns (begun: Status, st: Status, output: seq<Byte>, tag: seq<Byte>)
    requires m.Clear()
    modifies m
    ensures begun == if Context.Accepted(mode, |iv|, adLen, len, tLen) then Ok else BadInput
    ensures begun != Ok ==> st == begun
    ensures var l, c := if tLen == 0 then 0 else len, Run(calls, adLen, if tLen == 0 then 0 else len, tLen);
            begun == Ok ==> && (st == Ok <==> c.Complete(adLen, l))
                            && |output| == |c.Payload()| && (st == Ok ==> |tag| == tLen)
                            && (st == Ok ==> |c.ad| == adLen - |c.early| && (tLen > 0 ==> |c.Payload()| == len + |c.early|))
                            && (c.early == [] ==> (st == Ok <==> |c.ad| == adLen && (tLen > 0 ==> |c.Payload()| == len)))
                            && (c.early == [] ==> output == CtrCrypt(m.E, iv, 0, c.Payload()))
                            && (st == Ok && c.early == [] && tLen > 0 ==>
                                  tag == RfcTag(m.E, iv, c.ad, if mode.Encrypts() then c.Payload() else output, tLen)[..tLen])
  {
    hide Context.Running, Context.Clear, RfcTag, CtrCrypt;
    output, tag := [], [];
    begun := m.Begin(mode, lengthsFirst, iv, adLen, len, tLen);
    st := begun;
    if begun != Ok {
      return;
    }
    ghost var l := if tLen == 0 then 0 else len;
    NothingTaken(m);
    for i := 0 to |calls|
      invariant m.nonce == iv && m.mode == mode && m.addLen == adLen && m.plaintextLen == l && m.tagLen == tLen
      invariant Tracks(m, Run(calls[..i], adLen, l, tLen), output)
    {
      RunCounted(calls[..i], adLen, l, tLen);
      assert calls[..i + 1][..i] == calls[..i];
      var given := [];
      match calls[i]
      case Ad(data) => GiveAd(m, data, Run(calls[..i], adLen, l, tLen), output);
      case Payload(data, room) => given := GivePayload(m, data, room, Run(calls[..i], adLen, l, tLen), output);
      output := output + given;
    }
    assert calls[..|calls|] == calls;
    EarlyBytesReplaceAd(calls, adLen, l, tLen);
    if Run(calls, adLen, l, tLen).early == [] {
      CompleteIfNotEarly(calls, adLen, l, tLen);
    }
    EarlyNone(Run(calls, adLen, l, tLen));
    st, tag := m.Finish(tLen);
  }

  /** Two bytes of associated data and three of payload are announced; one and four are given, and finish makes a tag. */
  method TagOverWrongLengths(m: Context, iv: seq<Byte>, d: Byte, p: seq<Byte>) returns (st: Status, tag: seq<Byte>)
    requires m.Clear() && |iv| == 13 && |p| == 4
    modifies m
    ensures st == Ok && |tag| == 4
  {
    EarlyByteCompletes(d, p);
    var begun, output;
    begun, st, output, tag := Session(m, CcmEncrypt, false, iv, 2, 3, 4, [Payload(p[..1], 1), Ad([d]), Payload(p[1..], 3)]);
  }
}
