/** CCM over an arbitrary block function (ccm.c), against sections 2.2 and 2.3 of RFC 3610. */
module Ccm {
  import opened Bytes
  import opened Blocks
  import Arith
  import Bits

  datatype Mode = CcmEncrypt | CcmDecrypt | StarEncrypt | StarDecrypt {
    predicate Star() {
      this == StarEncrypt || this == StarDecrypt
    }

    predicate Encrypts() {
      this == CcmEncrypt || this == StarEncrypt
    }
  }

  datatype Status = Ok | BadInput | AuthFailed | Corrupted

  predicate NonceLength(n: nat) {
    7 <= n <= 13
  }

  predicate TagLength(t: nat) {
    t != 2 && t <= 16 && t % 2 == 0
  }

  // ---- The definition --------------------------------------------------------------

  /** The flags of the first block. Without a tag the source's unsigned (0 - 2) / 2 sets every bit from 3 up. */
  function Flags(a: nat, t: nat, q: nat): Byte
    requires 2 <= q <= 8 && TagLength(t)
  {
    if t == 0 then 0xF8 + (q - 1) else (if a > 0 then 64 else 0) + 8 * ((t - 2) / 2) + (q - 1)
  }

  /** B_0: flags, nonce, message length. */
  function FirstBlock(nonce: seq<Byte>, a: nat, l: nat, t: nat): Block
    requires NonceLength(|nonce|) && TagLength(t)
  {
    [Flags(a, t, 15 - |nonce|)] + nonce + BeBytes(l, 15 - |nonce|)
  }

  /** A_i: flags, nonce, counter i. */
  function CounterBlock(nonce: seq<Byte>, i: nat): Block
    requires NonceLength(|nonce|)
  {
    [14 - |nonce|] + nonce + BeBytes(i, 15 - |nonce|)
  }

  /** Byte n of the key stream S_1, S_2, ... */
  function KeyByte(E: Block -> Block, nonce: seq<Byte>, n: nat): Byte
    requires NonceLength(|nonce|)
  {
    E(CounterBlock(nonce, 1 + n / 16))[n % 16]
  }

  /** Counter-mode encryption (and decryption) of data that starts at byte from of the message. */
  function CtrCrypt(E: Block -> Block, nonce: seq<Byte>, from: nat, data: seq<Byte>): (r: seq<Byte>)
    requires NonceLength(|nonce|)
    ensures |r| == |data|
  {
    seq(|data|, k requires 0 <= k < |data| => Xor8(data[k], KeyByte(E, nonce, from + k)))
  }

  /** Two bytes of length, then the data: the encoding of associated data shorter than 0xFF00. */
  function AdField(a: nat, ad: seq<Byte>): seq<Byte> {
    BeBytes(a, 2) + ad
  }

  function AdBlocks(ad: seq<Byte>): (s: seq<Byte>)
    ensures |s| % 16 == 0
  {
    if ad == [] then [] else Pad16(AdField(|ad|, ad))
  }

  /** X_{n+1}: the CBC-MAC of B_0, the associated data blocks and the message blocks. */
  function RfcMac(E: Block -> Block, nonce: seq<Byte>, ad: seq<Byte>, msg: seq<Byte>, t: nat): Block
    requires NonceLength(|nonce|) && TagLength(t)
  {
    Fold(E, Zeros(16), MacInput(FirstBlock(nonce, |ad|, |msg|, t), AdBlocks(ad), Pad16(msg)))
  }

  /** B_0, B_1, ... in one string. */
  function MacInput(b0: Block, ads: seq<Byte>, msgs: seq<Byte>): (s: seq<Byte>)
    requires |ads| % 16 == 0 && |msgs| % 16 == 0
    ensures |s| % 16 == 0
  {
    WholeBlocks(|ads|, |msgs|);
    b0 + ads + msgs
  }

  lemma WholeBlocks(a: nat, b: nat)
    requires a % 16 == 0 && b % 16 == 0
    ensures (16 + a) % 16 == 0 && (16 + a + b) % 16 == 0
  {
  }

  /** The authentication value before it is cut to its length: the MAC, encrypted with S_0. */
  function RfcTag(E: Block -> Block, nonce: seq<Byte>, ad: seq<Byte>, msg: seq<Byte>, t: nat): Block
    requires NonceLength(|nonce|) && TagLength(t)
  {
    Xor(RfcMac(E, nonce, ad, msg, t), E(CounterBlock(nonce, 0)))
  }

  lemma CtrSplit(E: Block -> Block, nonce: seq<Byte>, from: nat, s: seq<Byte>, t: seq<Byte>)
    requires NonceLength(|nonce|)
    ensures CtrCrypt(E, nonce, from, s + t) == CtrCrypt(E, nonce, from, s) + CtrCrypt(E, nonce, from + |s|, t)
  {
    hide KeyByte, Xor8;
  }

  /** Counter mode undoes itself. */
  lemma CtrInverse(E: Block -> Block, nonce: seq<Byte>, from: nat, s: seq<Byte>)
    requires NonceLength(|nonce|)
    ensures CtrCrypt(E, nonce, from, CtrCrypt(E, nonce, from, s)) == s
  {
    var c := CtrCrypt(E, nonce, from, s);
    forall k | 0 <= k < |s| ensures CtrCrypt(E, nonce, from, c)[k] == s[k] {
      XorUndo(s[k], KeyByte(E, nonce, from + k));
    }
  }

  // ---- The chain of the streaming form ------------------------------------------------

  /** y after ad of the a bytes of associated data. */
  function AdChain(E: Block -> Block, x1: Block, a: nat, ad: seq<Byte>): Block {
    if ad == [] then x1
    else if |ad| == a then Closed(E, x1, AdField(a, ad))
    else Absorb(E, x1, AdField(a, ad))
  }

  /** y after msg of the l bytes of the message. */
  function MsgChain(E: Block -> Block, xa: Block, l: nat, msg: seq<Byte>): Block {
    if |msg| == l then Closed(E, xa, msg) else Absorb(E, xa, msg)
  }

  function Chain(E: Block -> Block, nonce: seq<Byte>, a: nat, l: nat, t: nat, ad: seq<Byte>, msg: seq<Byte>): Block
    requires NonceLength(|nonce|) && TagLength(t)
  {
    MsgChain(E, AdChain(E, E(FirstBlock(nonce, a, l, t)), a, ad), l, msg)
  }

  lemma FoldOne(E: Block -> Block, x: Block, b: Block)
    ensures Fold(E, x, b) == E(XorAt(x, 0, b))
  {
    assert b[..16] == b && b[16..] == [];
  }

  lemma XorZeroBlock(b: Block)
    ensures XorAt(Zeros(16), 0, b) == b
  {
    forall k | 0 <= k < 16 ensures Xor8(0, b[k]) == b[k] {
      ZeroXor(b[k]);
    }
  }

  lemma ZeroXor(b: Byte)
    ensures Xor8(0, b) == b
  {
    XorCommutes(0, b);
    XorUndo(b, 0);
  }

  /** The whole stream, in whatever pieces it came, gives the MAC of the definition. */
  lemma ChainIsMac(E: Block -> Block, nonce: seq<Byte>, t: nat, ad: seq<Byte>, msg: seq<Byte>)
    requires NonceLength(|nonce|) && TagLength(t)
    ensures Chain(E, nonce, |ad|, |msg|, t, ad, msg) == RfcMac(E, nonce, ad, msg, t)
  {
    hide Fold, Absorb, Closed, XorAt, Pad16, FirstBlock, Zeros;
    var b0: Block := FirstBlock(nonce, |ad|, |msg|, t);
    var z: Block := Zeros(16);
    FoldOne(E, z, b0);
    XorZeroBlock(b0);
    WholeBlocks(|AdBlocks(ad)|, |Pad16(msg)|);
    FoldConcat(E, z, b0 + AdBlocks(ad), Pad16(msg));
    FoldConcat(E, z, b0, AdBlocks(ad));
    ClosedIsPadded(E, E(b0), AdField(|ad|, ad));
    NoBlocks(E, E(b0));
    ClosedIsPadded(E, AdChain(E, E(b0), |ad|, ad), msg);
  }

  lemma NoBlocks(E: Block -> Block, x: Block)
    ensures Fold(E, x, []) == x
  {
  }

  /** The counter block the context holds after n of l message bytes. */
  function NextCounter(n: nat, l: nat): nat {
    1 + n / 16 + if n == l && n % 16 != 0 then 1 else 0
  }

  // ---- The passes over a call's data, in any state -----------------------------------------

  /** The counter block with its last q bytes incremented. */
  function Bumped(ctr: Block, q: nat): Block
    requires q <= 8
  {
    ctr[..16 - q] + Inc(ctr[16 - q..])
  }

  /** y after more of the a bytes of associated data, p of them counted before, block by block. */
  function AdPass(E: Block -> Block, a: nat, y: Block, p: nat, data: seq<Byte>): Block
    decreases |data|
  {
    var offset := (p + 2) % 16;
    if data == [] then y
    else
      var k := if |data| < 16 - offset then |data| else 16 - offset;
      AdPass(E, a, Mixed(E, y, offset, data[..k], p + k == a), p + k, data[k..])
  }

  lemma AdPassNext(E: Block -> Block, a: nat, y: Block, p: nat, data: seq<Byte>, i: nat, k: nat)
    requires i < |data| && k == (if |data| - i < 16 - (p + 2) % 16 then |data| - i else 16 - (p + 2) % 16)
    ensures AdPass(E, a, y, p, data[i..]) == AdPass(E, a, Mixed(E, y, (p + 2) % 16, data[i..i + k], p + k == a), p + k, data[i + k..])
  {
    hide Mixed;
    assert data[i..][..k] == data[i..i + k] && data[i..][k..] == data[i + k..];
  }

  lemma AdPassEnd(E: Block -> Block, a: nat, y: Block, p: nat, data: seq<Byte>)
    ensures data[0..] == data && AdPass(E, a, y, p, []) == y
  {
  }

  /** y, counter block and output. */
  datatype Flow = Flow(y: Block, ctr: Block, out: seq<Byte>)

  /** One piece of payload at position p: translated by the key stream, its plain form mixed into y. */
  function PiecePass(E: Block -> Block, encrypts: bool, q: nat, l: nat, f: Flow, p: nat, piece: seq<Byte>): (r: Flow)
    requires q <= 8 && p % 16 + |piece| <= 16
    ensures |r.out| == |f.out| + |piece|
  {
    var offset, last := p % 16, p + |piece| == l;
    var translated := Xor(piece, E(f.ctr)[offset..]);
    Flow(Mixed(E, f.y, offset, if encrypts then piece else translated, last),
         if offset + |piece| == 16 || last then Bumped(f.ctr, q) else f.ctr,
         f.out + translated)
  }

  /** The payload of a call, p bytes counted before, of l announced ones, block by block. */
  function Pass(E: Block -> Block, encrypts: bool, q: nat, l: nat, f: Flow, p: nat, input: seq<Byte>): (r: Flow)
    requires q <= 8
    ensures |r.out| == |f.out| + |input|
    decreases |input|
  {
    if input == [] then f
    else
      var k := if |input| < 16 - p % 16 then |input| else 16 - p % 16;
      Pass(E, encrypts, q, l, PiecePass(E, encrypts, q, l, f, p, input[..k]), p + k, input[k..])
  }

  lemma PassNext(E: Block -> Block, encrypts: bool, q: nat, l: nat, f: Flow, p: nat, input: seq<Byte>, i: nat, j: nat, g: Flow)
    requires q <= 8 && i < |input| && j == (if |input| - i < 16 - p % 16 then |input| else i + 16 - p % 16)
    requires g == PiecePass(E, encrypts, q, l, f.(out := []), p, input[i..j])
    ensures Pass(E, encrypts, q, l, f, p, input[i..])
         == Pass(E, encrypts, q, l, g.(out := f.out + g.out), p + j - i, input[j..])
  {
    hide PiecePass;
    assert input[i..][..j - i] == input[i..j] && input[i..][j - i..] == input[j..];
    PiecePrefix(E, encrypts, q, l, f, p, input[i..j]);
  }

  /** What was put out before stands in front. */
  lemma PiecePrefix(E: Block -> Block, encrypts: bool, q: nat, l: nat, f: Flow, p: nat, piece: seq<Byte>)
    requires q <= 8 && p % 16 + |piece| <= 16
    ensures var g := PiecePass(E, encrypts, q, l, f.(out := []), p, piece);
            PiecePass(E, encrypts, q, l, f, p, piece) == g.(out := f.out + g.out)
  {
    hide Mixed, Bumped, Xor;
  }

  // ---- The context ------------------------------------------------------------------------

  /** mbedtls_ccm_context. The flag bits of its state word are separate fields. */
  class Context {
    const E: Block -> Block
    var y: Block
    var ctr: Block
    var plaintextLen: nat
    var addLen: nat
    var tagLen: nat
    var processed: nat
    var q: nat
    var mode: Mode
    var started: bool
    var lengthsSet: bool
    var authStarted: bool
    var authFinished: bool
    var error: bool

    /** What the session has been given: the nonce, the associated data and the plaintext so far. */
    ghost var nonce: seq<Byte>
    ghost var ad: seq<Byte>
    ghost var msg: seq<Byte>

    constructor (e: Block -> Block)
      ensures E == e && Clear()
    {
      E := e;
      y, ctr := Zeros(16), Zeros(16);
      plaintextLen, addLen, tagLen, processed, q, mode := 0, 0, 0, 0, 0, CcmEncrypt;
      started, lengthsSet, authStarted, authFinished, error := false, false, false, false, false;
      nonce, ad, msg := [], [], [];
    }

    /** What every call leaves true, whatever came before. */
    ghost predicate Sane()
      reads this
    {
      q <= 8 && (started ==> q >= 2) && TagLength(tagLen) && addLen < 0xFF00
    }

    ghost predicate Clear()
      reads this
    {
      && Sane() && y == Zeros(16) && ctr == Zeros(16) && ad == [] && msg == []
      && !started && !lengthsSet && !authStarted && !authFinished && !error
    }

    /** mbedtls_ccm_starts done, lengths not known yet. */
    ghost predicate HasNonce()
      reads this
    {
      && NonceLength(|nonce|) && q == 15 - |nonce| && ad == [] && msg == []
      && Sane() && y[..16 - q] == [0] + nonce && ctr == CounterBlock(nonce, 1)
      && started && !lengthsSet && !authStarted && !authFinished && !error
    }

    /** mbedtls_ccm_set_lengths done, nonce not known yet. */
    ghost predicate HasLengths()
      reads this
    {
      && Sane() && processed == 0 && ad == [] && msg == []
      && y == Zeros(16) && ctr == Zeros(16)
      && !started && lengthsSet && !authStarted && !authFinished && !error
    }

    /** Nonce and lengths known and accepted: what stays as it is until the tag is made. */
    ghost predicate Fixed()
      reads this
    {
      && NonceLength(|nonce|) && q == 15 - |nonce| && TagLength(tagLen) && addLen < 0xFF00
      && plaintextLen < Pow256(q) && (tagLen == 0 ==> mode.Star() && plaintextLen == 0)
      && started && lengthsSet && !error
    }

    /** A session on its way; ad and msg are what has been processed. */
    ghost predicate Running()
      reads this
    {
      && Fixed()
      && |ad| <= addLen && (msg != [] ==> |ad| == addLen) && (tagLen > 0 ==> |msg| <= plaintextLen)
      && authStarted == (ad != []) && authFinished == (addLen > 0 && |ad| == addLen)
      && processed == (if |ad| == addLen then |msg| else |ad|)
      && ctr == CounterBlock(nonce, NextCounter(|msg|, plaintextLen))
      && y == Chain(E, nonce, addLen, plaintextLen, tagLen, ad, msg)
    }

    lemma RunningAd(x: Block)
      requires Fixed() && ad != [] && |ad| <= addLen && msg == [] && authStarted && authFinished == (|ad| == addLen)
      requires processed == (if |ad| == addLen then 0 else |ad|) && ctr == CounterBlock(nonce, NextCounter(0, plaintextLen))
      requires x == E(FirstBlock(nonce, addLen, plaintextLen, tagLen))
      requires y == if |ad| == addLen then Closed(E, x, AdField(addLen, ad)) else Absorb(E, x, AdField(addLen, ad))
      ensures Running()
    {
      hide FirstBlock, CounterBlock, Absorb, Closed, AdField, Chain, NonceLength, TagLength, Pow256;
      NoMessage(E, nonce, addLen, plaintextLen, tagLen, ad);
    }

    lemma RunningMsg(xa: Block)
      requires Fixed() && |ad| == addLen && msg != [] && authStarted == (ad != []) && authFinished == (addLen > 0)
      requires (tagLen > 0 ==> |msg| <= plaintextLen) && processed == |msg|
      requires ctr == CounterBlock(nonce, NextCounter(|msg|, plaintextLen))
      requires xa == AdChain(E, E(FirstBlock(nonce, addLen, plaintextLen, tagLen)), addLen, ad)
      requires y == if |msg| == plaintextLen then Closed(E, xa, msg) else Absorb(E, xa, msg)
      ensures Running()
    {
      hide FirstBlock, CounterBlock, Absorb, Closed, AdChain, NonceLength, TagLength, Pow256;
    }

    lemma StateIsSane()
      ensures Clear() || HasNonce() || HasLengths() || Running() ==> Sane() && !error
      ensures Clear() || HasNonce() ==> !lengthsSet
      ensures Clear() || HasLengths() ==> !started
      ensures Clear() || HasNonce() || HasLengths() ==> ad == [] && msg == []
    {
    }

    // ---- Starting ----------------------------------------------------------------------------

    /** The length field of the first block: byte by byte, least significant last. */
    method WriteLength() returns (left: nat)
      requires 2 <= q <= 8
      modifies this`y
      ensures y == old(y[..16 - q]) + BeBytes(plaintextLen, q)
      ensures left == 0 <==> plaintextLen < Pow256(q)
    {
      left := plaintextLen;
      LengthStart(y, plaintextLen, q);
      for i := 0 to q
        invariant LengthSoFar(y, old(y), plaintextLen, q, i, left)
      {
        LengthNext(y, old(y), plaintextLen, q, i, left);
        y := y[15 - i := left % 256];
        left := left / 256;
      }
      LengthEnd(y, old(y), plaintextLen, q, left);
    }

    /** ccm_calculate_first_block_if_ready. */
    method FirstBlockIfReady() returns (st: Status)
      requires Sane()
      modifies this`y, this`error, this`plaintextLen
      ensures !(started && lengthsSet) ==> st == Ok && y == old(y) && error == old(error) && plaintextLen == old(plaintextLen)
      ensures started && lengthsSet ==> st == if LengthsFit(mode, tagLen, old(plaintextLen), q) then Ok else BadInput
      ensures error == (old(error) || (st == BadInput && tagLen > 0))
      ensures started && lengthsSet && st == Ok ==>
                FirstBlockMade(old(y), old(y[1..16 - q]), old(plaintextLen)) && plaintextLen == if tagLen == 0 then 0 else old(plaintextLen)
    {
      hide Or8, Flags, BeBytes, Pow256;
      if !started || !lengthsSet {
        return Ok;
      }
      if tagLen == 0 {
        if mode.Star() {
          plaintextLen := 0;
        } else {
          return BadInput;
        }
      }
      WriteFlags();
      ghost var first, middle := y[0], y[1..16 - q];
      var left := WriteLength();
      if left > 0 {
        error := true;
        return BadInput;
      }
      assert y == [first] + middle + BeBytes(plaintextLen, q);
      y := E(y);
      st := Ok;
    }

    /** The three fields of the flags, or-ed into the first byte. */
    method WriteFlags()
      requires Sane() && started
      modifies this`y
      ensures y == old(y)[0 := Or8(old(y[0]), Flags(addLen, tagLen, q))]
    {
      hide Or8, Flags;
      FlagFields(y[0], addLen, tagLen, q);
      y := y[0 := Or8(y[0], if addLen > 0 then 64 else 0)];
      y := y[0 := Or8(y[0], TagField(tagLen))];
      y := y[0 := Or8(y[0], q - 1)];
    }

    /** With the first block made, the session runs, nothing processed yet. */
    lemma StartRunning(middle: seq<Byte>)
      requires NonceLength(|nonce|) && q == 15 - |nonce| && TagLength(tagLen) && addLen < 0xFF00 && processed == 0
      requires plaintextLen < Pow256(q) && (tagLen == 0 ==> mode.Star() && plaintextLen == 0)
      requires started && lengthsSet && !error && !authStarted && !authFinished && ad == [] && msg == []
      requires ctr == CounterBlock(nonce, 1) && middle == nonce
      requires y == E([Flags(addLen, tagLen, q)] + middle + BeBytes(plaintextLen, q))
      ensures Running()
    {
      hide Chain, CounterBlock;
      StartedChain(E, nonce, addLen, plaintextLen, tagLen);
    }

    /** The counter block and the nonce part of the first block. */
    method PrepareNonce(m: Mode, iv: seq<Byte>)
      requires NonceLength(|iv|)
      modifies this`mode, this`q, this`ctr, this`y, this`nonce, this`ad, this`msg
      ensures mode == m && nonce == iv && q == 15 - |iv| && ad == [] && msg == []
      ensures y == old(y[..1]) + iv + old(y[1 + |iv|..]) && ctr == CounterBlock(iv, 1)
    {
      mode := m;
      q := 16 - 1 - |iv|;
      ctr := [q - 1] + iv + Zeros(q);
      ctr := ctr[15 := 1];
      FirstCounter(ctr, iv, q);
      y := y[..1] + iv + y[1 + |iv|..];
      nonce, ad, msg := iv, [], [];
    }

    /** mbedtls_ccm_starts, from any state. */
    method Starts(m: Mode, iv: seq<Byte>) returns (st: Status)
      requires Sane()
      modifies this
      ensures Sane()
      ensures !NonceLength(|iv|) ==> st == BadInput && unchanged(this)
      ensures NonceLength(|iv|) ==>
                st == (if lengthsSet && !LengthsFit(m, tagLen, old(plaintextLen), 15 - |iv|) then BadInput else Ok)
                && error == (old(error) || (st == BadInput && tagLen > 0))
                && Fresh(m, iv) && lengthsSet == old(lengthsSet) && addLen == old(addLen) && tagLen == old(tagLen)
                && processed == old(processed) && authStarted == old(authStarted) && authFinished == old(authFinished)
                && (!lengthsSet ==> y == old(y[..1]) + iv + old(y[1 + |iv|..]) && plaintextLen == old(plaintextLen))
                && (lengthsSet && st == Ok ==>
                      FirstBlockMade(old(y), iv, old(plaintextLen)) && plaintextLen == if tagLen == 0 then 0 else old(plaintextLen))
      ensures NonceLength(|iv|) && old(Clear() || HasNonce()) ==> HasNonce()
      ensures NonceLength(|iv|) && old(HasLengths()) && st == Ok ==> Running()
    {
      hide CounterBlock, NonceLength, TagLength, Pow256, FirstBlockMade;
      if |iv| < 7 || |iv| > 13 {
        assert !NonceLength(|iv|) by { NonceBounds(|iv|); }
        return BadInput;
      }
      NonceBounds(|iv|);
      PrepareNonce(m, iv);
      started := true;
      ghost var y1 := y;
      assert y1[1..16 - q] == iv && y1[..16 - q] == old(y[..1]) + iv;
      st := FirstBlockIfReady();
      if st == Ok && lengthsSet {
        SameFirst(old(y), y1, iv, old(plaintextLen));
        if old(HasLengths()) {
          NonceThenLengths(y1, old(plaintextLen));
        }
      }
    }

    /** Only the first byte of what y was matters. */
    lemma SameFirst(y0: Block, y1: Block, middle: seq<Byte>, len: nat)
      requires started && Sane() && |middle| == 15 - q && y0[0] == y1[0] && FirstBlockMade(y1, middle, len)
      ensures FirstBlockMade(y0, middle, len)
    {
    }

    /** The state of the nonce fields right after starts. */
    ghost predicate Fresh(m: Mode, iv: seq<Byte>)
      requires NonceLength(|iv|)
      reads this
    {
      started && mode == m && q == 15 - |iv| && ctr == CounterBlock(iv, 1) && nonce == iv && ad == [] && msg == []
    }

    /** mbedtls_ccm_set_lengths, from any state. */
    method SetLengths(totalAdLen: nat, plainLen: nat, tLen: nat) returns (st: Status)
      requires Sane()
      modifies this`plaintextLen, this`addLen, this`tagLen, this`processed, this`lengthsSet, this`error, this`y
      ensures Sane()
      ensures !(TagLength(tLen) && totalAdLen < 0xFF00) ==> st == BadInput && unchanged(this)
      ensures TagLength(tLen) && totalAdLen < 0xFF00 ==>
                st == (if started && !LengthsFit(mode, tLen, plainLen, q) then BadInput else Ok)
                && error == (old(error) || (st == BadInput && tLen > 0))
                && lengthsSet && addLen == totalAdLen && tagLen == tLen && processed == 0
                && (!started ==> y == old(y) && plaintextLen == plainLen)
                && (started && st == Ok ==>
                      FirstBlockMade(old(y), old(y[1..16 - q]), plainLen) && plaintextLen == if tLen == 0 then 0 else plainLen)
      ensures TagLength(tLen) && totalAdLen < 0xFF00 && old(Clear() || HasLengths()) ==> HasLengths()
      ensures old(HasNonce()) && st == Ok ==> Running()
    {
      hide TagLength, Pow256, FirstBlockMade;
      TagBounds(tLen);
      if tLen == 2 || tLen > 16 || tLen % 2 != 0 {
        return BadInput;
      }
      if totalAdLen >= 0xFF00 {
        return BadInput;
      }
      plaintextLen, addLen, tagLen, processed := plainLen, totalAdLen, tLen, 0;
      lengthsSet := true;
      st := FirstBlockIfReady();
      if st == Ok && old(HasNonce()) {
        NonceThenLengths(old(y), plainLen);
      }
    }

    /** y is the encryption of a first block whose flags were or-ed into the first byte of y0. */
    ghost predicate FirstBlockMade(y0: Block, middle: seq<Byte>, len: nat)
      requires started && Sane() && |middle| == 15 - q
      reads this
    {
      && plaintextLen == (if tagLen == 0 then 0 else len) && plaintextLen < Pow256(q)
      && y == E([Or8(y0[0], Flags(addLen, tagLen, q))] + middle + BeBytes(plaintextLen, q))
    }

    /** Lengths set right after the nonce. */
    lemma NonceThenLengths(y0: Block, len: nat)
      requires NonceLength(|nonce|) && q == 15 - |nonce| && y0[..16 - q] == [0] + nonce && ctr == CounterBlock(nonce, 1)
      requires Sane() && started && lengthsSet && !error && !authStarted && !authFinished && ad == [] && msg == [] && processed == 0
      requires LengthsFit(mode, tagLen, len, q) && FirstBlockMade(y0, y0[1..16 - q], len)
      ensures Running()
    {
      hide Chain, CounterBlock, Or8, Pow256;
      assert y0[..16 - q][1..] == y0[1..16 - q] && y0[..16 - q][0] == 0;
      OrAssoc(Flags(addLen, tagLen, q), 0, 0);
      StartRunning(y0[1..16 - q]);
    }

    // ---- Associated data ------------------------------------------------------------------------

    /** One piece of a block into y, encrypted when the block is full or the data ends. */
    method MixIn(offset: nat, data: seq<Byte>, last: bool)
      requires offset + |data| <= 16
      modifies this`y
      ensures y == Mixed(E, old(y), offset, data, last)
    {
      y := XorAt(y, offset, data);
      if offset + |data| == 16 || last {
        y := E(y);
      }
    }

    /** When update_ad refuses n > 0 more bytes: the failed, the finished and the overlong. */
    ghost predicate AdRefused(n: nat)
      reads this
    {
      error || authFinished || n + (if authStarted then processed else 0) > addLen
    }

    /** What y becomes when add is taken: the length goes in before the first byte. */
    ghost function AdPassed(add: seq<Byte>): Block
      reads this
    {
      AdPass(E, addLen, if authStarted then y else Absorb(E, y, AdField(addLen, [])), processed, add)
    }

    /** mbedtls_ccm_update_ad, in any state. */
    method UpdateAd(add: seq<Byte>) returns (st: Status)
      requires Sane()
      modifies this`y, this`processed, this`authStarted, this`authFinished, this`ad
      ensures Sane()
      ensures st == if error || (add != [] && old(AdRefused(|add|))) then BadInput else Ok
      ensures st != Ok || add == [] ==> unchanged(this)
      ensures st == Ok && add != [] ==>
                authStarted && authFinished == (old(processed) + |add| == addLen)
                && processed == (if authFinished then 0 else old(processed) + |add|) && ad == old(ad) + add
                && y == old(AdPassed(add))
      ensures old(Running()) ==> st == if add != [] && |old(ad)| + |add| > addLen then BadInput else Ok
      ensures old(Running()) ==> Running() && ad == if st == Ok then old(ad) + add else old(ad)
    {
      hide Absorb, Closed, AdPass, FirstBlock, CounterBlock, Chain, AdField, NonceLength, TagLength, Pow256, NextCounter, Flags;
      if error {
        return BadInput;
      }
      if |add| == 0 {
        assert ad + add == ad;
        return Ok;
      }
      if authFinished {
        return BadInput;
      }
      ghost var tracked := Running();
      ghost var x := y;
      if tracked {
        x := E(FirstBlock(nonce, addLen, plaintextLen, tagLen));
        NoMessage(E, nonce, addLen, plaintextLen, tagLen, ad);
      }
      if !authStarted {
        if |add| > addLen {
          return BadInput;
        }
        BeginAd();
      } else {
        if processed + |add| > addLen {
          return BadInput;
        }
      }
      FinishAd(add, x, tracked);
      st := Ok;
    }

    /** The data goes in; with its last byte the counting starts again for the message. */
    method FinishAd(add: seq<Byte>, ghost x: Block, ghost tracked: bool)
      requires add != [] && authStarted && !authFinished
      requires tracked ==> Fixed() && msg == [] && ctr == CounterBlock(nonce, NextCounter(0, plaintextLen))
                           && x == E(FirstBlock(nonce, addLen, plaintextLen, tagLen))
                           && processed == |ad| && |ad| + |add| <= addLen && y == Absorb(E, x, AdField(addLen, ad))
      modifies this`y, this`processed, this`authFinished, this`ad
      ensures authFinished == (old(processed) + |add| == addLen) && ad == old(ad) + add
      ensures processed == (if authFinished then 0 else old(processed) + |add|) && y == AdPass(E, addLen, old(y), old(processed), add)
      ensures tracked ==> Running()
    {
      hide Absorb, Closed, AdPass, FirstBlock, CounterBlock, Chain, AdField, NonceLength, TagLength, Pow256, NextCounter, Running;
      AbsorbAd(add, x, tracked);
      if processed == addLen {
        authFinished := true;
        processed := 0; // for the message
      }
      if tracked {
        RunningAd(x);
      }
    }

    /** The length of the associated data goes into the first two bytes. */
    method BeginAd()
      modifies this`y, this`authStarted
      ensures authStarted && y == Absorb(E, old(y), AdField(addLen, []))
    {
      LengthPrefix(E, y, addLen);
      y := y[0 := Xor8(y[0], addLen / 0x100 % 0x100)];
      y := y[1 := Xor8(y[1], addLen % 0x100)];
      authStarted := true;
    }

    /** The loop over the associated data; in a session that is followed, y stays the chain over it. */
    method AbsorbAd(add: seq<Byte>, ghost x: Block, ghost tracked: bool)
      requires tracked ==> processed == |ad| && |ad| + |add| <= addLen && y == Absorb(E, x, AdField(addLen, ad)) && add != []
      modifies this`y, this`processed, this`ad
      ensures ad == old(ad) + add && processed == old(processed) + |add| && y == AdPass(E, addLen, old(y), old(processed), add)
      ensures tracked ==> y == if |ad| == addLen then Closed(E, x, AdField(addLen, ad)) else Absorb(E, x, AdField(addLen, ad))
    {
      hide Absorb, Closed, AdPass, Mixed;
      var i := 0;
      AdPassEnd(E, addLen, y, processed, add);
      while i < |add|
        invariant 0 <= i <= |add| && ad == old(ad) + add[..i] && processed == old(processed) + i
        invariant AdPass(E, addLen, y, processed, add[i..]) == AdPass(E, addLen, old(y), old(processed), add)
        invariant tracked ==>
                    y == if i > 0 && |ad| == addLen then Closed(E, x, AdField(addLen, ad)) else Absorb(E, x, AdField(addLen, ad))
      {
        var offset := (processed + 2) % 16;
        var useLen := 16 - offset;
        if useLen > |add| - i {
          useLen := |add| - i;
        }
        var piece := add[i..i + useLen];
        ghost var s := AdField(addLen, ad);
        assert s + piece == AdField(addLen, ad + piece);
        assert old(ad) + add[..i] + piece == old(ad) + add[..i + useLen];
        AdPassNext(E, addLen, y, processed, add, i, useLen);
        processed := processed + useLen;
        if tracked {
          AbsorbOrClose(E, x, s, piece, processed == addLen);
        }
        MixIn(offset, piece, processed == addLen);
        ad := ad + piece;
        i := i + useLen;
      }
      assert add[..i] == add && add[i..] == [];
      AdPassEnd(E, addLen, y, processed, add);
    }

    // ---- Payload -----------------------------------------------------------------------------------

    /** mbedtls_ccm_crypt: the input combined with the encrypted counter block, from offset on. */
    method Crypt(offset: nat, input: seq<Byte>) returns (output: seq<Byte>)
      requires offset + |input| <= 16
      ensures output == Xor(input, E(ctr)[offset..])
    {
      var tmp := E(ctr);
      output := Xor(input, tmp[offset..]);
    }

    /** The increment of the counter field. */
    method NextBlock()
      requires q <= 8
      modifies this`ctr
      ensures ctr == Bumped(old(ctr), q)
    {
      var i := 0;
      IncStart(ctr, q);
      while i < q
        invariant 0 <= i <= q && CarriedSoFar(ctr, old(ctr), q, i)
      {
        IncNext(ctr, old(ctr), q, i);
        ctr := ctr[15 - i := (ctr[15 - i] as int + 1) % 0x100];
        if ctr[15 - i] != 0 {
          return;
        }
        i := i + 1;
      }
      IncWrapped(ctr, old(ctr), q);
    }

    /** MAC and key stream for a piece, in the order of the mode. */
    method Process(input: seq<Byte>, offset: nat, last: bool, ghost xa: Block, ghost tracked: bool) returns (output: seq<Byte>)
      requires input != [] && offset + |input| <= 16
      requires tracked ==> NonceLength(|nonce|) && offset == |msg| % 16
                           && y == Absorb(E, xa, msg) && ctr == CounterBlock(nonce, 1 + |msg| / 16)
      modifies this`y, this`msg
      ensures output == Xor(input, E(ctr)[offset..]) && msg == old(msg) + if mode.Encrypts() then input else output
      ensures y == Mixed(E, old(y), offset, if mode.Encrypts() then input else output, last)
      ensures tracked ==> output == CtrCrypt(E, nonce, |old(msg)|, input)
      ensures tracked ==> y == if last then Closed(E, xa, msg) else Absorb(E, xa, msg)
    {
      hide Absorb, Closed, CounterBlock, KeyByte, CtrCrypt, NonceLength, XorAt, Xor;
      if tracked {
        PieceKey(E, nonce, |msg|, input);
      }
      if mode.Encrypts() {
        if tracked {
          AbsorbOrClose(E, xa, msg, input, last);
        }
        MixIn(offset, input, last);
        output := Crypt(offset, input);
        msg := msg + input;
      } else {
        output := Crypt(offset, input);
        if tracked {
          AbsorbOrClose(E, xa, msg, output, last);
        }
        MixIn(offset, output, last);
        msg := msg + output;
      }
    }

    /** The counter moves on when a block is finished. */
    method Advance(offset: nat, k: nat, last: bool, ghost n: nat, ghost tracked: bool)
      requires q <= 8
      requires tracked ==> NonceLength(|nonce|) && q == 15 - |nonce| && ctr == CounterBlock(nonce, 1 + n / 16)
                           && offset == n % 16 && k > 0 && offset + k <= 16 && last == (n + k == plaintextLen)
                           && (n == plaintextLen ==> n == 0)
      modifies this`ctr
      ensures ctr == if offset + k == 16 || last then Bumped(old(ctr), q) else old(ctr)
      ensures tracked ==> ctr == CounterBlock(nonce, NextCounter(n + k, plaintextLen))
    {
      hide CounterBlock, NextCounter;
      if tracked {
        AfterPiece(n, k, plaintextLen);
      }
      if offset + k == 16 || last {
        if tracked {
          CounterField(nonce, 1 + n / 16);
        }
        NextBlock();
      }
    }

    /** A session whose associated data is complete: its payload is followed. */
    ghost predicate Following()
      reads this
    {
      Running() && |ad| == addLen
    }

    /** A piece of the payload that stays within one block. */
    method Piece(input: seq<Byte>, ghost tracked: bool) returns (output: seq<Byte>)
      requires Sane() && input != [] && processed % 16 + |input| <= 16
      requires tracked ==> Following() && (tagLen > 0 ==> |msg| + |input| <= plaintextLen)
      modifies this`y, this`ctr, this`processed, this`msg
      ensures Sane() && processed == old(processed) + |input| && |output| == |input|
      ensures Flow(y, ctr, output) == PiecePass(E, mode.Encrypts(), q, plaintextLen, Flow(old(y), old(ctr), []), old(processed), input)
      ensures msg == old(msg) + if mode.Encrypts() then input else output
      ensures tracked ==> Following() && output == CtrCrypt(E, nonce, |old(msg)|, input)
    {
      hide Absorb, Closed, FirstBlock, CounterBlock, NextCounter, AdChain, CtrCrypt, NonceLength, TagLength, Pow256, Flags,
           Mixed, Bumped, Xor;
      var offset := processed % 16;
      ghost var xa, n := y, |msg|;
      if tracked {
        xa := AdChain(E, E(FirstBlock(nonce, addLen, plaintextLen, tagLen)), addLen, ad);
        BeforePiece(E, xa, plaintextLen, msg, input, tagLen);
      }
      processed := processed + |input|;
      var last := processed == plaintextLen;
      output := Process(input, offset, last, xa, tracked);
      Advance(offset, |input|, last, n, tracked);
      if tracked {
        RunningMsg(xa);
      }
    }

    lemma RunningFacts()
      requires Following()
      ensures processed == |msg| && NonceLength(|nonce|) && Sane() && !error
    {
    }

    /** When update refuses n bytes for a buffer of size bytes. */
    ghost predicate Refused(n: nat, size: nat)
      reads this
    {
      error || (tagLen > 0 && processed + n > plaintextLen) || size < n
    }

    /** y, counter block and output when input is taken after out was put out. */
    ghost function Passed(out: seq<Byte>, input: seq<Byte>): Flow
      requires Sane()
      reads this
    {
      Pass(E, mode.Encrypts(), q, plaintextLen, Flow(y, ctr, out), processed, input)
    }

    lemma NothingLeft(out: seq<Byte>)
      requires Sane()
      ensures Passed(out, []) == Flow(y, ctr, out)
    {
    }

    /** mbedtls_ccm_update, in any state. */
    method Update(input: seq<Byte>, output: array<Byte>) returns (st: Status, outputLen: nat)
      requires Sane()
      modifies this`y, this`ctr, this`processed, this`msg, output
      ensures Sane() && st == if old(Refused(|input|, output.Length)) then BadInput else Ok
      ensures st != Ok ==> unchanged(this) && unchanged(output)
      ensures st == Ok ==> outputLen == |input| <= output.Length && processed == old(processed) + |input|
                           && msg == old(msg) + if mode.Encrypts() then input else output[..|input|]
      ensures st == Ok ==> Flow(y, ctr, output[..|input|]) == old(Passed([], input))
      ensures old(Following()) ==>
                Following() && st == (if (tagLen > 0 && |old(msg)| + |input| > plaintextLen) || output.Length < |input| then BadInput else Ok)
                && (st == Ok ==> output[..|input|] == CtrCrypt(E, nonce, |old(msg)|, input))
      ensures forall k :: |input| <= k < output.Length ==> output[k] == old(output[k])
    {
      hide Running, CtrCrypt, NonceLength, Following, Passed, Sane, Mode.Encrypts;
      ghost var tracked := Following();
      if tracked {
        RunningFacts();
        CtrNothing(E, nonce, |msg|);
      }
      if error {
        return BadInput, 0;
      }
      if tagLen != 0 && processed + |input| > plaintextLen {
        return BadInput, 0;
      }
      if output.Length < |input| {
        return BadInput, 0;
      }
      outputLen := |input|;
      st := Ok;
      var i := 0;
      ghost var n, m0, o0, p0, outs: seq<Byte> := |msg|, msg, output[..], processed, [];
      assert input[..0] == [];
      assert input[0..] == input;
      while i < |input|
        invariant 0 <= i <= |input| && Sane() && |msg| == n + i && processed == p0 + i
        invariant Passed(outs, input[i..]) == old(Passed([], input))
        invariant output[..i] == outs && output[i..] == o0[i..]
        invariant msg == m0 + if mode.Encrypts() then input[..i] else outs
        invariant tracked ==> Following() && outs == CtrCrypt(E, nonce, n, input[..i])
      {
        ghost var k, out := i, [];
        i, out := UpdatePiece(input, i, output, outs, tracked);
        assert input[..k] + input[k..i] == input[..i];
        if tracked {
          CtrSplit(E, nonce, n, input[..k], input[k..i]);
        }
        assert m0 + outs + out == m0 + (outs + out) && m0 + input[..k] + input[k..i] == m0 + (input[..k] + input[k..i]);
        outs := outs + out;
      }
      NothingLeft(outs);
      assert input[..i] == input && input[i..] == [];
      assert output[i..] == o0[i..];
    }

    /** One round of the loop: at most to the end of the current block. */
    method UpdatePiece(input: seq<Byte>, i: nat, output: array<Byte>, ghost outs: seq<Byte>, ghost tracked: bool)
      returns (next: nat, ghost out: seq<Byte>)
      requires Sane() && i < |input| <= output.Length
      requires tracked ==> Following() && (tagLen > 0 ==> |msg| + |input| - i <= plaintextLen)
      modifies this`y, this`ctr, this`processed, this`msg, output
      ensures i < next <= |input| && Sane() && processed == old(processed) + (next - i) && |out| == next - i
      ensures Passed(outs + out, input[next..]) == old(Passed(outs, input[i..]))
      ensures msg == old(msg) + if mode.Encrypts() then input[i..next] else out
      ensures tracked ==> Following() && out == CtrCrypt(E, nonce, |old(msg)|, input[i..next])
      ensures output[..next] == old(output[..i]) + out && output[next..] == old(output[next..])
    {
      hide Running, CtrCrypt, NonceLength, Following, PiecePass, Pass;
      if tracked {
        RunningFacts();
      }
      var offset := processed % 16;
      var useLen := 16 - offset;
      if useLen > |input| - i {
        useLen := |input| - i;
      }
      next := i + useLen;
      var piece := Piece(input[i..next], tracked);
      CopyOut(output, i, piece);
      out := piece;
      PassNext(E, mode.Encrypts(), q, plaintextLen, Flow(old(y), old(ctr), outs), old(processed), input, i, next, Flow(y, ctr, out));
    }

    // ---- The tag -----------------------------------------------------------------------------------

    /** mbedtls_ccm_clear_state. */
    method ClearState()
      requires Sane()
      modifies this`started, this`lengthsSet, this`authStarted, this`authFinished, this`error, this`y, this`ctr, this`ad, this`msg
      ensures Clear()
    {
      started, lengthsSet, authStarted, authFinished, error := false, false, false, false, false;
      y, ctr := Zeros(16), Zeros(16);
      ad, msg := [], [];
    }

    /** What the two completeness tests of finish mean in a running session. */
    lemma CompleteOrNot()
      requires Running()
      ensures (addLen > 0 && !authFinished) == (|ad| < addLen)
      ensures |ad| <= addLen && (|ad| == addLen ==> processed == |msg|)
      ensures NonceLength(|nonce|) && TagLength(tagLen) && (tagLen > 0 ==> |msg| <= plaintextLen)
    {
    }

    /** All data in: y masked with the encrypted block 0 is the authentication value. */
    lemma MaskedMac()
      requires Running() && tagLen > 0 && |ad| == addLen && |msg| == plaintextLen
      ensures NonceLength(|nonce|) && TagLength(tagLen)
      ensures Xor(y, E(ctr[..16 - q] + Zeros(q))[0..]) == RfcTag(E, nonce, ad, msg, tagLen)
    {
      hide Chain, RfcMac, NonceLength, TagLength, Zeros;
      ChainIsMac(E, nonce, tagLen, ad, msg);
      ResetField(ctr, nonce, NextCounter(|msg|, plaintextLen));
    }

    /** mbedtls_ccm_finish, in any state. */
    method Finish(tLen: nat) returns (st: Status, tag: seq<Byte>)
      requires Sane() && tLen <= 16
      modifies this
      ensures st == if old(error) then Corrupted
                    else if (old(addLen) > 0 && !old(authFinished)) || (old(plaintextLen) > 0 && old(processed) != old(plaintextLen))
                    then BadInput else Ok
      ensures st != Ok ==> unchanged(this) && tag == []
      ensures st == Ok ==> Clear() && tag == Xor(old(y), E(old(ctr[..16 - q]) + Zeros(old(q))))[..tLen]
      ensures old(Running()) ==>
                st == if |old(ad)| < old(addLen) || (old(plaintextLen) > 0 && |old(msg)| != old(plaintextLen)) then BadInput else Ok
      ensures old(Running()) && st == Ok && old(tagLen) > 0 ==>
                tag == RfcTag(E, old(nonce), old(ad), old(msg), old(tagLen))[..tLen]
    {
      hide RfcTag, Running, NonceLength, TagLength, Zeros, Xor;
      StateIsSane();
      if Running() {
        CompleteOrNot();
      }
      if error {
        return Corrupted, [];
      }
      if addLen > 0 && !authFinished {
        return BadInput, [];
      }
      if plaintextLen > 0 && processed != plaintextLen {
        return BadInput, [];
      }
      if Running() && tagLen > 0 {
        MaskedMac();
      }
      ctr := ctr[..16 - q] + Zeros(q);
      y := Crypt(0, y);
      tag := y[..tLen];
      ClearState();
      st := Ok;
    }

    /** Payload may be taken before the announced associated data is complete; finish refuses as long as it is not. */
    method PayloadTooEarly(input: seq<Byte>, output: array<Byte>, tLen: nat) returns (st: Status, tag: seq<Byte>)
      requires Running() && |ad| < addLen && tLen <= 16
      modifies this, output
      ensures st == BadInput && tag == []
    {
      StateIsSane();
      var taken, outputLen := Update(input, output);
      st, tag := Finish(tLen);
    }

    // ---- One-shot use ----------------------------------------------------------------------------------

    /** The conditions under which a whole message is accepted. */
    static predicate Accepted(m: Mode, ivLen: nat, adLen: nat, len: nat, tLen: nat) {
      NonceLength(ivLen) && TagLength(tLen) && adLen < 0xFF00 && LengthsFit(m, tLen, len, 15 - ivLen)
    }

    /** What a caller has to give: with a tag any mode and a length that fits its field, without one CCM* only. */
    static lemma AcceptedMeans(m: Mode, ivLen: nat, adLen: nat, len: nat, tLen: nat)
      ensures Accepted(m, ivLen, adLen, len, tLen) <==>
                7 <= ivLen <= 13 && adLen < 0xFF00
                && if tLen == 0 then m == StarEncrypt || m == StarDecrypt
                   else tLen in {4, 6, 8, 10, 12, 14, 16} && len < Arith.Pow(256, 15 - ivLen)
    {
      if ivLen <= 15 {
        PowersOf256(15 - ivLen);
      }
    }

    /** ccm_auth_crypt. */
    method AuthCrypt(m: Mode, iv: seq<Byte>, add: seq<Byte>, input: seq<Byte>, output: array<Byte>, tLen: nat)
      returns (st: Status, tag: seq<Byte>)
      requires (Clear() || HasNonce()) && output.Length == |input|
      modifies this, output
      ensures st == if Accepted(m, |iv|, |add|, |input|, tLen) then Ok else BadInput
      ensures 7 <= |iv| <= 13 && |add| < 0xFF00 && tLen == 0 ==> (st == Ok <==> m == StarEncrypt || m == StarDecrypt)
      ensures 7 <= |iv| <= 13 && |add| < 0xFF00 && tLen in {4, 6, 8, 10, 12, 14, 16} ==>
                (st == Ok <==> |input| < Arith.Pow(256, 15 - |iv|))
      ensures st == Ok ==> Clear() && output[..] == CtrCrypt(E, iv, 0, input) && |tag| == tLen
      ensures st == Ok && tLen > 0 ==>
                tag == RfcTag(E, iv, add, if m.Encrypts() then input else output[..], tLen)[..tLen]
    {
      hide RfcTag, CtrCrypt, Running, HasNonce, HasLengths, Clear, NonceLength, LengthsFit, Sane, AdRefused, Refused, Accepted,
           Passed, AdPassed;
      tag := [];
      AcceptedMeans(m, |iv|, |add|, |input|, tLen);
      st := Begin(m, false, iv, |add|, |input|, tLen); // starts, then set_lengths
      if st != Ok {
        return;
      }
      assert ad + add == add;
      StateIsSane();
      st := UpdateAd(add);
      RunningLengths();
      ghost var none := msg;
      var olen;
      st, olen := Update(input, output);
      assert output[..|input|] == output[..];
      assert none + input == input && none + output[..] == output[..];
      st, tag := Finish(tLen);
    }

    lemma RunningLengths()
      requires Running()
      ensures (tagLen == 0 ==> plaintextLen == 0) && NonceLength(|nonce|)
    {
    }

    /** ccm_auth_decrypt: on a wrong tag the output is wiped. */
    method AuthDecrypt(m: Mode, iv: seq<Byte>, add: seq<Byte>, input: seq<Byte>, output: array<Byte>, tag: seq<Byte>)
      returns (st: Status)
      requires Clear() && output.Length == |input| && !m.Encrypts()
      modifies this, output
      ensures st == BadInput <==> !Accepted(m, |iv|, |add|, |input|, |tag|)
      ensures st == Ok <==> Accepted(m, |iv|, |add|, |input|, |tag|) &&
                            (|tag| == 0 || tag == RfcTag(E, iv, add, CtrCrypt(E, iv, 0, input), |tag|)[..|tag|])
      ensures st == Ok ==> output[..] == CtrCrypt(E, iv, 0, input) && Clear()
      ensures st == AuthFailed ==> output[..] == Zeros(|input|) && Clear()
    {
      hide RfcTag, CtrCrypt, Clear, NonceLength, TagLength, LengthsFit, Zeros;
      var check;
      st, check := AuthCrypt(m, iv, add, input, output, |tag|);
      if st != Ok {
        return;
      }
      var diff := false;
      for i := 0 to |tag|
        invariant diff <==> tag[..i] != check[..i]
      {
        assert tag[..i + 1] == tag[..i] + [tag[i]] && check[..i + 1] == check[..i] + [check[i]];
        diff := diff || tag[i] != check[i];
      }
      assert tag[..|tag|] == tag && check[..|tag|] == check;
      if diff {
        Wipe(output);
        st := AuthFailed;
      }
    }

    /** What encryption produced, decryption accepts and turns back. */
    method EncryptThenDecrypt(star: bool, iv: seq<Byte>, add: seq<Byte>, plain: seq<Byte>, tLen: nat)
      returns (st: Status, decrypted: seq<Byte>)
      requires Clear()
      modifies this
      ensures st == Ok <==> Accepted(if star then StarEncrypt else CcmEncrypt, |iv|, |add|, |plain|, tLen)
      ensures st == Ok ==> decrypted == plain
    {
      hide RfcTag, CtrCrypt, Clear, NonceLength, TagLength;
      decrypted := [];
      var cipher := new Byte[|plain|];
      var tag;
      st, tag := AuthCrypt(if star then StarEncrypt else CcmEncrypt, iv, add, plain, cipher, tLen);
      if st != Ok {
        return;
      }
      AcceptedNonce(|iv|, |add|, |plain|, tLen, star);
      CtrInverse(E, iv, 0, plain);
      var output := new Byte[|plain|];
      st := AuthDecrypt(if star then StarDecrypt else CcmDecrypt, iv, add, cipher[..], output, tag);
      decrypted := output[..];
    }

    /** A whole streaming run: either order of the first two calls, any split of both inputs. */
    method Stream(m: Mode, lengthsFirst: bool, iv: seq<Byte>, adParts: seq<seq<Byte>>, parts: seq<seq<Byte>>, tLen: nat)
      returns (st: Status, output: seq<Byte>, tag: seq<Byte>)
      requires Clear()
      modifies this
      ensures st == if Accepted(m, |iv|, |Joined(adParts)|, |Joined(parts)|, tLen) then Ok else BadInput
      ensures 7 <= |iv| <= 13 && |Joined(adParts)| < 0xFF00 && tLen == 0 ==> (st == Ok <==> m == StarEncrypt || m == StarDecrypt)
      ensures 7 <= |iv| <= 13 && |Joined(adParts)| < 0xFF00 && tLen in {4, 6, 8, 10, 12, 14, 16} ==>
                (st == Ok <==> |Joined(parts)| < Arith.Pow(256, 15 - |iv|))
      ensures st == Ok ==> Clear() && output == CtrCrypt(E, iv, 0, Joined(parts)) && |tag| == tLen
      ensures st == Ok && tLen > 0 ==>
                tag == RfcTag(E, iv, Joined(adParts), if m.Encrypts() then Joined(parts) else output, tLen)[..tLen]
    {
      hide RfcTag, CtrCrypt, Running, HasNonce, HasLengths, Clear, Sane, NonceLength, LengthsFit, Joined, Accepted;
      output, tag := [], [];
      AcceptedMeans(m, |iv|, |Joined(adParts)|, |Joined(parts)|, tLen);
      st := Begin(m, lengthsFirst, iv, |Joined(adParts)|, |Joined(parts)|, tLen);
      if st != Ok {
        return;
      }
      RunningLengths();
      FeedAd(adParts);
      output := FeedPayload(parts);
      StateIsSane();
      st, tag := Finish(tLen);
    }

    method Begin(m: Mode, lengthsFirst: bool, iv: seq<Byte>, adLen: nat, len: nat, tLen: nat) returns (st: Status)
      requires Clear() || (HasNonce() && !lengthsFirst)
      modifies this
      ensures st == if Accepted(m, |iv|, adLen, len, tLen) then Ok else BadInput
      ensures st == Ok ==> Running() && nonce == iv && mode == m && ad == [] && msg == []
                           && addLen == adLen && tagLen == tLen && plaintextLen == if tLen == 0 then 0 else len
    {
      hide Running, HasNonce, HasLengths, Clear, Sane, NonceLength, TagLength, LengthsFit, FirstBlockMade;
      StateIsSane();
      if lengthsFirst {
        st := SetLengths(adLen, len, tLen);
        if st == Ok {
          StateIsSane();
          st := Starts(m, iv);
        }
      } else {
        st := Starts(m, iv);
        if st == Ok {
          StateIsSane();
          st := SetLengths(adLen, len, tLen);
        }
      }
    }

    method FeedAd(adParts: seq<seq<Byte>>)
      requires Running() && ad == [] && msg == [] && |Joined(adParts)| == addLen
      modifies this
      ensures Running() && ad == Joined(adParts) && msg == [] && nonce == old(nonce) && mode == old(mode)
      ensures addLen == old(addLen) && plaintextLen == old(plaintextLen) && tagLen == old(tagLen)
    {
      hide Running, Joined, Sane, AdRefused, AdPassed;
      StateIsSane();
      JoinedNothing(adParts);
      for i := 0 to |adParts|
        invariant Sane() && Running() && ad == Joined(adParts[..i]) && msg == [] && nonce == old(nonce) && mode == old(mode)
        invariant addLen == old(addLen) && plaintextLen == old(plaintextLen) && tagLen == old(tagLen)
      {
        JoinedNext(adParts, i);
        var st := UpdateAd(adParts[i]);
      }
      assert adParts[..|adParts|] == adParts;
    }

    method FeedPayload(parts: seq<seq<Byte>>) returns (output: seq<Byte>)
      requires Running() && NonceLength(|nonce|) && |ad| == addLen && msg == []
      requires tagLen > 0 ==> |Joined(parts)| == plaintextLen
      modifies this
      ensures Running() && ad == old(ad) && nonce == old(nonce) && mode == old(mode)
      ensures addLen == old(addLen) && plaintextLen == old(plaintextLen) && tagLen == old(tagLen)
      ensures output == CtrCrypt(E, nonce, 0, Joined(parts)) && msg == if mode.Encrypts() then Joined(parts) else output
    {
      hide Running, Joined, CtrCrypt, NonceLength, Sane, Refused, Passed;
      StateIsSane();
      JoinedNothing(parts);
      CtrNothing(E, nonce, 0);
      output := [];
      for i := 0 to |parts|
        invariant Sane() && Running() && ad == old(ad) && nonce == old(nonce) && mode == old(mode)
        invariant addLen == old(addLen) && plaintextLen == old(plaintextLen) && tagLen == old(tagLen)
        invariant output == CtrCrypt(E, nonce, 0, Joined(parts[..i]))
        invariant msg == if mode.Encrypts() then Joined(parts[..i]) else output
      {
        JoinedNext(parts, i);
        var buffer := new Byte[|parts[i]|];
        CtrSplit(E, nonce, 0, Joined(parts[..i]), parts[i]);
        var st, olen := Update(parts[i], buffer);
        assert buffer[..|parts[i]|] == buffer[..];
        output := output + buffer[..];
      }
      assert parts[..|parts|] == parts;
    }
  }

  /** The pieces of a stream, in order. */
  function Joined(parts: seq<seq<Byte>>): seq<Byte> {
    if parts == [] then [] else Joined(parts[..|parts| - 1]) + parts[|parts| - 1]
  }

  lemma JoinedNothing(parts: seq<seq<Byte>>)
    ensures Joined(parts[..0]) == []
  {
  }

  lemma {:induction false} JoinedNext(parts: seq<seq<Byte>>, i: nat)
    requires i < |parts|
    ensures Joined(parts[..i + 1]) == Joined(parts[..i]) + parts[i]
    ensures |Joined(parts[..i])| + |parts[i]| <= |Joined(parts)|
    decreases |parts|
  {
    assert parts[..i + 1][..i] == parts[..i];
    if i + 1 < |parts| {
      var rest := parts[..|parts| - 1];
      JoinedNext(rest, i);
      assert rest[..i] == parts[..i] && rest[i] == parts[i];
    } else {
      assert parts[..i + 1] == parts;
    }
  }

  lemma AcceptedNonce(ivLen: nat, adLen: nat, len: nat, tLen: nat, star: bool)
    requires Context.Accepted(if star then StarEncrypt else CcmEncrypt, ivLen, adLen, len, tLen)
    ensures NonceLength(ivLen) && Context.Accepted(if star then StarDecrypt else CcmDecrypt, ivLen, adLen, len, tLen)
  {
  }

  method Wipe(output: array<Byte>)
    modifies output
    ensures output[..] == Zeros(output.Length)
  {
    for i := 0 to output.Length
      invariant forall k :: 0 <= k < i ==> output[k] == 0
    {
      output[i] := 0;
    }
  }

  lemma ResetField(ctr: Block, nonce: seq<Byte>, i: nat)
    requires NonceLength(|nonce|) && ctr == CounterBlock(nonce, i)
    ensures var q := 15 - |nonce|; ctr[..16 - q] + Zeros(q) == CounterBlock(nonce, 0)
  {
    SmallField(15 - |nonce|);
  }

  predicate LengthsFit(m: Mode, t: nat, l: nat, q: nat) {
    if t == 0 then m.Star() else l < Pow256(q)
  }

  /** ((tag_len - 2) / 2) << 3 in size_t, cut to a byte. */
  function TagField(t: nat): Byte {
    (t - 2) % 0x1_0000_0000_0000_0000 / 2 * 8 % 0x100
  }

  /** Or-ing the fields in one after the other sets the flags on top of what was there. */
  lemma FlagFields(y0: Byte, a: nat, t: nat, q: nat)
    requires 2 <= q <= 8 && TagLength(t)
    ensures Or8(Or8(Or8(y0, if a > 0 then 64 else 0), TagField(t)), q - 1) == Or8(y0, Flags(a, t, q))
  {
    hide Or8, OrBits;
    var f: Byte := if a > 0 then 64 else 0;
    OrAssoc(y0, f, TagField(t));
    OrAssoc(y0, Or8(f, TagField(t)), q - 1);
    assert Or8(Or8(f, TagField(t)), q - 1) == Flags(a, t, q) by {
      TagFieldValue(t);
      if t == 0 {
        AllTagBits();
        OrAssoc(TagField(t), 0, 0);
        Disjoint(31, 3, q - 1);
      } else {
        var m := (t - 2) / 2;
        OrAssoc(TagField(t), 0, 0);
        Disjoint(1, 6, 8 * m);
        Disjoint((if a > 0 then 8 else 0) + m, 3, q - 1);
      }
    }
  }

  lemma TagFieldValue(t: nat)
    requires TagLength(t)
    ensures TagField(t) == if t == 0 then 0xF8 else 8 * ((t - 2) / 2)
  {
  }

  lemma Disjoint(x: nat, j: nat, y: nat)
    requires (j == 3 && x < 32 && y < 8) || (j == 6 && x < 4 && y < 64)
    ensures var p := if j == 3 then 8 else 64; x * p + y < 0x100 && Or8(x * p, y) == x * p + y
  {
    hide OrBits;
    SmallPowers();
    OrBitsShifted(x, y, j, 8);
    OrOf(if j == 3 then x * 8 else x * 64, y);
  }

  lemma SmallPowers()
    ensures Arith.Pow2(2) == 4 && Arith.Pow2(3) == 8 && Arith.Pow2(5) == 32 && Arith.Pow2(6) == 64
  {
    assert Arith.Pow2(2) == 4;
    assert Arith.Pow2(4) == 16;
  }

  lemma AllTagBits()
    ensures Or8(64, 0xF8) == 0xF8
  {
    assert OrBits(1, 3, 2) == 3;
    assert OrBits(2, 7, 3) == 7;
    assert OrBits(4, 15, 4) == 15;
    assert OrBits(8, 31, 5) == 31;
    assert OrBits(16, 62, 6) == 62;
    assert OrBits(32, 124, 7) == 124;
    assert OrBits(64, 248, 8) == 248;
    OrOf(64, 0xF8);
  }

  lemma TagBounds(t: nat)
    ensures TagLength(t) <==> !(t == 2 || t > 16 || t % 2 != 0)
  {
  }

  lemma NonceBounds(n: nat)
    ensures NonceLength(n) <==> 7 <= n <= 13
  {
  }

  lemma FirstCounter(ctr: Block, iv: seq<Byte>, q: nat)
    requires NonceLength(|iv|) && q == 15 - |iv| && ctr == ([q - 1] + iv + Zeros(q))[15 := 1]
    ensures ctr == CounterBlock(iv, 1) && NextCounter(0, 0) == 1
  {
    SmallField(q);
    assert ([q - 1] + iv + Zeros(q))[15 := 1] == [q - 1] + iv + Zeros(q)[q - 1 := 1];
  }

  lemma {:induction false} SmallField(q: nat)
    ensures BeBytes(0, q) == Zeros(q)
    ensures q > 0 ==> BeBytes(1, q) == Zeros(q)[q - 1 := 1]
  {
    if q > 0 {
      SmallField(q - 1);
    }
  }

  lemma StartedChain(E: Block -> Block, nonce: seq<Byte>, a: nat, l: nat, t: nat)
    requires NonceLength(|nonce|) && TagLength(t)
    ensures Chain(E, nonce, a, l, t, [], []) == E(FirstBlock(nonce, a, l, t)) && NextCounter(0, l) == 1
  {
    ShortAbsorb(E, E(FirstBlock(nonce, a, l, t)), []);
    var z := E(FirstBlock(nonce, a, l, t));
    assert XorAt(z, 0, []) == z;
  }

  /** i bytes of the length field are written. */
  ghost predicate LengthSoFar(y: Block, y0: Block, l: nat, q: nat, i: nat, left: nat)
    requires i <= q <= 8
  {
    && y[..16 - i] == y0[..16 - i]
    && y[16 - i..] == BeBytes(l, i) && left == l / Pow256(i)
  }

  lemma LengthStart(y: Block, l: nat, q: nat)
    requires q <= 8
    ensures LengthSoFar(y, y, l, q, 0, l)
  {
    FourBytes();
  }

  lemma {:induction false} BeBytesPrepend(l: nat, i: nat)
    ensures BeBytes(l, i + 1) == [l / Pow256(i) % 256] + BeBytes(l, i)
  {
    if i > 0 {
      BeBytesPrepend(l / 256, i - 1);
      Bits.DivDiv(l, 256, Pow256(i - 1));
    } else {
      FourBytes();
    }
  }

  lemma LengthNext(y: Block, y0: Block, l: nat, q: nat, i: nat, left: nat)
    requires i < q <= 8 && LengthSoFar(y, y0, l, q, i, left)
    ensures LengthSoFar(y[15 - i := left % 256], y0, l, q, i + 1, left / 256)
  {
    BeBytesPrepend(l, i);
    Bits.DivDiv(l, Pow256(i), 256);
    var y': Block := y[15 - i := left % 256];
    assert y'[16 - (i + 1)..] == [left % 256] + y[16 - i..];
    assert y'[..16 - (i + 1)] == y[..16 - i][..15 - i] == y0[..16 - i][..15 - i] == y0[..15 - i];
    assert Pow256(i + 1) == Pow256(i) * 256;
  }

  lemma LengthEnd(y: Block, y0: Block, l: nat, q: nat, left: nat)
    requires q <= 8 && LengthSoFar(y, y0, l, q, q, left)
    ensures y == y0[..16 - q] + BeBytes(l, q) && (left == 0 <==> l < Pow256(q))
  {
    assert y == y[..16 - q] + y[16 - q..];
    ZeroQuotient(l, Pow256(q));
  }

  lemma ZeroQuotient(l: nat, p: nat)
    requires p > 0
    ensures l / p == 0 <==> l < p
  {
    if l < p {
      Arith.DivUnique(l, p, 0, l);
    } else {
      PositiveQuotient(l, p);
    }
  }

  lemma PositiveQuotient(l: nat, p: nat)
    requires 0 < p <= l
    ensures l / p >= 1
  {
  }

  lemma NoMessage(E: Block -> Block, nonce: seq<Byte>, a: nat, l: nat, t: nat, ad: seq<Byte>)
    requires NonceLength(|nonce|) && TagLength(t)
    ensures Chain(E, nonce, a, l, t, ad, []) == AdChain(E, E(FirstBlock(nonce, a, l, t)), a, ad)
  {
    var z := AdChain(E, E(FirstBlock(nonce, a, l, t)), a, ad);
    ShortAbsorb(E, z, []);
    assert XorAt(z, 0, []) == z;
  }

  /** The length of the associated data, in its two bytes. */
  lemma LengthPrefix(E: Block -> Block, y: Block, a: nat)
    ensures y[0 := Xor8(y[0], a / 0x100 % 0x100)][1 := Xor8(y[1], a % 0x100)] == Absorb(E, y, AdField(a, []))
  {
    var f := AdField(a, []);
    assert BeBytes(a / 256, 1) == [] + [a / 256 % 256];
    assert f == [a / 0x100 % 0x100, a % 0x100];
    ShortAbsorb(E, y, f);
  }

  /** The last i bytes of the field have carried. */
  ghost predicate CarriedSoFar(ctr: Block, ctr0: Block, q: nat, i: nat)
    requires i <= q <= 8
  {
    && ctr[..16 - i] == ctr0[..16 - i] && ctr[16 - i..] == Zeros(i)
    && Inc(ctr0[16 - q..]) == Inc(ctr0[16 - q..16 - i]) + Zeros(i)
  }

  lemma IncStart(ctr: Block, q: nat)
    requires q <= 8
    ensures CarriedSoFar(ctr, ctr, q, 0)
  {
    assert ctr[16 - q..16] == ctr[16 - q..];
  }

  lemma IncNext(ctr: Block, ctr0: Block, q: nat, i: nat)
    requires i < q <= 8 && CarriedSoFar(ctr, ctr0, q, i)
    ensures var b: int := (ctr[15 - i] as int + 1) % 0x100;
            var ctr': Block := ctr[15 - i := b];
            if b != 0 then ctr' == ctr0[..16 - q] + Inc(ctr0[16 - q..]) else CarriedSoFar(ctr', ctr0, q, i + 1)
  {
    var s := ctr0[16 - q..16 - i];
    assert ctr[15 - i] == ctr0[15 - i] == s[|s| - 1];
    assert s[..|s| - 1] == ctr0[16 - q..15 - i];
    var b: int := (ctr[15 - i] as int + 1) % 0x100;
    var ctr': Block := ctr[15 - i := b];
    assert ctr' == ctr0[..16 - q] + ctr0[16 - q..15 - i] + [b] + Zeros(i);
    if b != 0 {
      assert Inc(s) == ctr0[16 - q..15 - i] + [b];
    } else {
      assert Inc(s) == Inc(ctr0[16 - q..15 - i]) + [0];
      assert [0] + Zeros(i) == Zeros(i + 1);
    }
  }

  lemma IncWrapped(ctr: Block, ctr0: Block, q: nat)
    requires q <= 8 && CarriedSoFar(ctr, ctr0, q, q)
    ensures ctr == ctr0[..16 - q] + Inc(ctr0[16 - q..])
  {
    assert ctr0[16 - q..16 - q] == [];
    assert ctr == ctr[..16 - q] + ctr[16 - q..];
  }

  lemma CounterField(nonce: seq<Byte>, i: nat)
    requires NonceLength(|nonce|)
    ensures var q := 15 - |nonce|; var c := CounterBlock(nonce, i);
            c[..16 - q] + Inc(c[16 - q..]) == CounterBlock(nonce, i + 1)
  {
    var q, c := 15 - |nonce|, CounterBlock(nonce, i);
    IncBeBytes(i, q);
    assert c[16 - q..] == BeBytes(i, q) && c[..16 - q] == [14 - |nonce|] + nonce;
  }

  /** While input is left, no unfinished block has been closed. */
  lemma BeforePiece(E: Block -> Block, xa: Block, l: nat, msg: seq<Byte>, input: seq<Byte>, t: nat)
    requires input != [] && (t == 0 ==> l == 0) && (t > 0 ==> |msg| + |input| <= l)
    ensures MsgChain(E, xa, l, msg) == Absorb(E, xa, msg) && NextCounter(|msg|, l) == 1 + |msg| / 16
    ensures |msg| == l ==> msg == []
  {
  }

  lemma AfterPiece(n: nat, k: nat, l: nat)
    requires k > 0 && n % 16 + k <= 16 && (n == l ==> n == 0)
    ensures NextCounter(n + k, l) == 1 + n / 16 + if n % 16 + k == 16 || n + k == l then 1 else 0
  {
    if n % 16 + k == 16 {
      assert (n + k) / 16 == n / 16 + 1 && (n + k) % 16 == 0;
    } else {
      assert (n + k) / 16 == n / 16 && (n + k) % 16 == n % 16 + k;
    }
  }

  lemma PieceKey(E: Block -> Block, nonce: seq<Byte>, n: nat, input: seq<Byte>)
    requires NonceLength(|nonce|) && n % 16 + |input| <= 16
    ensures Xor(input, E(CounterBlock(nonce, 1 + n / 16))[n % 16..]) == CtrCrypt(E, nonce, n, input)
  {
    hide CounterBlock;
    var s := E(CounterBlock(nonce, 1 + n / 16))[n % 16..];
    forall k | 0 <= k < |input|
      ensures Xor(input, s)[k] == CtrCrypt(E, nonce, n, input)[k]
    {
      assert (n + k) / 16 == n / 16 && (n + k) % 16 == n % 16 + k;
    }
  }

  lemma CtrNothing(E: Block -> Block, nonce: seq<Byte>, n: nat)
    requires NonceLength(|nonce|)
    ensures CtrCrypt(E, nonce, n, []) == []
  {
  }
}
