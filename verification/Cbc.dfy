/** CBC over an arbitrary block permutation: the whole-buffer form (aes.c) and the buffered one (cipher.c). */
module Cbc {
  import opened Bytes
  import opened Blocks
  import opened Paddings

  datatype Operation = Encrypt | Decrypt

  datatype Status = Ok | InvalidLength | FullBlockExpected | InvalidPadding

  // ---- The definition ------------------------------------------------------------------

  function Encrypted(E: Block -> Block, iv: Block, s: seq<Byte>): (c: seq<Byte>)
    requires |s| % 16 == 0
    ensures |c| == |s|
    decreases |s|
  {
    if s == [] then [] else
      var c := E(Xor(s[..16], iv));
      c + Encrypted(E, c, s[16..])
  }

  function Decrypted(D: Block -> Block, iv: Block, c: seq<Byte>): (s: seq<Byte>)
    requires |c| % 16 == 0
    ensures |s| == |c|
    decreases |c|
  {
    if c == [] then [] else Xor(D(c[..16]), iv) + Decrypted(D, c[..16], c[16..])
  }

  lemma {:induction false} CbcInverse(E: Block -> Block, D: Block -> Block, iv: Block, s: seq<Byte>)
    requires |s| % 16 == 0 && forall x: Block :: D(E(x)) == x
    ensures Decrypted(D, iv, Encrypted(E, iv, s)) == s
    decreases |s|
  {
    hide Xor;
    if s != [] {
      var c: Block := E(Xor(s[..16], iv));
      XorTwice(s[..16], iv);
      CbcInverse(E, D, c, s[16..]);
      var r := Encrypted(E, iv, s);
      assert r[..16] == c && r[16..] == Encrypted(E, c, s[16..]);
    }
  }

  /** Block j of s; what comes before block 0 is the vector. */
  function BlockAt(iv: Block, s: seq<Byte>, j: int): Block
    requires -1 <= j && 16 * j + 16 <= |s|
  {
    if j == -1 then iv else s[16 * j..16 * j + 16]
  }

  lemma NextBlockAt(iv: Block, s: seq<Byte>, j: int)
    requires 0 <= j && 16 * j + 16 <= |s|
    ensures BlockAt(iv, s, j) == BlockAt(s[..16], s[16..], j - 1)
  {
    if j > 0 {
      assert s[16..][16 * (j - 1)..16 * j] == s[16 * j..16 * j + 16];
    }
  }

  /** Each ciphertext block is the encryption of its plaintext block combined with the ciphertext block before. */
  lemma {:induction false} ChainedBlocks(E: Block -> Block, iv: Block, s: seq<Byte>, j: nat)
    requires |s| % 16 == 0 && 16 * j + 16 <= |s|
    ensures var c := Encrypted(E, iv, s); BlockAt(iv, c, j) == E(Xor(BlockAt(iv, s, j), BlockAt(iv, c, j - 1)))
    decreases j
  {
    hide Xor;
    var c := Encrypted(E, iv, s);
    assert c[..16] == E(Xor(s[..16], iv)) && c[16..] == Encrypted(E, c[..16], s[16..]);
    NextBlockAt(iv, c, j);
    NextBlockAt(iv, s, j);
    if j > 0 {
      NextBlockAt(iv, c, j - 1);
      ChainedBlocks(E, c[..16], s[16..], j - 1);
      assert BlockAt(s[..16], s[16..], j - 1) == BlockAt(c[..16], s[16..], j - 1);
    }
  }

  /** Each plaintext block is the decryption of its ciphertext block, combined with the ciphertext block before. */
  lemma {:induction false} UnchainedBlocks(D: Block -> Block, iv: Block, c: seq<Byte>, j: nat)
    requires |c| % 16 == 0 && 16 * j + 16 <= |c|
    ensures BlockAt(iv, Decrypted(D, iv, c), j) == Xor(D(BlockAt(iv, c, j)), BlockAt(iv, c, j - 1))
    decreases j
  {
    hide Xor;
    var s := Decrypted(D, iv, c);
    assert s[..16] == Xor(D(c[..16]), iv) && s[16..] == Decrypted(D, c[..16], c[16..]);
    NextBlockAt(iv, s, j);
    NextBlockAt(iv, c, j);
    if j > 0 {
      NextBlockAt(iv, c, j - 1);
      UnchainedBlocks(D, c[..16], c[16..], j - 1);
      assert BlockAt(s[..16], s[16..], j - 1) == BlockAt(c[..16], s[16..], j - 1);
    }
  }

  /** What a run over s in one direction gives. */
  function Crypted(E: Block -> Block, D: Block -> Block, op: Operation, iv: Block, s: seq<Byte>): (r: seq<Byte>)
    requires |s| % 16 == 0
    ensures |r| == |s|
  {
    if op == Encrypt then Encrypted(E, iv, s) else Decrypted(D, iv, s)
  }

  /** The vector a run leaves: the last ciphertext block. */
  function IvAfter(E: Block -> Block, op: Operation, iv: Block, s: seq<Byte>): Block
    requires |s| % 16 == 0
  {
    if s == [] then iv
    else if op == Encrypt then Encrypted(E, iv, s)[|s| - 16..]
    else s[|s| - 16..]
  }

  lemma IvFirst(E: Block -> Block, op: Operation, iv: Block, s: seq<Byte>, c: Block)
    requires |s| % 16 == 0 && s != [] && c == if op == Encrypt then E(Xor(s[..16], iv)) else s[..16]
    ensures IvAfter(E, op, iv, s) == IvAfter(E, op, c, s[16..])
  {
    hide Xor;
    if s[16..] == [] {
      assert s == s[..16];
    }
  }

  lemma CryptedFirst(E: Block -> Block, D: Block -> Block, op: Operation, iv: Block, s: seq<Byte>, c: Block)
    requires |s| % 16 == 0 && s != [] && c == if op == Encrypt then E(Xor(s[..16], iv)) else s[..16]
    ensures Crypted(E, D, op, iv, s) == (if op == Encrypt then c else Xor(D(s[..16]), iv)) + Crypted(E, D, op, c, s[16..])
  {
    hide Xor;
  }

  lemma {:induction false} CryptedConcat(E: Block -> Block, D: Block -> Block, op: Operation, iv: Block, s: seq<Byte>, t: seq<Byte>)
    requires |s| % 16 == 0 && |t| % 16 == 0
    ensures Crypted(E, D, op, iv, s + t) == Crypted(E, D, op, iv, s) + Crypted(E, D, op, IvAfter(E, op, iv, s), t)
    ensures IvAfter(E, op, iv, s + t) == IvAfter(E, op, IvAfter(E, op, iv, s), t)
    decreases |s|
  {
    hide Xor, Crypted, IvAfter;
    if s == [] {
      Empty(E, D, op, iv);
      assert s + t == t;
    } else {
      assert (s + t)[..16] == s[..16] && (s + t)[16..] == s[16..] + t;
      var c: Block := if op == Encrypt then E(Xor(s[..16], iv)) else s[..16];
      CryptedConcat(E, D, op, c, s[16..], t);
      IvFirst(E, op, iv, s, c);
      IvFirst(E, op, iv, s + t, c);
      CryptedFirst(E, D, op, iv, s, c);
      CryptedFirst(E, D, op, iv, s + t, c);
    }
  }

  lemma OneBlock(E: Block -> Block, D: Block -> Block, op: Operation, iv: Block, x: Block)
    ensures Crypted(E, D, op, iv, x) == if op == Encrypt then E(Xor(x, iv)) else Xor(D(x), iv)
    ensures IvAfter(E, op, iv, x) == if op == Encrypt then E(Xor(x, iv)) else x
  {
    hide Xor;
    assert x[..16] == x && x[16..] == [];
  }

  /** mbedtls_aes_crypt_cbc: output goes to position at of the buffer, iv is brought forward. */
  method CryptCbc(E: Block -> Block, D: Block -> Block, op: Operation, iv0: Block, input: seq<Byte>, output: array<Byte>, at: nat)
    returns (st: Status, iv: Block)
    requires at + |input| <= output.Length
    modifies output
    ensures st == if |input| % 16 == 0 then Ok else InvalidLength
    ensures st == Ok ==> iv == IvAfter(E, op, iv0, input)
    ensures st == Ok ==> output[at..at + |input|] == Crypted(E, D, op, iv0, input)
    ensures output[..at] == old(output[..at]) && (st != Ok ==> output[..] == old(output[..]))
  {
    hide Xor, Crypted, IvAfter;
    iv := iv0;
    if |input| % 16 != 0 {
      return InvalidLength, iv;
    }
    var k := 0;
    Empty(E, D, op, iv0);
    assert input[..0] == [] && output[at..at] == [];
    while k < |input|
      invariant 0 <= k <= |input| && k % 16 == 0 && output[..at] == old(output[..at])
      invariant iv == IvAfter(E, op, iv0, input[..k]) && output[at..at + k] == Crypted(E, D, op, iv0, input[..k])
    {
      var x: Block := input[k..k + 16];
      CryptedConcat(E, D, op, iv0, input[..k], x);
      OneBlock(E, D, op, iv, x);
      assert input[..k] + x == input[..k + 16];
      var y := if op == Encrypt then E(Xor(x, iv)) else Xor(D(x), iv);
      iv := if op == Encrypt then y else x;
      StoreBlock(output, at, at + k, y);
      k := k + 16;
    }
    assert input[..k] == input;
    st := Ok;
  }

  method StoreBlock(output: array<Byte>, from: nat, i: nat, y: Block)
    requires from <= i && i + 16 <= output.Length
    modifies output
    ensures output[from..i + 16] == old(output[from..i]) + y && output[..from] == old(output[..from])
  {
    CopyOut(output, i, y);
    assert output[..i + 16][from..] == output[from..i + 16];
  }

  lemma Empty(E: Block -> Block, D: Block -> Block, op: Operation, iv: Block)
    ensures Crypted(E, D, op, iv, []) == [] && IvAfter(E, op, iv, []) == iv
  {
  }

  // ---- The buffered form -----------------------------------------------------------------

  /** How much of n bytes stays in the buffer: with padding, decryption holds the last block back. */
  function Held(op: Operation, p: Padding, n: nat): (h: nat)
    ensures h <= n && h <= 16 && (n - h) % 16 == 0
  {
    if op == Decrypt && p != NoPadding && n > 0 then (n - 1) % 16 + 1 else n % 16
  }

  /** In numbers: an unfinished block always, and when padding has to be checked the last block even if it is full. */
  lemma HeldMeans(n: nat)
    ensures Held(Encrypt, Pkcs7, n) == Held(Encrypt, NoPadding, n) == Held(Decrypt, NoPadding, n) == n % 16
    ensures n > 0 ==> Held(Decrypt, Pkcs7, n) == Held(Decrypt, ZerosPad, n) == (if n % 16 == 0 then 16 else n % 16)
  {
  }

  lemma HeldMore(op: Operation, p: Padding, n: nat, k: nat)
    requires if op == Decrypt && p != NoPadding then k <= 16 - Held(op, p, n) else k < 16 - Held(op, p, n)
    ensures Held(op, p, n + k) == Held(op, p, n) + k
  {
  }

  /** After the cached block is completed, r more bytes leave what the source caches. */
  lemma HeldRest(op: Operation, p: Padding, n: nat, r: nat)
    requires n % 16 == 0 && (op == Decrypt && p != NoPadding ==> r > 0)
    ensures Held(op, p, n + r) == if r > 0 && r % 16 == 0 && op == Decrypt && p != NoPadding then 16 else r % 16
  {
  }

  /** The CBC part of mbedtls_cipher_context_t, for 16-byte blocks. */
  class Context {
    const E: Block -> Block
    const D: Block -> Block
    const operation: Operation
    const padding: Padding
    const data: array<Byte>
    var iv: Block
    var unprocessedLen: nat

    /** The first vector, everything received and everything sent so far. */
    ghost var iv0: Block
    ghost var received: seq<Byte>
    ghost var sent: seq<Byte>

    constructor (e: Block -> Block, d: Block -> Block, op: Operation, p: Padding, v: Block)
      ensures Valid() && fresh(data) && E == e && D == d && operation == op && padding == p
      ensures iv0 == v && received == [] && sent == []
    {
      hide Crypted, IvAfter;
      E, D, operation, padding := e, d, op, p;
      data := new Byte[16];
      iv, iv0, unprocessedLen := v, v, 0;
      received, sent := [], [];
      new;
      Empty(E, D, operation, iv0);
    }

    /** The part of what was received that has been encrypted or decrypted. */
    ghost function Done(): (s: seq<Byte>)
      reads this
      ensures |s| % 16 == 0
    {
      received[..|received| - Held(operation, padding, |received|)]
    }

    ghost predicate Valid()
      reads this, data
    {
      && data.Length == 16 && unprocessedLen == Held(operation, padding, |received|)
      && data[..unprocessedLen] == received[|received| - unprocessedLen..]
      && sent == Crypted(E, D, operation, iv0, Done()) && iv == IvAfter(E, operation, iv0, Done())
    }

    /** Nothing is lost: what was received is sent or still held. */
    lemma Conserved()
      requires Valid()
      ensures |sent| + unprocessedLen == |received| && unprocessedLen <= 16
    {
    }

    /** Without padding, whole blocks leave nothing behind. */
    lemma AllDone()
      requires Valid() && |received| % 16 == 0 && (operation == Encrypt || padding == NoPadding)
      ensures sent == if operation == Encrypt then Encrypted(E, iv0, received) else Decrypted(D, iv0, received)
    {
      hide Encrypted, Decrypted, IvAfter, Held;
      HeldFacts(operation, padding, |received|);
      assert received[..|received| - 0] == received;
    }

    /** memcpy into the buffer. */
    method Keep(at: nat, s: seq<Byte>)
      requires data.Length == 16 && at + |s| <= 16
      modifies data
      ensures data[..at + |s|] == old(data[..at]) + s
    {
      CopyOut(data, at, s);
    }

    /** A run of CBC over whole blocks, appended to the output. */
    method Run(input: seq<Byte>, output: array<Byte>, olen: nat, ghost done: seq<Byte>)
      requires |input| % 16 == 0 && olen + |input| <= output.Length && |done| % 16 == 0
      requires iv == IvAfter(E, operation, iv0, done) && sent == Crypted(E, D, operation, iv0, done)
      modifies this`iv, this`sent, output
      ensures iv == IvAfter(E, operation, iv0, done + input) && sent == Crypted(E, D, operation, iv0, done + input)
      ensures sent == old(sent) + output[olen..olen + |input|] && output[..olen] == old(output[..olen])
    {
      hide Crypted, IvAfter;
      CryptedConcat(E, D, operation, iv0, done, input);
      var st;
      st, iv := CryptCbc(E, D, operation, iv, input, output, olen);
      sent := sent + output[olen..olen + |input|];
    }

    /** Not enough for a block: everything is cached. */
    method KeepAll(input: seq<Byte>)
      requires Valid() && Held(operation, padding, |received| + |input|) == unprocessedLen + |input|
      modifies this`unprocessedLen, this`received, data
      ensures Valid() && received == old(received) + input
    {
      hide Crypted, IvAfter, Held;
      Keep(unprocessedLen, input);
      StillDone(received, input, unprocessedLen, unprocessedLen + |input|);
      unprocessedLen := unprocessedLen + |input|;
      received := received + input;
    }

    /** The cached data first: completed from the input and run through CBC. */
    method Cached(input: seq<Byte>, output: array<Byte>) returns (copyLen: nat, olen: nat)
      requires Valid() && output != data && output.Length >= 16 && |input| >= 16 - unprocessedLen
      modifies this`iv, this`unprocessedLen, this`sent, data, output
      ensures copyLen == (if old(unprocessedLen) != 0 then 16 - old(unprocessedLen) else 0) && unprocessedLen == 0
      ensures olen == if old(unprocessedLen) != 0 then 16 else 0
      ensures (|received| + copyLen) % 16 == 0 && copyLen <= |input|
      ensures iv == IvAfter(E, operation, iv0, (received + input)[..|received| + copyLen])
      ensures sent == Crypted(E, D, operation, iv0, (received + input)[..|received| + copyLen])
      ensures sent == old(sent) + output[..olen]
    {
      hide Crypted, IvAfter;
      copyLen, olen := 0, 0;
      ghost var h := unprocessedLen;
      if unprocessedLen != 0 {
        copyLen := 16 - unprocessedLen;
        Keep(unprocessedLen, input[..copyLen]);
        var block := data[..16];
        Run(block, output, 0, Done());
        olen := 16;
        unprocessedLen := 0;
      }
      Consumed(received, input, h, copyLen);
      assert output[0..olen] == output[..olen];
    }

    /** The incomplete (or held back) last block goes into the buffer. */
    method CacheTail(rest: seq<Byte>, ghost soFar: nat) returns (tail: nat)
      requires data.Length == 16 && unprocessedLen == 0 && soFar % 16 == 0
      requires operation == Decrypt && padding != NoPadding ==> |rest| > 0
      modifies this`unprocessedLen, data
      ensures unprocessedLen == tail == Held(operation, padding, soFar + |rest|) <= 16
      ensures tail <= |rest| && (|rest| - tail) % 16 == 0 && data[..tail] == rest[|rest| - tail..]
    {
      hide Held;
      HeldRest(operation, padding, soFar, |rest|);
      tail := 0;
      if |rest| != 0 {
        tail := |rest| % 16;
        if tail == 0 && operation == Decrypt && padding != NoPadding {
          tail := 16;
        }
        Keep(0, rest[|rest| - tail..]);
        unprocessedLen := unprocessedLen + tail;
      }
    }

    lemma ValidAfter(done: seq<Byte>, tail: nat)
      requires data.Length == 16 && unprocessedLen == tail == Held(operation, padding, |received|)
      requires |done| % 16 == 0 && tail <= |received| && done == received[..|received| - tail]
      requires data[..tail] == received[|received| - tail..]
      requires iv == IvAfter(E, operation, iv0, done) && sent == Crypted(E, D, operation, iv0, done)
      ensures Valid()
    {
      hide Crypted, IvAfter, Held;
    }

    /** The last part of an update: cache the tail, run the full blocks before it. */
    method Remaining(rest: seq<Byte>, output: array<Byte>, olen0: nat, ghost all: seq<Byte>, ghost soFar: nat) returns (olen: nat)
      requires data.Length == 16 && unprocessedLen == 0 && output != data && olen0 + |rest| <= output.Length
      requires soFar % 16 == 0 && soFar + |rest| == |all| && rest == all[soFar..]
      requires operation == Decrypt && padding != NoPadding ==> |rest| > 0
      requires iv == IvAfter(E, operation, iv0, all[..soFar]) && sent == Crypted(E, D, operation, iv0, all[..soFar])
      modifies this`iv, this`unprocessedLen, this`received, this`sent, data, output
      ensures Valid() && received == all
      ensures olen0 <= olen <= output.Length && sent == old(sent) + output[olen0..olen] && output[..olen0] == old(output[..olen0])
    {
      hide Crypted, IvAfter, Held, Valid;
      olen := olen0;
      var tail := CacheTail(rest, soFar);
      var middle := rest[..|rest| - tail];
      ghost var before := all[..soFar];
      received := all;
      MiddleDone(all, rest, soFar, tail);
      if |middle| != 0 {
        Run(middle, output, olen, before);
        olen := olen + |middle|;
      } else {
        assert before + middle == before;
      }
      ValidAfter(before + middle, tail);
    }

    /** The CBC branch of mbedtls_cipher_update, with separate buffers. */
    method Update(input: seq<Byte>, output: array<Byte>) returns (olen: nat)
      requires Valid() && output != data && output.Length >= |input| + 16
      modifies this`iv, this`unprocessedLen, this`received, this`sent, data, output
      ensures Valid() && iv0 == old(iv0) && received == old(received) + input
      ensures olen <= output.Length && sent == old(sent) + output[..olen]
    {
      hide Crypted, IvAfter, Held;
      var ilen := |input|;
      HeldBound(operation, padding, |received|);
      if (operation == Decrypt && padding != NoPadding && ilen <= 16 - unprocessedLen)
         || (operation == Decrypt && padding == NoPadding && ilen < 16 - unprocessedLen)
         || (operation == Encrypt && ilen < 16 - unprocessedLen) {
        HeldMore(operation, padding, |received|, ilen);
        KeepAll(input);
        assert sent == sent + output[..0];
        return 0;
      }
      olen := Process(input, output);
    }

    /** At least one block is complete (or, when the last one is held back, more than one). */
    method Process(input: seq<Byte>, output: array<Byte>) returns (olen: nat)
      requires Valid() && output != data && output.Length >= |input| + 16 && |input| >= 16 - unprocessedLen
      requires operation == Decrypt && padding != NoPadding ==> |input| > 16 - unprocessedLen
      modifies this`iv, this`unprocessedLen, this`received, this`sent, data, output
      ensures Valid() && iv0 == old(iv0) && received == old(received) + input
      ensures olen <= output.Length && sent == old(sent) + output[..olen]
    {
      hide Crypted, IvAfter, Held;
      HeldBound(operation, padding, |received|);
      ghost var all, sent0 := received + input, sent;
      var copyLen, done := Cached(input, output);
      ghost var first := output[..done];
      var rest := input[copyLen..];
      RestOfInput(received, input, copyLen);
      hide Valid;
      olen := Remaining(rest, output, done, all, |received| + copyLen);
      JoinOutput(sent0, first, output[..olen], done);
    }

    // ---- The end of the stream -------------------------------------------------------------------

    /** The CBC branch of mbedtls_cipher_finish. */
    method Finish(output: array<Byte>) returns (st: Status, olen: nat)
      requires Valid() && output != data && output.Length == 16
      modifies this`iv, data, output
      ensures operation == Encrypt && padding == NoPadding ==>
                st == (if |received| % 16 == 0 then Ok else FullBlockExpected) && olen == 0
      ensures operation == Encrypt && padding != NoPadding ==>
                st == Ok && olen == 16 && sent + output[..] == Encrypted(E, iv0, PaddedMessage(padding, received))
      ensures operation == Decrypt && padding == NoPadding ==>
                st == (if |received| % 16 == 0 then Ok else FullBlockExpected) && olen == 0
      ensures operation == Decrypt && padding != NoPadding ==>
                (st == FullBlockExpected <==> |received| == 0 || |received| % 16 != 0)
                && (st == Ok || st == InvalidPadding ==> sent + output[..] == Decrypted(D, iv0, received))
                && (st == Ok || st == InvalidPadding ==>
                      Unpadded(padding, output[..], st, olen) && olen == StoredLength(padding, output[..]))
                && (st == FullBlockExpected ==> olen == 0)
      ensures st != InvalidLength && (st == FullBlockExpected ==> output[..] == old(output[..]))
    {
      hide Crypted, IvAfter, Held, PaddedAt, PadBytes, Encrypted, Decrypted;
      HeldFacts(operation, padding, |received|);
      olen := 0;
      if operation == Encrypt {
        if padding == NoPadding {
          return if unprocessedLen != 0 then FullBlockExpected else Ok, 0;
        }
        AddPadding(padding, data, unprocessedLen);
        PaddedSplit(padding, received, unprocessedLen);
        LastRun(output, PadBytes(padding, 16 - |received| % 16));
        return Ok, 16;
      }
      if unprocessedLen != 16 {
        return if padding == NoPadding && unprocessedLen == 0 then Ok else FullBlockExpected, 0;
      }
      WholeSplit(received);
      LastRun(output, []);
      var ok, dataLen := GetPadding(padding, output[..]);
      st := if ok then Ok else InvalidPadding;
      olen := dataLen;
    }

    /** The last block, out of the buffer. */
    method LastRun(output: array<Byte>, ghost pad: seq<Byte>)
      requires data.Length == 16 && output != data && output.Length == 16
      requires iv == IvAfter(E, operation, iv0, Done()) && sent == Crypted(E, D, operation, iv0, Done())
      requires received + pad == Done() + data[..]
      modifies this`iv, output
      ensures |received + pad| % 16 == 0
      ensures sent + output[..] == if operation == Encrypt then Encrypted(E, iv0, received + pad) else Decrypted(D, iv0, received + pad)
    {
      hide IvAfter, Held, Encrypted, Decrypted;
      CryptedConcat(E, D, operation, iv0, Done(), data[..]);
      var st;
      st, iv := CryptCbc(E, D, operation, iv, data[..], output, 0);
      assert output[0..16] == output[..];
    }
  }

  /** A message completed to whole blocks; a whole block of padding when it has none missing. */
  function PaddedMessage(p: Padding, m: seq<Byte>): (s: seq<Byte>)
    requires p != NoPadding
    ensures |s| % 16 == 0
  {
    m + PadBytes(p, 16 - |m| % 16)
  }

  /** What the padding check makes of the last block. */
  ghost predicate Unpadded(p: Padding, last: seq<Byte>, st: Status, olen: nat)
    requires p != NoPadding
  {
    if p == ZerosPad then st == Ok && olen == Trimmed(last)
    else && (st == Ok <==> exists d :: 0 <= d < |last| && PaddedAt(p, last, d))
         && (st == Ok ==> 0 <= olen < |last| && PaddedAt(p, last, olen))
  }

  lemma HeldFacts(op: Operation, p: Padding, n: nat)
    ensures op == Encrypt || p == NoPadding ==> Held(op, p, n) == n % 16 < 16
    ensures op == Decrypt && p != NoPadding ==> (Held(op, p, n) == 16 <==> n > 0 && n % 16 == 0)
  {
  }

  lemma PaddedSplit(p: Padding, r: seq<Byte>, h: nat)
    requires p != NoPadding && h == |r| % 16
    ensures r[..|r| - h] + (r[|r| - h..] + PadBytes(p, 16 - h)) == PaddedMessage(p, r)
  {
    assert r == r[..|r| - h] + r[|r| - h..];
  }

  lemma WholeSplit(r: seq<Byte>)
    requires |r| >= 16
    ensures r[..|r| - 16] + r[|r| - 16..] == r && r + [] == r
  {
  }

  lemma RestOfInput(r: seq<Byte>, input: seq<Byte>, k: nat)
    requires k <= |input|
    ensures (r + input)[|r| + k..] == input[k..]
  {
  }

  lemma JoinOutput(sent: seq<Byte>, first: seq<Byte>, out: seq<Byte>, k: nat)
    requires k <= |out| && out[..k] == first
    ensures sent + first + out[k..] == sent + out
  {
    assert out == out[..k] + out[k..];
  }

  lemma HeldBound(op: Operation, p: Padding, n: nat)
    ensures Held(op, p, n) <= 16 && (n - Held(op, p, n)) % 16 == 0
  {
  }

  /** Keeping everything changes nothing about what is done. */
  lemma StillDone(r: seq<Byte>, input: seq<Byte>, h: nat, h': nat)
    requires h <= |r| && h' == h + |input|
    ensures (r + input)[..|r + input| - h'] == r[..|r| - h]
    ensures (r + input)[|r + input| - h'..] == r[|r| - h..] + input
  {
  }

  /** The cached block completed from the input. */
  lemma Consumed(r: seq<Byte>, input: seq<Byte>, h: nat, k: nat)
    requires h <= |r| && k <= |input|
    ensures (r + input)[..|r| + k] == r[..|r| - h] + (r[|r| - h..] + input[..k])
    ensures (r + input)[..|r|] == r
    ensures h == 0 ==> r[..|r| - h] == r
  {
  }

  lemma MiddleDone(all: seq<Byte>, rest: seq<Byte>, soFar: nat, tail: nat)
    requires soFar + |rest| == |all| && tail <= |rest| && all[soFar..] == rest
    ensures all[..soFar] + rest[..|rest| - tail] == all[..|all| - tail]
    ensures all[|all| - tail..] == rest[|rest| - tail..]
  {
    assert all == all[..soFar] + all[soFar..];
  }

  // ---- Whole runs --------------------------------------------------------------------------------

  /** s goes through Update in pieces of any lengths. */
  method Feed(c: Context, s: seq<Byte>) returns (out: seq<Byte>)
    requires c.Valid()
    modifies c, c.data
    ensures c.Valid() && c.iv0 == old(c.iv0) && c.received == old(c.received) + s && c.sent == old(c.sent) + out
    ensures |c.sent| + c.unprocessedLen == |c.received|
  {
    hide Crypted, IvAfter, Held;
    var i := 0;
    out := [];
    c.Conserved();
    while i < |s|
      invariant 0 <= i <= |s| && c.Valid() && c.iv0 == old(c.iv0)
      invariant c.received == old(c.received) + s[..i] && c.sent == old(c.sent) + out
      invariant |c.sent| + c.unprocessedLen == |c.received|
    {
      var k :| 0 < k <= |s| - i;
      var piece := FeedPiece(c, s[i..i + k]);
      assert s[..i] + s[i..i + k] == s[..i + k];
      out := out + piece;
      i := i + k;
    }
    assert s[..i] == s;
  }

  method FeedPiece(c: Context, s: seq<Byte>) returns (out: seq<Byte>)
    requires c.Valid()
    modifies c, c.data
    ensures c.Valid() && c.iv0 == old(c.iv0) && c.received == old(c.received) + s && c.sent == old(c.sent) + out
    ensures |c.sent| + c.unprocessedLen == |c.received|
  {
    hide Crypted, IvAfter, Held;
    var buffer := new Byte[|s| + 16];
    var olen := c.Update(s, buffer);
    out := buffer[..olen];
    c.Conserved();
  }

  /** A padded message, cut before its last block. */
  lemma CutPadded(p: Padding, m: seq<Byte>, sent: seq<Byte>, last: seq<Byte>, h: nat)
    requires p != NoPadding && |last| == 16 && sent + last == PaddedMessage(p, m) && h == |m| % 16
    ensures m == sent + m[|m| - h..] && last == m[|m| - h..] + PadBytes(p, 16 - h)
  {
    hide PadBytes;
    PaddedSplit(p, m, h);
    var x, y := m[..|m| - h], m[|m| - h..] + PadBytes(p, 16 - h);
    assert |x + y| == |sent + last|;
    assert sent == (sent + last)[..|sent|] && last == (sent + last)[|sent|..];
    assert x == (x + y)[..|x|] && y == (x + y)[|x|..];
    assert m == m[..|m| - h] + m[|m| - h..];
  }

  /** The last block of a padded message gives back the rest of the message. */
  lemma LastBlock(p: Padding, m: seq<Byte>, sent: seq<Byte>, last: seq<Byte>, st: Status, olen: nat)
    requires p != NoPadding && |last| == 16 && sent + last == PaddedMessage(p, m) && Unpadded(p, last, st, olen)
    ensures st == Ok && olen <= 16
    ensures p != ZerosPad ==> sent + last[..olen] == m
    ensures p == ZerosPad ==> (sent + last[..olen] == m <==> |m| % 16 == 0 || m[|m| - 1] != 0)
  {
    hide PadBytes, PaddedMessage;
    var h := |m| % 16;
    CutPadded(p, m, sent, last, h);
    var tail := m[|m| - h..];
    LastPart(p, tail, last, st, olen);
    SameLengthPrefix(sent, tail, last, olen, h);
  }

  lemma LastPart(p: Padding, tail: seq<Byte>, last: seq<Byte>, st: Status, olen: nat)
    requires p != NoPadding && |tail| < 16 && last == tail + PadBytes(p, 16 - |tail|) && Unpadded(p, last, st, olen)
    ensures st == Ok && olen <= 16 && last[..|tail|] == tail
    ensures p != ZerosPad ==> olen == |tail|
    ensures p == ZerosPad ==> (olen == |tail| <==> tail == [] || tail[|tail| - 1] != 0)
  {
    hide PadBytes;
    assert last[..|tail|] == tail && last[|tail|..] == PadBytes(p, 16 - |tail|);
    if p == ZerosPad {
      ZerosRecovered(tail, 16 - |tail|);
    } else {
      assert PaddedAt(p, last, |tail|);
      PaddingUnique(p, last, |tail|, olen);
    }
  }

  lemma SameLengthPrefix(sent: seq<Byte>, tail: seq<Byte>, last: seq<Byte>, olen: nat, h: nat)
    requires |tail| == h <= |last| && olen <= |last| && last[..h] == tail
    ensures sent + last[..olen] == sent + tail <==> olen == h
  {
    assert |sent + last[..olen]| == |sent| + olen && |sent + tail| == |sent| + h;
  }

  method EncryptAll(E: Block -> Block, D: Block -> Block, p: Padding, iv: Block, m: seq<Byte>) returns (st: Status, cipher: seq<Byte>)
    ensures st == if p == NoPadding && |m| % 16 != 0 then FullBlockExpected else Ok
    ensures st == Ok ==> cipher == Encrypted(E, iv, if p == NoPadding then m else PaddedMessage(p, m))
  {
    hide Encrypted, PadBytes, Context.Valid;
    var c := new Context(E, D, Encrypt, p, iv);
    var out := Feed(c, m);
    assert [] + m == m && [] + out == out;
    var output := new Byte[16];
    var olen;
    if p == NoPadding && |m| % 16 == 0 {
      c.AllDone();
    }
    st, olen := c.Finish(output);
    cipher := out + output[..olen];
    if p != NoPadding {
      assert output[..olen] == output[..];
    } else {
      assert out + output[..0] == out;
    }
  }

  method DecryptAll(E: Block -> Block, D: Block -> Block, p: Padding, iv: Block, cipher: seq<Byte>)
    returns (st: Status, plain: seq<Byte>, ghost sent: seq<Byte>, ghost last: seq<Byte>, ghost olen: nat)
    requires |cipher| % 16 == 0 && (p != NoPadding ==> |cipher| > 0)
    ensures p == NoPadding ==> st == Ok && plain == Decrypted(D, iv, cipher)
    ensures p != NoPadding ==> |last| == 16 && sent + last == Decrypted(D, iv, cipher) && Unpadded(p, last, st, olen)
    ensures p != NoPadding && st == Ok ==> olen <= 16 && plain == sent + last[..olen]
  {
    hide Decrypted, PadBytes, Unpadded, Context.Valid;
    var c := new Context(E, D, Decrypt, p, iv);
    var out := Feed(c, cipher);
    assert [] + cipher == cipher && [] + out == out;
    var output := new Byte[16];
    var n;
    if p == NoPadding {
      c.AllDone();
    }
    sent := c.sent;
    st, n := c.Finish(output);
    last, olen := output[..], n;
    if p != NoPadding {
      UnpaddedBound(p, output[..], st, n);
      plain := if st == Ok then out + output[..n] else out;
    } else {
      assert out + output[..0] == out;
      plain := out + output[..n];
    }
  }

  lemma UnpaddedBound(p: Padding, last: seq<Byte>, st: Status, olen: nat)
    requires p != NoPadding && Unpadded(p, last, st, olen)
    ensures st == Ok ==> olen <= |last|
  {
  }

  /** Encrypting in any pieces and decrypting in any pieces gives the message back. */
  method EncryptThenDecrypt(E: Block -> Block, D: Block -> Block, p: Padding, iv: Block, m: seq<Byte>) returns (st: Status, plain: seq<Byte>)
    requires forall x: Block :: D(E(x)) == x
    ensures st == if p == NoPadding && |m| % 16 != 0 then FullBlockExpected else Ok
    ensures st == Ok && p != ZerosPad ==> plain == m
    ensures st == Ok && p == ZerosPad ==> (plain == m <==> |m| % 16 == 0 || m[|m| - 1] != 0)
  {
    hide Encrypted, Decrypted, PadBytes, Unpadded;
    plain := [];
    var cipher;
    st, cipher := EncryptAll(E, D, p, iv, m);
    if st != Ok {
      return;
    }
    CbcInverse(E, D, iv, if p == NoPadding then m else PaddedMessage(p, m));
    ghost var sent, last, olen;
    st, plain, sent, last, olen := DecryptAll(E, D, p, iv, cipher);
    if p != NoPadding {
      LastBlock(p, m, sent, last, st, olen);
    }
  }
}
