/** 16-byte blocks, and the CBC-MAC and counter-mode pieces the cipher modes are built from. */
module Blocks {
  import opened Bytes

  type Block = s: seq<Byte> | |s| == 16 witness seq(16, _ => 0)

  /** The first |a| bytes of b, combined with a. */
  function Xor(a: seq<Byte>, b: seq<Byte>): (r: seq<Byte>)
    requires |a| <= |b|
    ensures |r| == |a|
  {
    seq(|a|, k requires 0 <= k < |a| => Xor8(a[k], b[k]))
  }

  /** s combined into y from position off on. */
  function XorAt(y: Block, off: nat, s: seq<Byte>): Block
    requires off + |s| <= 16
  {
    seq(16, k requires 0 <= k < 16 => if off <= k < off + |s| then Xor8(y[k], s[k - off]) else y[k])
  }

  lemma XorTwice(a: seq<Byte>, b: seq<Byte>)
    requires |a| <= |b|
    ensures Xor(Xor(a, b), b) == a
  {
    forall k | 0 <= k < |a| ensures Xor(Xor(a, b), b)[k] == a[k] {
      XorUndo(a[k], b[k]);
    }
  }

  /** Bytes written into a buffer at position i. */
  method CopyOut(output: array<Byte>, i: nat, out: seq<Byte>)
    requires i + |out| <= output.Length
    modifies output
    ensures output[..i + |out|] == old(output[..i]) + out && output[i + |out|..] == old(output[i + |out|..])
  {
    for k := 0 to |out|
      invariant output[..i] == old(output[..i]) && output[i..i + k] == out[..k]
      invariant output[i + |out|..] == old(output[i + |out|..])
    {
      output[i + k] := out[k];
    }
  }

  // ---- CBC-MAC -------------------------------------------------------------------

  /** The reference chain over whole blocks: each block is combined in, then encrypted. */
  function Fold(E: Block -> Block, x: Block, s: seq<Byte>): Block
    requires |s| % 16 == 0
    decreases |s|
  {
    if s == [] then x else Fold(E, E(XorAt(x, 0, s[..16])), s[16..])
  }

  function Zeros(n: nat): (s: seq<Byte>)
    ensures |s| == n && forall k :: 0 <= k < n ==> s[k] == 0
  {
    seq(n, _ => 0)
  }

  /** Zero padding to a whole number of blocks. */
  function Pad16(s: seq<Byte>): (p: seq<Byte>)
    ensures |p| % 16 == 0 && |p| >= |s| && p[..|s|] == s
  {
    s + Zeros((16 - |s| % 16) % 16)
  }

  /** The streaming chain: bytes of an unfinished block are combined in already. */
  function Absorb(E: Block -> Block, x: Block, s: seq<Byte>): Block
    decreases |s|
  {
    if |s| < 16 then XorAt(x, 0, s) else Absorb(E, E(XorAt(x, 0, s[..16])), s[16..])
  }

  /** The chain once an unfinished block is encrypted as well. */
  function Closed(E: Block -> Block, x: Block, s: seq<Byte>): Block {
    if |s| % 16 == 0 then Absorb(E, x, s) else E(Absorb(E, x, s))
  }

  lemma JoinPieces(y: Block, s: seq<Byte>, t: seq<Byte>)
    requires |s| + |t| <= 16
    ensures XorAt(XorAt(y, 0, s), |s|, t) == XorAt(y, 0, s + t)
  {
  }

  /** Combining t at the position the stream has reached, and encrypting when a block fills up. */
  lemma {:induction false} AbsorbPiece(E: Block -> Block, x: Block, s: seq<Byte>, t: seq<Byte>)
    requires |s| % 16 + |t| <= 16
    ensures Absorb(E, x, s + t) ==
            var y := XorAt(Absorb(E, x, s), |s| % 16, t);
            if |s| % 16 + |t| == 16 then E(y) else y
    decreases |s|
  {
    hide XorAt;
    if |s| >= 16 {
      assert |s[16..]| % 16 == |s| % 16;
      assert (s + t)[..16] == s[..16] && (s + t)[16..] == s[16..] + t;
      AbsorbPiece(E, E(XorAt(x, 0, s[..16])), s[16..], t);
    } else {
      JoinPieces(x, s, t);
      ShortAbsorb(E, x, s);
      ShortAbsorb(E, x, s + t);
    }
  }

  lemma ShortAbsorb(E: Block -> Block, x: Block, s: seq<Byte>)
    requires |s| <= 16
    ensures Absorb(E, x, s) == if |s| == 16 then E(XorAt(x, 0, s)) else XorAt(x, 0, s)
  {
    if |s| == 16 {
      assert s[..16] == s && s[16..] == [];
      var z := E(XorAt(x, 0, s));
      assert XorAt(z, 0, []) == z;
    }
  }

  /** A piece combined into y, which is encrypted when the block is full or the data ends. */
  function Mixed(E: Block -> Block, y: Block, offset: nat, data: seq<Byte>, last: bool): Block
    requires offset + |data| <= 16
  {
    var z := XorAt(y, offset, data);
    if offset + |data| == 16 || last then E(z) else z
  }

  /** A piece that may be the last one: then an unfinished block is encrypted too. */
  lemma AbsorbOrClose(E: Block -> Block, x: Block, s: seq<Byte>, t: seq<Byte>, last: bool)
    requires |t| > 0 && |s| % 16 + |t| <= 16
    ensures Mixed(E, Absorb(E, x, s), |s| % 16, t, last) == if last then Closed(E, x, s + t) else Absorb(E, x, s + t)
  {
    hide Absorb, XorAt;
    AbsorbPiece(E, x, s, t);
  }

  lemma XorPadded(y: Block, s: seq<Byte>)
    requires |s| <= 16
    ensures XorAt(y, 0, s) == XorAt(y, 0, s + Zeros(16 - |s|))
  {
    forall k | |s| <= k < 16 ensures Xor8(y[k], 0) == y[k] {
      XorUndo(y[k], 0);
    }
  }

  lemma ClosedShort(E: Block -> Block, x: Block, s: seq<Byte>)
    requires |s| < 16
    ensures Closed(E, x, s) == Fold(E, x, Pad16(s))
  {
    if s == [] {
      assert Pad16(s) == [];
      assert XorAt(x, 0, s) == x;
      ShortAbsorb(E, x, s);
    } else {
      hide XorAt;
      XorPadded(x, s);
      assert Pad16(s) == s + Zeros(16 - |s|);
      assert Pad16(s)[..16] == Pad16(s) && Pad16(s)[16..] == [];
    }
  }

  /** Closing the stream is the reference chain over the padded string. */
  lemma {:induction false} ClosedIsPadded(E: Block -> Block, x: Block, s: seq<Byte>)
    ensures Closed(E, x, s) == Fold(E, x, Pad16(s))
    decreases |s|
  {
    hide XorAt;
    if |s| < 16 {
      ClosedShort(E, x, s);
    } else {
      var x' := E(XorAt(x, 0, s[..16]));
      assert |s[16..]| % 16 == |s| % 16;
      assert Pad16(s)[..16] == s[..16] && Pad16(s)[16..] == Pad16(s[16..]);
      ClosedIsPadded(E, x', s[16..]);
    }
  }

  lemma {:induction false} FoldConcat(E: Block -> Block, x: Block, s: seq<Byte>, t: seq<Byte>)
    requires |s| % 16 == 0 && |t| % 16 == 0
    ensures Fold(E, x, s + t) == Fold(E, Fold(E, x, s), t)
    decreases |s|
  {
    if s == [] {
      assert s + t == t;
    } else {
      assert (s + t)[..16] == s[..16] && (s + t)[16..] == s[16..] + t;
      FoldConcat(E, E(XorAt(x, 0, s[..16])), s[16..], t);
    }
  }
}
