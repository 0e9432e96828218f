/** Block padding of cipher.c: the writers and the checkers that undo them. */
module Paddings {
  import opened Bytes
  import opened Blocks

  datatype Padding = Pkcs7 | OneAndZeros | ZerosAndLen | ZerosPad | NoPadding

  /** n bytes of padding. */
  function PadBytes(p: Padding, n: nat): (s: seq<Byte>)
    requires p != NoPadding && 0 < n < 256
    ensures |s| == n
  {
    match p
    case Pkcs7 => seq(n, _ => n)
    case OneAndZeros => [0x80] + Zeros(n - 1)
    case ZerosAndLen => Zeros(n - 1) + [n]
    case ZerosPad => Zeros(n)
  }

  /** Byte k of n: the count in every byte; a one bit, then zeros; zeros, then the count; or zeros only. */
  lemma PadByteMeans(n: nat, k: nat)
    requires k < n < 256
    ensures PadBytes(Pkcs7, n)[k] == n
    ensures PadBytes(OneAndZeros, n)[k] == if k == 0 then 0x80 else 0
    ensures PadBytes(ZerosAndLen, n)[k] == if k == n - 1 then n else 0
    ensures PadBytes(ZerosPad, n)[k] == 0
  {
  }

  /** s is data of length d followed by padding. */
  ghost predicate PaddedAt(p: Padding, s: seq<Byte>, d: nat)
    requires p != NoPadding
  {
    d < |s| < 256 && s[d..] == PadBytes(p, |s| - d)
  }

  // ---- What padded strings look like --------------------------------------------------------

  lemma PkcsShape(s: seq<Byte>, d: nat)
    requires PaddedAt(Pkcs7, s, d)
    ensures forall k :: d <= k < |s| ==> s[k] == |s| - d
  {
    forall k | d <= k < |s| ensures s[k] == |s| - d {
      assert s[k] == s[d..][k - d];
    }
  }

  lemma ZerosAndLenShape(s: seq<Byte>, d: nat)
    requires PaddedAt(ZerosAndLen, s, d)
    ensures s[|s| - 1] == |s| - d && forall k :: d <= k < |s| - 1 ==> s[k] == 0
  {
    assert s[|s| - 1] == s[d..][|s| - 1 - d];
    forall k | d <= k < |s| - 1 ensures s[k] == 0 {
      assert s[k] == s[d..][k - d];
    }
  }

  ghost predicate LastNonZero(s: seq<Byte>, d: int) {
    0 <= d < |s| && s[d] != 0 && forall k :: d < k < |s| ==> s[k] == 0
  }

  lemma OneAndZerosShape(s: seq<Byte>, d: nat)
    requires PaddedAt(OneAndZeros, s, d)
    ensures LastNonZero(s, d) && s[d] == 0x80
  {
    assert s[d] == s[d..][0];
    forall k | d < k < |s| ensures s[k] == 0 {
      assert s[k] == s[d..][k - d];
    }
  }

  /** A padding other than plain zeros can start in one place only. */
  lemma PaddingUnique(p: Padding, s: seq<Byte>, d: nat, e: nat)
    requires p != NoPadding && p != ZerosPad && PaddedAt(p, s, d) && PaddedAt(p, s, e)
    ensures d == e
  {
    if p == Pkcs7 {
      PkcsShape(s, d);
      PkcsShape(s, e);
      assert s[|s| - 1] == |s| - d && s[|s| - 1] == |s| - e;
    } else if p == OneAndZeros {
      OneAndZerosShape(s, d);
      OneAndZerosShape(s, e);
    } else {
      ZerosAndLenShape(s, d);
      ZerosAndLenShape(s, e);
    }
  }

  // ---- Writers -------------------------------------------------------------------------

  /** add_pkcs_padding. */
  method AddPkcs(output: array<Byte>, dataLen: nat)
    requires dataLen < output.Length < 256
    modifies output
    ensures output[..] == old(output[..dataLen]) + PadBytes(Pkcs7, output.Length - dataLen)
  {
    var paddingLen := output.Length - dataLen;
    for i := 0 to paddingLen
      invariant output[..dataLen] == old(output[..dataLen])
      invariant forall k :: dataLen <= k < dataLen + i ==> output[k] == paddingLen
    {
      output[dataLen + i] := paddingLen;
    }
  }

  /** add_one_and_zeros_padding. */
  method AddOneAndZeros(output: array<Byte>, dataLen: nat)
    requires dataLen < output.Length < 256
    modifies output
    ensures output[..] == old(output[..dataLen]) + PadBytes(OneAndZeros, output.Length - dataLen)
  {
    var paddingLen := output.Length - dataLen;
    output[dataLen] := 0x80;
    for i := 1 to paddingLen
      invariant output[..dataLen] == old(output[..dataLen]) && output[dataLen] == 0x80
      invariant forall k :: dataLen < k < dataLen + i ==> output[k] == 0
    {
      output[dataLen + i] := 0;
    }
  }

  /** add_zeros_and_len_padding. */
  method AddZerosAndLen(output: array<Byte>, dataLen: nat)
    requires dataLen < output.Length < 256
    modifies output
    ensures output[..] == old(output[..dataLen]) + PadBytes(ZerosAndLen, output.Length - dataLen)
  {
    var paddingLen := output.Length - dataLen;
    for i := 1 to paddingLen
      invariant output[..dataLen] == old(output[..dataLen])
      invariant forall k :: dataLen <= k < dataLen + i - 1 ==> output[k] == 0
    {
      output[dataLen + i - 1] := 0;
    }
    output[output.Length - 1] := paddingLen;
  }

  /** add_zeros_padding. */
  method AddZeros(output: array<Byte>, dataLen: nat)
    requires dataLen < output.Length < 256
    modifies output
    ensures output[..] == old(output[..dataLen]) + PadBytes(ZerosPad, output.Length - dataLen)
  {
    for i := dataLen to output.Length
      invariant output[..dataLen] == old(output[..dataLen])
      invariant forall k :: dataLen <= k < i ==> output[k] == 0
    {
      output[i] := 0;
    }
  }

  method AddPadding(p: Padding, output: array<Byte>, dataLen: nat)
    requires p != NoPadding && dataLen < output.Length < 256
    modifies output
    ensures output[..] == old(output[..dataLen]) + PadBytes(p, output.Length - dataLen)
  {
    match p {
      case Pkcs7 => AddPkcs(output, dataLen);
      case OneAndZeros => AddOneAndZeros(output, dataLen);
      case ZerosAndLen => AddZerosAndLen(output, dataLen);
      case ZerosPad => AddZeros(output, dataLen);
    }
  }

  // ---- Checkers --------------------------------------------------------------------------

  /** The range of size_t, for lengths that wrap. */
  const SIZE_RANGE: int := 0x1_0000_0000_0000_0000

  /** The length of s without the zeros at its end. */
  function Trimmed(s: seq<Byte>): (n: nat)
    ensures n <= |s| && (n > 0 ==> s[n - 1] != 0) && forall k :: n <= k < |s| ==> s[k] == 0
  {
    if s == [] then 0 else if s[|s| - 1] != 0 then |s| else Trimmed(s[..|s| - 1])
  }

  /** The data length a checker stores before it has a verdict, and leaves stored when the padding is bad. */
  function StoredLength(p: Padding, input: seq<Byte>): nat
    requires input != []
  {
    match p
    case Pkcs7 | ZerosAndLen => (|input| - input[|input| - 1]) % 0x1_0000_0000_0000_0000
    case OneAndZeros => if Trimmed(input) == 0 then 0 else Trimmed(input) - 1
    case ZerosPad => Trimmed(input)
    case NoPadding => |input|
  }

  /** get_pkcs_padding: every byte is looked at, whatever the padding length. */
  method GetPkcs(input: seq<Byte>) returns (ok: bool, dataLen: nat)
    requires 0 < |input| < 256
    ensures ok <==> exists d :: 0 <= d < |input| && PaddedAt(Pkcs7, input, d)
    ensures ok ==> 0 <= dataLen < |input| && PaddedAt(Pkcs7, input, dataLen)
    ensures dataLen == StoredLength(Pkcs7, input)
  {
    var n := |input|;
    var paddingLen: int := input[n - 1];
    dataLen := (n - paddingLen) % SIZE_RANGE;
    var bad := paddingLen > n;
    bad := bad || paddingLen == 0;
    var padIdx := (n - paddingLen) % SIZE_RANGE;
    for i := 0 to n
      invariant bad <==> paddingLen > n || paddingLen == 0 || exists k :: padIdx <= k < i && input[k] != paddingLen
    {
      bad := bad || (i >= padIdx && input[i] != paddingLen);
    }
    ok := !bad;
    PkcsChecked(input, paddingLen, ok);
  }

  /** A length that does not wrap. */
  lemma NoWrap(n: nat, p: nat)
    requires p <= n < 256
    ensures (n - p) % SIZE_RANGE == n - p
  {
  }

  lemma PkcsChecked(input: seq<Byte>, p: nat, ok: bool)
    requires 0 < |input| < 256 && p == input[|input| - 1]
    requires !ok <==> p > |input| || p == 0 || exists k :: (|input| - p) % SIZE_RANGE <= k < |input| && input[k] != p
    ensures ok <==> exists d :: 0 <= d < |input| && PaddedAt(Pkcs7, input, d)
    ensures ok ==> 0 <= (|input| - p) % SIZE_RANGE < |input| && PaddedAt(Pkcs7, input, (|input| - p) % SIZE_RANGE)
  {
    var n := |input|;
    if 0 < p <= n {
      NoWrap(n, p);
      if ok {
        assert input[n - p..] == PadBytes(Pkcs7, p);
        assert PaddedAt(Pkcs7, input, n - p);
      }
    }
    if d :| 0 <= d < n && PaddedAt(Pkcs7, input, d) {
      PkcsShape(input, d);
    }
  }

  /** get_one_and_zeros_padding: the last byte that is not zero must be 0x80. */
  method GetOneAndZeros(input: seq<Byte>) returns (ok: bool, dataLen: nat)
    requires 0 < |input| < 256
    ensures ok <==> exists d :: 0 <= d < |input| && PaddedAt(OneAndZeros, input, d)
    ensures ok ==> 0 <= dataLen < |input| && PaddedAt(OneAndZeros, input, dataLen)
    ensures dataLen == StoredLength(OneAndZeros, input)
  {
    var done, bad: Byte := false, 0x80;
    dataLen := 0;
    var i := |input|;
    while i > 0
      invariant 0 <= i <= |input|
      invariant if !done then bad == 0x80 && dataLen == 0 && forall k :: i <= k < |input| ==> input[k] == 0
                else LastNonZero(input, dataLen) && i <= dataLen && bad == Xor8(0x80, input[dataLen])
    {
      var prevDone := done;
      done := done || input[i - 1] != 0;
      if done != prevDone { // the products with the comparison
        dataLen := i - 1;
        bad := Xor8(bad, input[i - 1]);
      }
      i := i - 1;
    }
    ok := bad == 0;
    if done {
      TrimmedUnique(input, dataLen + 1);
      SameByte(0x80, input[dataLen]);
      OneAndZerosChecked(input, dataLen);
    } else {
      TrimmedUnique(input, 0);
      AllZeros(input);
    }
  }

  lemma OneAndZerosChecked(s: seq<Byte>, d: nat)
    requires 0 < |s| < 256 && LastNonZero(s, d)
    ensures s[d] == 0x80 ==> PaddedAt(OneAndZeros, s, d)
    ensures (exists e :: 0 <= e < |s| && PaddedAt(OneAndZeros, s, e)) ==> s[d] == 0x80
  {
    if s[d] == 0x80 {
      assert s[d..] == PadBytes(OneAndZeros, |s| - d);
    }
    if e :| 0 <= e < |s| && PaddedAt(OneAndZeros, s, e) {
      OneAndZerosShape(s, e);
    }
  }

  lemma AllZeros(s: seq<Byte>)
    requires 0 < |s| < 256 && forall k :: 0 <= k < |s| ==> s[k] == 0
    ensures !exists e :: 0 <= e < |s| && PaddedAt(OneAndZeros, s, e)
  {
    forall e | 0 <= e < |s| ensures !PaddedAt(OneAndZeros, s, e) {
      assert s[e] == s[e..][0];
    }
  }

  /** get_zeros_and_len_padding. */
  method GetZerosAndLen(input: seq<Byte>) returns (ok: bool, dataLen: nat)
    requires 0 < |input| < 256
    ensures ok <==> exists d :: 0 <= d < |input| && PaddedAt(ZerosAndLen, input, d)
    ensures ok ==> 0 <= dataLen < |input| && PaddedAt(ZerosAndLen, input, dataLen)
    ensures dataLen == StoredLength(ZerosAndLen, input)
  {
    var n := |input|;
    var paddingLen: int := input[n - 1];
    dataLen := (n - paddingLen) % SIZE_RANGE;
    var bad := paddingLen > n;
    bad := bad || paddingLen == 0;
    var padIdx := (n - paddingLen) % SIZE_RANGE;
    for i := 0 to n - 1
      invariant bad <==> paddingLen > n || paddingLen == 0 || exists k :: padIdx <= k < i && input[k] != 0
    {
      bad := bad || (i >= padIdx && input[i] != 0);
    }
    ok := !bad;
    ZerosAndLenChecked(input, paddingLen, ok);
  }

  lemma ZerosAndLenChecked(input: seq<Byte>, p: nat, ok: bool)
    requires 0 < |input| < 256 && p == input[|input| - 1]
    requires !ok <==> p > |input| || p == 0 || exists k :: (|input| - p) % SIZE_RANGE <= k < |input| - 1 && input[k] != 0
    ensures ok <==> exists d :: 0 <= d < |input| && PaddedAt(ZerosAndLen, input, d)
    ensures ok ==> 0 <= (|input| - p) % SIZE_RANGE < |input| && PaddedAt(ZerosAndLen, input, (|input| - p) % SIZE_RANGE)
  {
    var n := |input|;
    if 0 < p <= n {
      NoWrap(n, p);
      if ok {
        assert input[n - p..] == PadBytes(ZerosAndLen, p);
        assert PaddedAt(ZerosAndLen, input, n - p);
      }
    }
    if d :| 0 <= d < n && PaddedAt(ZerosAndLen, input, d) {
      ZerosAndLenShape(input, d);
    }
  }

  /** get_zeros_padding: never fails; zeros at the end of the data are lost. */
  method GetZeros(input: seq<Byte>) returns (dataLen: nat)
    ensures dataLen == Trimmed(input)
  {
    var done := false;
    dataLen := 0;
    var i := |input|;
    while i > 0
      invariant 0 <= i <= |input|
      invariant if !done then dataLen == 0 && forall k :: i <= k < |input| ==> input[k] == 0
                else i <= dataLen <= |input| && dataLen > 0 && LastNonZero(input, dataLen - 1)
    {
      var prevDone := done;
      done := done || input[i - 1] != 0;
      if done != prevDone {
        dataLen := i;
      }
      i := i - 1;
    }
  }

  lemma TrimmedUnique(s: seq<Byte>, t: nat)
    requires t <= |s| && (t > 0 ==> s[t - 1] != 0) && forall k :: t <= k < |s| ==> s[k] == 0
    ensures Trimmed(s) == t
  {
    var u := Trimmed(s);
    assert (u > 0 ==> s[u - 1] != 0) && (t > 0 ==> s[t - 1] != 0);
  }

  /** Zero padding gives the data back exactly when the data does not end in a zero byte. */
  lemma ZerosRecovered(data: seq<Byte>, n: nat)
    requires 0 < n < 256
    ensures Trimmed(data + PadBytes(ZerosPad, n)) == |data| <==> data == [] || data[|data| - 1] != 0
  {
    hide Trimmed;
    var s := data + Zeros(n);
    if data == [] || data[|data| - 1] != 0 {
      TrimmedUnique(s, |data|);
    } else {
      assert s[|data| - 1] == data[|data| - 1];
    }
  }

  /** get_padding: the checker that belongs to the padding. */
  method GetPadding(p: Padding, input: seq<Byte>) returns (ok: bool, dataLen: nat)
    requires 0 < |input| < 256
    ensures p == Pkcs7 || p == OneAndZeros || p == ZerosAndLen ==>
              (ok <==> exists d :: 0 <= d < |input| && PaddedAt(p, input, d))
              && (ok ==> 0 <= dataLen < |input| && PaddedAt(p, input, dataLen))
    ensures p == ZerosPad ==> ok && dataLen == Trimmed(input)
    ensures p == NoPadding ==> ok && dataLen == |input|
    ensures dataLen == StoredLength(p, input)
  {
    match p {
      case Pkcs7 => ok, dataLen := GetPkcs(input);
      case OneAndZeros => ok, dataLen := GetOneAndZeros(input);
      case ZerosAndLen => ok, dataLen := GetZerosAndLen(input);
      case ZerosPad =>
        ok := true;
        dataLen := GetZeros(input);
      case NoPadding => ok, dataLen := true, |input|;
    }
  }
}
