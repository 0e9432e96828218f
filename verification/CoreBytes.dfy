/** Import and export of limb strings (bignum_core.c), on a little-endian host. */
module CoreBytes {
  import Arith
  import opened Words
  import opened Bytes
  import MpiAddSub

  /** CHARS_TO_LIMBS. */
  function CharsToLimbs(n: nat): nat {
    n / 4 + if n % 4 != 0 then 1 else 0
  }

  // ---- Little endian ------------------------------------------------------------

  /** The limb that byte number i lands in has room for it, and everything above is zero. */
  ghost predicate RoomAt(x: seq<Limb>, i: nat) {
    && (i / 4 < |x| ==> x[i / 4] < Pow256(i % 4))
    && forall k :: i / 4 < k < |x| ==> x[k] == 0
  }

  lemma PlaceByte(x: seq<Limb>, i: nat, b: Byte)
    requires i / 4 < |x| && RoomAt(x, i)
    ensures 0 <= x[i / 4] + b * Pow256(i % 4) < BETA
    ensures Val(x[i / 4 := x[i / 4] + b * Pow256(i % 4)]) == Val(x) + b * Pow256(i)
    ensures RoomAt(x[i / 4 := x[i / 4] + b * Pow256(i % 4)], i + 1)
  {
    hide Val, BPow;
    var l, r := i / 4, i % 4;
    FourBytes();
    var y: Limb := x[l] + b * Pow256(r);
    MpiAddSub.ValUpdate(x, l, y);
    Pow256Limbs(l);
    Pow256Add(4 * l, r);
    Arith.MulAssoc(b, Pow256(r), Pow256(4 * l));
    assert Pow256(r) * Pow256(4 * l) == Pow256(4 * l) * Pow256(r);
    NextRoom(x, i, y);
  }

  lemma NextRoom(x: seq<Limb>, i: nat, y: Limb)
    requires i / 4 < |x| && RoomAt(x, i) && y < 256 * Pow256(i % 4)
    ensures RoomAt(x[i / 4 := y], i + 1)
  {
    FourBytes();
    if i % 4 == 3 {
      assert (i + 1) / 4 == i / 4 + 1 && (i + 1) % 4 == 0;
    } else {
      assert (i + 1) / 4 == i / 4 && (i + 1) % 4 == i % 4 + 1;
      assert Pow256(i % 4 + 1) == 256 * Pow256(i % 4);
    }
  }

  /** mbedtls_mpi_core_read_le. */
  method ReadLe(X: array<Limb>, limbs: nat, input: seq<Byte>) returns (ok: bool)
    requires limbs <= X.Length
    modifies X
    ensures ok <==> CharsToLimbs(|input|) <= limbs
    ensures ok ==> Val(X[..limbs]) == LeVal(input)
    ensures forall k :: 0 <= k < X.Length && (!ok || k >= limbs) ==> X[k] == old(X[k])
  {
    hide Val, LeVal, RoomAt;
    if limbs < CharsToLimbs(|input|) {
      return false;
    }
    for k := 0 to limbs
      invariant forall j :: 0 <= j < X.Length ==> X[j] == if j < k then 0 else old(X[j])
    {
      X[k] := 0;
    }
    StartRead(X[..limbs], input);
    for i := 0 to |input|
      invariant Val(X[..limbs]) == LeVal(input[..i]) && RoomAt(X[..limbs], i)
      invariant forall j :: limbs <= j < X.Length ==> X[j] == old(X[j])
    {
      ghost var x: seq<Limb> := X[..limbs];
      assert i / 4 < limbs;
      PlaceByte(x, i, input[i]);
      LeStep(input, i);
      assert x[i / 4] == X[i / 4];
      X[i / 4] := X[i / 4] + input[i] * Pow256(i % 4); // the bits are still clear, so |= is +
      assert X[..limbs] == x[i / 4 := X[i / 4]];
    }
    assert input[..|input|] == input;
    ok := true;
  }

  lemma StartRead(x: seq<Limb>, input: seq<Byte>)
    requires forall k :: 0 <= k < |x| ==> x[k] == 0
    ensures Val(x) == LeVal(input[..0]) && RoomAt(x, 0)
  {
    ValZeros(x);
    FourBytes();
  }

  lemma FitsLimbs(p: seq<Limb>, len: nat)
    ensures len <= 4 * |p| ==> (Val(p) < Pow256(len) <==> forall j :: len <= j < 4 * |p| ==> ByteAt(p, j) == 0)
    ensures len >= 4 * |p| ==> Val(p) < Pow256(len)
  {
    LimbBytesVal(p);
    LeBound(LimbBytes(p));
    if len <= 4 * |p| {
      LeFits(LimbBytes(p), len);
    } else {
      Pow256Add(4 * |p|, len - 4 * |p|);
      Arith.MulMono(1, Pow256(len - 4 * |p|), Pow256(4 * |p|));
    }
  }

  /** Whether all bytes from position from on are zero. */
  method HighBytesZero(A: array<Limb>, limbs: nat, from: nat) returns (zero: bool)
    requires limbs <= A.Length && from <= 4 * limbs
    ensures zero <==> Val(A[..limbs]) < Pow256(from)
  {
    FitsLimbs(A[..limbs], from);
    for i := from to 4 * limbs
      invariant forall j :: from <= j < i ==> ByteAt(A[..limbs], j) == 0
    {
      if ByteAt(A[..limbs], i) != 0 {
        return false;
      }
    }
    return true;
  }

  lemma WrittenLe(p: seq<Limb>, out: seq<Byte>, n: nat)
    requires n <= |out| && n <= 4 * |p| && (n == 4 * |p| || (n == |out| && Val(p) < Pow256(n)))
    requires forall k :: 0 <= k < |out| ==> out[k] == if k < n then ByteAt(p, k) else 0
    ensures LeVal(out) == Val(p)
  {
    hide Val, LeVal;
    LimbBytesVal(p);
    FitsLimbs(p, n);
    LeTrim(LimbBytes(p), n);
    LeTrim(out, n);
    assert out[..n] == LimbBytes(p)[..n];
  }

  /** mbedtls_mpi_core_write_le. */
  method WriteLe(A: array<Limb>, limbs: nat, output: array<Byte>) returns (ok: bool)
    requires limbs <= A.Length
    modifies output
    ensures ok <==> Val(A[..limbs]) < Pow256(output.Length)
    ensures ok ==> LeVal(output[..]) == Val(A[..limbs])
    ensures !ok ==> output[..] == old(output[..])
  {
    hide Val, LeVal;
    var stored, n := 4 * limbs, 0;
    ghost var p := A[..limbs];
    FitsLimbs(p, output.Length);
    if stored < output.Length {
      n := stored;
    } else {
      n := output.Length;
      var zero := HighBytesZero(A, limbs, n);
      if !zero {
        return false;
      }
    }
    for i := 0 to n
      invariant A[..limbs] == p
      invariant forall k :: 0 <= k < i ==> output[k] == ByteAt(p, k)
    {
      output[i] := ByteAt(A[..limbs], i);
    }
    if stored < output.Length {
      for i := stored to output.Length
        invariant A[..limbs] == p
        invariant forall k :: 0 <= k < stored ==> output[k] == ByteAt(p, k)
        invariant forall k :: stored <= k < i ==> output[k] == 0
      {
        output[i] := 0;
      }
    }
    WrittenLe(p, output[..], n);
    ok := true;
  }

  // ---- Big endian ------------------------------------------------------------------

  /** The bytes of a limb in the opposite order (MBEDTLS_BSWAP32). */
  function Bswap(x: Limb): Limb {
    x % 0x100 * 0x100_0000 + x / 0x100 % 0x100 * 0x1_0000 + x / 0x1_0000 % 0x100 * 0x100 + x / 0x100_0000
  }

  lemma FourDigits(b0: Byte, b1: Byte, b2: Byte, b3: Byte, y: int)
    requires y == b0 as int * 0x100_0000 + b1 as int * 0x1_0000 + b2 as int * 0x100 + b3
    ensures y % 0x100 == b3 && y / 0x100 % 0x100 == b2 && y / 0x1_0000 % 0x100 == b1
    ensures y / 0x100_0000 == b0 && y / 0x100_0000 % 0x100 == b0
  {
    var h: int := b0 as int * 0x100 + b1;
    var m: int := h * 0x100 + b2;
    assert y == m * 0x100 + b3;
    assert y / 0x100 == m;
    assert y == h * 0x1_0000 + (b2 as int * 0x100 + b3);
    assert y / 0x1_0000 == h;
    assert y == b0 as int * 0x100_0000 + (b1 as int * 0x1_0000 + b2 as int * 0x100 + b3);
  }

  lemma TopByte(x: Limb)
    ensures x / 0x100_0000 < 0x100
  {
  }

  lemma BswapBytes(x: Limb, i: nat)
    requires i < 4
    ensures ByteAt([Bswap(x)], i) == ByteAt([x], 3 - i)
  {
    FourBytes();
    TopByte(x);
    FourDigits(x % 0x100, x / 0x100 % 0x100, x / 0x1_0000 % 0x100, x / 0x100_0000, Bswap(x));
  }

  /** Swapping twice gives the limb back. */
  lemma BswapInvolutive(x: Limb)
    ensures Bswap(Bswap(x)) == x
  {
    hide Bswap;
    var y := Bswap(Bswap(x));
    forall i | 0 <= i < 4 ensures LimbBytes([y])[i] == LimbBytes([x])[i] {
      BswapBytes(Bswap(x), i);
      BswapBytes(x, 3 - i);
    }
    assert LimbBytes([y]) == LimbBytes([x]);
    LimbBytesVal([y]);
    LimbBytesVal([x]);
    ValInjective([y], [x]);
    assert [y][0] == [x][0];
  }

  /** The first i bytes of a in memory order, gathered. */
  function Gathered(a: Limb, i: nat): (t: nat)
    requires i <= 4
    ensures t < Pow256(i)
  {
    if i == 0 then 0 else Gathered(a, i - 1) * 0x100 + ByteAt([a], i - 1)
  }

  lemma GatheredAll(a: Limb)
    ensures Gathered(a, 4) == Bswap(a)
  {
    FourBytes();
    TopByte(a);
    var b0, b1, b2, b3 := ByteAt([a], 0), ByteAt([a], 1), ByteAt([a], 2), ByteAt([a], 3);
    assert b0 == a % 0x100 && b1 == a / 0x100 % 0x100 && b2 == a / 0x1_0000 % 0x100 && b3 == a / 0x100_0000;
    hide ByteAt;
    assert Gathered(a, 1) == b0;
    assert Gathered(a, 2) == Gathered(a, 1) * 0x100 + b1;
    assert Gathered(a, 3) == Gathered(a, 2) * 0x100 + b2;
  }

  lemma GatherStep(a: Limb, i: nat)
    requires i < 4
    ensures Gathered(a, i + 1) == Gathered(a, i) * 0x100 % BETA + ByteAt([a], i) < BETA
    ensures Gathered(a, 0) == 0
  {
    hide ByteAt;
    FourBytes();
    Pow256Add(i + 1, 3 - i);
    Arith.MulMono(1, Pow256(3 - i), Pow256(i + 1));
    assert Gathered(a, i + 1) == Gathered(a, i) * 0x100 + ByteAt([a], i);
  }

  /** mpi_bigendian_to_host_c: the bytes of a in memory order, first byte most significant. */
  method HostOrder(a: Limb) returns (tmp: Limb)
    ensures tmp == Bswap(a)
  {
    hide Bswap, ByteAt, Gathered;
    tmp := 0;
    GatherStep(a, 0);
    for i := 0 to 4
      invariant tmp == Gathered(a, i)
    {
      GatherStep(a, i);
      tmp := tmp * 0x100 % BETA + ByteAt([a], i);
    }
    GatheredAll(a);
  }

  /** mbedtls_mpi_core_bigendian_to_host: the limbs swap places from both ends, bytes swapped. */
  method BigEndianToHost(A: array<Limb>, limbs: nat)
    requires limbs <= A.Length
    modifies A
    ensures forall k :: 0 <= k < limbs ==> A[k] == Bswap(old(A[limbs - 1 - k]))
    ensures forall k :: limbs <= k < A.Length ==> A[k] == old(A[k])
  {
    hide Bswap;
    if limbs == 0 {
      return;
    }
    var left: int, right: int := 0, limbs - 1;
    while left <= right
      invariant 0 <= left && left + right == limbs - 1 && left <= right + 2
      invariant forall k :: 0 <= k < A.Length ==>
                  A[k] == if k < limbs && (k < left || k > right) then Bswap(old(A[limbs - 1 - k])) else old(A[k])
      decreases right - left + 1
    {
      var tmp := HostOrder(A[left]);
      var other := HostOrder(A[right]);
      A[left] := other;
      A[right] := tmp;
      left := left + 1;
      right := right - 1;
    }
  }

  /** Limbs and bytes reversed: the byte string is reversed. */
  lemma SwappedBytes(p: seq<Limb>, q: seq<Limb>)
    requires |p| == |q| && forall k :: 0 <= k < |q| ==> q[k] == Bswap(p[|p| - 1 - k])
    ensures LimbBytes(q) == Rev(LimbBytes(p))
  {
    hide Bswap;
    var n := 4 * |p|;
    forall i | 0 <= i < n ensures LimbBytes(q)[i] == LimbBytes(p)[n - 1 - i] {
      var l, r := i / 4, i % 4;
      assert n - 1 - i == 4 * (|p| - 1 - l) + (3 - r);
      assert (n - 1 - i) / 4 == |p| - 1 - l && (n - 1 - i) % 4 == 3 - r;
      BswapBytes(p[|p| - 1 - l], r);
      assert q[l] == Bswap(p[|p| - 1 - l]);
    }
  }

  lemma ReadBytes(x: seq<Limb>, input: seq<Byte>, overhead: nat)
    requires overhead + |input| == 4 * |x| && Val(x) == Pow256(overhead) * LeVal(input)
    ensures LimbBytes(x) == seq(overhead, _ => 0) + input
  {
    var m: seq<Byte> := seq(overhead, _ => 0) + input;
    LeSplit(m, overhead);
    assert m[..overhead] == seq(overhead, _ => 0) && m[overhead..] == input;
    LeZeros(m[..overhead]);
    LimbBytesVal(x);
    LeInjective(LimbBytes(x), m);
  }

  lemma ReversedRead(x: seq<Limb>, y: seq<Limb>, input: seq<Byte>, overhead: nat)
    requires |x| == |y| && LimbBytes(x) == seq(overhead, _ => 0) + input && LimbBytes(y) == Rev(LimbBytes(x))
    ensures Val(y) == BeVal(input)
  {
    hide Val, LeVal;
    var m: seq<Byte> := seq(overhead, _ => 0) + input;
    var b := Rev(m);
    assert b == LimbBytes(y);
    LimbBytesVal(y);
    forall k | 0 <= k < |b| ensures b[k] == if k < |input| then input[|input| - 1 - k] else 0 {
      assert b[k] == m[|m| - 1 - k];
    }
    LeTrim(b, |input|);
    assert b[..|input|] == Rev(input);
  }

  /** mbedtls_mpi_core_read_be. */
  method ReadBe(X: array<Limb>, limbs: nat, input: seq<Byte>) returns (ok: bool)
    requires limbs <= X.Length
    modifies X
    ensures ok <==> CharsToLimbs(|input|) <= limbs
    ensures ok ==> Val(X[..limbs]) == BeVal(input)
    ensures forall k :: 0 <= k < X.Length && (!ok || k >= limbs) ==> X[k] == old(X[k])
  {
    hide Val, LeVal;
    if limbs < CharsToLimbs(|input|) {
      return false;
    }
    if limbs == 0 {
      ValZeros(X[..0]);
      assert Rev(input) == [];
      LeZeros([]);
      return true;
    }
    var overhead := 4 * limbs - |input|;
    CopyInput(X, limbs, input, overhead);
    ghost var x: seq<Limb> := X[..limbs];
    ReadBytes(x, input, overhead);
    BigEndianToHost(X, limbs);
    SwappedBytes(x, X[..limbs]);
    ReversedRead(x, X[..limbs], input, overhead);
    ok := true;
  }

  /** memset and memcpy: the input ends up in the last bytes of X. */
  method CopyInput(X: array<Limb>, limbs: nat, input: seq<Byte>, overhead: nat)
    requires limbs <= X.Length && overhead + |input| == 4 * limbs
    modifies X
    ensures Val(X[..limbs]) == Pow256(overhead) * LeVal(input)
    ensures forall k :: limbs <= k < X.Length ==> X[k] == old(X[k])
  {
    hide Val, LeVal, RoomAt;
    for k := 0 to limbs
      invariant forall j :: 0 <= j < X.Length ==> X[j] == if j < k then 0 else old(X[j])
    {
      X[k] := 0;
    }
    StartCopy(X[..limbs], input, overhead);
    for i := 0 to |input|
      invariant Val(X[..limbs]) == Pow256(overhead) * LeVal(input[..i]) && RoomAt(X[..limbs], overhead + i)
      invariant forall j :: limbs <= j < X.Length ==> X[j] == old(X[j])
    {
      ghost var x: seq<Limb> := X[..limbs];
      var pos := overhead + i;
      assert pos / 4 < limbs;
      PlaceByte(x, pos, input[i]);
      LeStep(input, i);
      ScaleByte(overhead, i, input[i], LeVal(input[..i]), LeVal(input[..i + 1]));
      assert x[pos / 4] == X[pos / 4];
      X[pos / 4] := X[pos / 4] + input[i] * Pow256(pos % 4); // the byte is still clear
      assert X[..limbs] == x[pos / 4 := X[pos / 4]];
    }
    assert input[..|input|] == input;
  }

  lemma StartCopy(x: seq<Limb>, input: seq<Byte>, overhead: nat)
    requires forall k :: 0 <= k < |x| ==> x[k] == 0
    ensures Val(x) == Pow256(overhead) * LeVal(input[..0]) && RoomAt(x, overhead + 0)
  {
    ValZeros(x);
  }

  lemma ScaleByte(overhead: nat, i: nat, b: Byte, v: nat, v': nat)
    requires v' == v + b * Pow256(i)
    ensures Pow256(overhead) * v' == Pow256(overhead) * v + b * Pow256(overhead + i)
  {
    Pow256Add(overhead, i);
    var p, q := Pow256(overhead), Pow256(i);
    assert p * (v + b * q) == p * v + b * (p * q);
  }

  lemma WrittenBe(p: seq<Limb>, out: seq<Byte>, n: nat)
    requires n <= |out| && n <= 4 * |p| && (n == 4 * |p| || (n == |out| && Val(p) < Pow256(n)))
    requires forall k :: 0 <= k < |out| ==> out[k] == if k >= |out| - n then ByteAt(p, |out| - 1 - k) else 0
    ensures BeVal(out) == Val(p)
  {
    hide Val, LeVal;
    var r := Rev(out);
    forall k | 0 <= k < |r| ensures r[k] == if k < n then ByteAt(p, k) else 0 {
      assert r[k] == out[|out| - 1 - k];
    }
    WrittenLe(p, r, n);
  }

  /** mbedtls_mpi_core_write_be. */
  method WriteBe(X: array<Limb>, limbs: nat, output: array<Byte>) returns (ok: bool)
    requires limbs <= X.Length
    modifies output
    ensures ok <==> Val(X[..limbs]) < Pow256(output.Length)
    ensures ok ==> BeVal(output[..]) == Val(X[..limbs])
    ensures !ok ==> output[..] == old(output[..])
  {
    hide Val, LeVal;
    var stored, n, start := 4 * limbs, 0, 0;
    ghost var p := X[..limbs];
    FitsLimbs(p, output.Length);
    if stored < output.Length {
      n := stored;
      start := output.Length - stored;
      for i := 0 to start
        invariant X[..limbs] == p && forall k :: 0 <= k < i ==> output[k] == 0
      {
        output[i] := 0;
      }
    } else {
      n := output.Length;
      var zero := HighBytesZero(X, limbs, n);
      if !zero {
        return false;
      }
    }
    for i := 0 to n
      invariant X[..limbs] == p && forall k :: 0 <= k < start ==> output[k] == 0
      invariant forall k :: output.Length - i <= k < output.Length ==> output[k] == ByteAt(p, output.Length - 1 - k)
    {
      output[start + n - i - 1] := ByteAt(X[..limbs], i);
    }
    WrittenBe(p, output[..], n);
    ok := true;
  }
}
