/** Multiply-accumulate: the MULADDC column of bn_mul.h and mbedtls_mpi_core_mla. */
module MulAdd {
  import Arith
  import opened Words

  const HALF: nat := 0x1_0000 // 2^biH

  // ---- One column ---------------------------------------------------------

  lemma WideColumn(s: Limb, b: Limb, c: Limb, d: Limb, r: int)
    requires r == s * b && 0 <= r <= (BETA - 1) * (BETA - 1)
    ensures var r0, r1 := r % BETA, r / BETA;
            var r0', r1' := (r0 + c) % BETA, r1 + if (r0 + c) % BETA < c then 1 else 0;
            var r0'', r1'' := (r0' + d) % BETA, r1' + if (r0' + d) % BETA < d then 1 else 0;
            r1' < BETA && r1'' < BETA && r0'' + r1'' * BETA == s * b + c + d
  {
    assert r == BETA * (r / BETA) + r % BETA;
  }

  lemma ProductBound(s: int, b: int, m: int, n: int)
    requires 0 <= s <= m && 0 <= b <= n
    ensures 0 <= s * b <= m * n
  {
    Arith.MulMono(s, m, b);
    Arith.MulMono(b, n, m);
    Arith.MulPos(s, b);
  }

  /** The column with a double-width product. */
  method ColumnWide(s: Limb, b: Limb, c: Limb, d: Limb) returns (lo: Limb, hi: Limb)
    ensures lo + hi * BETA == s * b + c + d
  {
    ProductBound(s, b, BETA - 1, BETA - 1);
    WideColumn(s, b, c, d, s * b);
    var r: int := s * b;
    var r0: int, r1: int := r % BETA, r / BETA;
    r0 := (r0 + c) % BETA;
    r1 := r1 + if r0 < c then 1 else 0;
    r0 := (r0 + d) % BETA;
    r1 := r1 + if r0 < d then 1 else 0;
    lo, hi := r0, r1;
  }

  lemma HalfProduct(s: Limb, b: Limb)
    ensures var s0, s1, b0, b1 := s % HALF, s / HALF, b % HALF, b / HALF;
            s * b == s0 * b0 + HALF * (s0 * b1 + s1 * b0) + BETA * (s1 * b1)
  {
    var s0, s1, b0, b1 := s % HALF, s / HALF, b % HALF, b / HALF;
    assert s == s0 + HALF * s1 && b == b0 + HALF * b1;
    assert (s0 + HALF * s1) * (b0 + HALF * b1) == s0 * b0 + HALF * (s0 * b1 + s1 * b0) + HALF * HALF * (s1 * b1);
  }

  /** Adding y to a two-limb accumulator, with the low-limb wrap-around test. */
  lemma AddLow(r0: Limb, r1: int, y: Limb)
    ensures var r0' := (r0 + y) % BETA;
            var r1' := r1 + if r0' < y then 1 else 0;
            r0' + BETA * r1' == r0 + BETA * r1 + y
  {
  }

  /** x << biH, split into what leaves the limb and what stays. */
  lemma HalfShift(x: Limb)
    ensures HALF * x == BETA * (x / HALF) + HALF * x % BETA
  {
    assert x == HALF * (x / HALF) + x % HALF;
    assert HALF * x == BETA * (x / HALF) + HALF * (x % HALF);
    assert 0 <= HALF * (x % HALF) < BETA;
  }

  /** The same column with half-width products only. */
  method ColumnHalf(s: Limb, b: Limb, c: Limb, d: Limb) returns (lo: Limb, hi: Limb)
    ensures lo + hi * BETA == s * b + c + d
  {
    HalfProduct(s, b);
    ProductBound(s, b, BETA - 1, BETA - 1);
    ProductBound(s % HALF, b % HALF, HALF - 1, HALF - 1);
    ProductBound(s % HALF, b / HALF, HALF - 1, HALF - 1);
    ProductBound(s / HALF, b % HALF, HALF - 1, HALF - 1);
    ProductBound(s / HALF, b / HALF, HALF - 1, HALF - 1);
    var b0: int, b1: int := b % HALF, b / HALF;
    var s0: int, s1: int := s % HALF, s / HALF;
    var rx: int, r0: int := s0 * b1, s0 * b0;
    var ry: int, r1: int := s1 * b0, s1 * b1;
    var lo', hi' := HalfColumnSum(rx, ry, r0, r1, c, d, s * b);
    lo, hi := lo', hi';
  }

  /** The additions of the half-width column: r0 + BETA * r1 accumulates rx << biH, ry << biH, c and d. */
  method HalfColumnSum(rx: Limb, ry: Limb, r0: Limb, r1: Limb, c: Limb, d: Limb, ghost prod: int)
    returns (lo: Limb, hi: Limb)
    requires prod == r0 + HALF * (rx + ry) + BETA * r1
    requires 0 <= prod <= (BETA - 1) * (BETA - 1)
    ensures lo + hi * BETA == prod + c + d
  {
    HalfShift(rx);
    HalfShift(ry);
    var q1: int := r1 + rx / HALF;
    q1 := q1 + ry / HALF;
    var x: Limb, y: Limb := HALF * rx % BETA, HALF * ry % BETA;
    AddLow(r0, q1, x);
    var q0: Limb := (r0 + x) % BETA;
    q1 := q1 + if q0 < x then 1 else 0;
    AddLow(q0, q1, y);
    q0 := (q0 + y) % BETA;
    q1 := q1 + if q0 < y then 1 else 0;
    assert q0 + BETA * q1 == prod;
    AddLow(q0, q1, c);
    q0 := (q0 + c) % BETA;
    q1 := q1 + if q0 < c then 1 else 0;
    AddLow(q0, q1, d);
    q0 := (q0 + d) % BETA;
    q1 := q1 + if q0 < d then 1 else 0;
    lo, hi := q0, q1;
  }

  // ---- The limb-array loop ------------------------------------------------

  /** After j columns: d holds d0 + b * s0 on its first j limbs, up to the carry c; sl limbs of s0 take part. */
  ghost predicate MlaSoFar(d: seq<Limb>, d0: seq<Limb>, s0: seq<Limb>, b: int, sl: nat, j: nat, c: int)
    requires j <= |d| == |d0| && sl <= |s0|
  {
    && (forall k :: j <= k < |d| ==> d[k] == d0[k])
    && Val(d[..j]) + c * BPow(j) == Val(d0[..j]) + b * Val(s0[..if j <= sl then j else sl])
  }

  lemma MulStep(r: int, c': int, s: int, b: int, c: int, d: int, p: int, v: int)
    requires r + c' * BETA == s * b + c + d
    ensures r * p + c' * (BETA * p) + b * v == b * (v + s * p) + c * p + d * p
  {
    assert (r + c' * BETA) * p == (s * b + c + d) * p;
  }

  lemma MlaStep(d: seq<Limb>, d0: seq<Limb>, s0: seq<Limb>, b: int, sl: nat, j: nat, c: int, r: Limb, c': int)
    requires j < |d| == |d0| && sl <= |s0|
    requires MlaSoFar(d, d0, s0, b, sl, j, c)
    requires r + c' * BETA == (if j < sl then s0[j] * b else 0) + c + d[j]
    ensures MlaSoFar(d[j := r], d0, s0, b, sl, j + 1, c')
  {
    var d' := d[j := r];
    assert d'[..j] == d[..j];
    ValStep(d', j);
    ValStep(d0, j);
    if j < sl {
      ValStep(s0, j);
      MulStep(r, c', s0[j], b, c, d[j], BPow(j), Val(s0[..j]));
    } else {
      MulStep(r, c', 0, b, c, d[j], BPow(j), 0);
    }
  }

  /** What a multiply-accumulate establishes: v' + c * p == v + b * s. */
  ghost predicate MulAddEq(v': int, c: int, p: int, v: int, b: int, s: int) {
    v' + c * p == v + b * s
  }

  lemma MlaStart(d0: seq<Limb>, s0: seq<Limb>, b: int)
    ensures MlaSoFar(d0, d0, s0, b, |s0|, 0, 0)
  {
  }

  lemma MlaDone(d: seq<Limb>, d0: seq<Limb>, s0: seq<Limb>, b: int, c: int)
    requires |s0| <= |d| == |d0|
    requires MlaSoFar(d, d0, s0, b, |s0|, |d|, c)
    ensures MulAddEq(Val(d), c, BPow(|d|), Val(d0), b, Val(s0))
  {
    assert d[..|d|] == d && d0[..|d|] == d0 && s0[..|s0|] == s0;
  }

  /** The part of the state that a column leaves alone: limbs of s not yet read, and limbs outside the window. */
  twostate predicate Untouched(d: array<Limb>, off: nat, dLen: nat, s: array<Limb>, s0: seq<Limb>, j: nat)
    reads d, s
  {
    && (forall k :: 0 <= k < d.Length && !(off <= k < off + dLen) ==> d[k] == old(d[k]))
    && |s0| <= s.Length
    && (forall k :: j <= k < |s0| ==> s[k] == s0[k])
  }

  /** MULADDC_X1_CORE, on column j: *d += *s * b + c. */
  method X1Core(d: array<Limb>, off: nat, dLen: nat, s: array<Limb>, b: Limb, j: nat, c: Limb,
                ghost d0: seq<Limb>, ghost s0: seq<Limb>)
    returns (c': Limb)
    requires off + dLen <= d.Length && j < |s0| <= dLen == |d0| && |s0| <= s.Length
    requires s == d ==> off == 0
    requires forall k :: j <= k < |s0| ==> s[k] == s0[k]
    requires MlaSoFar(d[off..off + dLen], d0, s0, b, |s0|, j, c)
    modifies d
    ensures Untouched(d, off, dLen, s, s0, j + 1)
    ensures MlaSoFar(d[off..off + dLen], d0, s0, b, |s0|, j + 1, c')
  {
    ghost var dv: seq<Limb> := d[off..off + dLen];
    assert s[j] == s0[j] && dv[j] == d[off + j];
    var r: Limb;
    if * { // MBEDTLS_HAVE_UDBL defined or not: both columns compute the same
      r, c' := ColumnWide(s[j], b, c, d[off + j]);
    } else {
      r, c' := ColumnHalf(s[j], b, c, d[off + j]);
    }
    d[off + j] := r;
    assert d[off..off + dLen] == dv[j := r];
    MlaStep(dv, d0, s0, b, |s0|, j, c, r, c');
  }

  /** MULADDC_X2_CORE: 2 columns from j on. */
  method X2Core(d: array<Limb>, off: nat, dLen: nat, s: array<Limb>, b: Limb, j: nat, c: Limb,
                ghost d0: seq<Limb>, ghost s0: seq<Limb>)
    returns (c': Limb)
    requires off + dLen <= d.Length && j + 2 <= |s0| <= dLen == |d0| && |s0| <= s.Length
    requires s == d ==> off == 0
    requires forall k :: j <= k < |s0| ==> s[k] == s0[k]
    requires MlaSoFar(d[off..off + dLen], d0, s0, b, |s0|, j, c)
    modifies d
    ensures Untouched(d, off, dLen, s, s0, j + 2)
    ensures MlaSoFar(d[off..off + dLen], d0, s0, b, |s0|, j + 2, c')
  {
    c' := X1Core(d, off, dLen, s, b, j, c, d0, s0);
    c' := X1Core(d, off, dLen, s, b, j + 1, c', d0, s0);
  }

  /** MULADDC_X4_CORE: 4 columns from j on. */
  method X4Core(d: array<Limb>, off: nat, dLen: nat, s: array<Limb>, b: Limb, j: nat, c: Limb,
                ghost d0: seq<Limb>, ghost s0: seq<Limb>)
    returns (c': Limb)
    requires off + dLen <= d.Length && j + 4 <= |s0| <= dLen == |d0| && |s0| <= s.Length
    requires s == d ==> off == 0
    requires forall k :: j <= k < |s0| ==> s[k] == s0[k]
    requires MlaSoFar(d[off..off + dLen], d0, s0, b, |s0|, j, c)
    modifies d
    ensures Untouched(d, off, dLen, s, s0, j + 4)
    ensures MlaSoFar(d[off..off + dLen], d0, s0, b, |s0|, j + 4, c')
  {
    c' := X2Core(d, off, dLen, s, b, j, c, d0, s0);
    c' := X2Core(d, off, dLen, s, b, j + 2, c', d0, s0);
  }

  /** MULADDC_X8_CORE: 8 columns from j on. */
  method X8Core(d: array<Limb>, off: nat, dLen: nat, s: array<Limb>, b: Limb, j: nat, c: Limb,
                ghost d0: seq<Limb>, ghost s0: seq<Limb>)
    returns (c': Limb)
    requires off + dLen <= d.Length && j + 8 <= |s0| <= dLen == |d0| && |s0| <= s.Length
    requires s == d ==> off == 0
    requires forall k :: j <= k < |s0| ==> s[k] == s0[k]
    requires MlaSoFar(d[off..off + dLen], d0, s0, b, |s0|, j, c)
    modifies d
    ensures Untouched(d, off, dLen, s, s0, j + 8)
    ensures MlaSoFar(d[off..off + dLen], d0, s0, b, |s0|, j + 8, c')
  {
    c' := X4Core(d, off, dLen, s, b, j, c, d0, s0);
    c' := X4Core(d, off, dLen, s, b, j + 4, c', d0, s0);
  }

  lemma CarryOnlyColumn(d: Limb, c: Limb)
    ensures var t := (d + c) % BETA; t + (if t < c then 1 else 0) * BETA == c + d
  {
  }

  /** d[off..off+dLen) += s * b; the limb carried out is returned. s may be d (then off is 0).
      An s longer than d is clamped, as the source does. */
  method Mla(d: array<Limb>, off: nat, dLen: nat, s: array<Limb>, sLen: nat, b: Limb) returns (c: Limb)
    requires off + dLen <= d.Length && sLen <= s.Length
    requires s == d ==> off == 0
    modifies d
    ensures MulAddEq(Val(d[off..off + dLen]), c, BPow(dLen),
                     old(Val(d[off..off + dLen])), b, old(Val(s[..Arith.Min(sLen, dLen)])))
    ensures forall k :: 0 <= k < d.Length && !(off <= k < off + dLen) ==> d[k] == old(d[k])
  {
    hide MlaSoFar, MulAddEq;
    var len: nat := if dLen < sLen then dLen else sLen;
    ghost var d0, s0 := d[off..off + dLen], s[..len];
    var stepsX8: nat, stepsX1: nat := len / 8, len % 8;
    var j: nat := 0;
    c := 0;
    MlaStart(d0, s0, b);
    while stepsX8 > 0
      invariant 8 * stepsX8 + stepsX1 + j == len
      invariant Untouched(d, off, dLen, s, s0, j)
      invariant MlaSoFar(d[off..off + dLen], d0, s0, b, len, j, c)
    {
      c := X8Core(d, off, dLen, s, b, j, c, d0, s0);
      j := j + 8;
      stepsX8 := stepsX8 - 1;
    }
    while stepsX1 > 0
      invariant stepsX1 + j == len
      invariant Untouched(d, off, dLen, s, s0, j)
      invariant MlaSoFar(d[off..off + dLen], d0, s0, b, len, j, c)
    {
      c := X1Core(d, off, dLen, s, b, j, c, d0, s0);
      j := j + 1;
      stepsX1 := stepsX1 - 1;
    }
    c := PropagateCarry(d, off, dLen, j, c, b, d0, s0);
    MlaDone(d[off..off + dLen], d0, s0, b, c);
  }

  /** The columns above s: only the carry moves on. */
  method PropagateCarry(d: array<Limb>, off: nat, dLen: nat, from: nat, carry: Limb, ghost b: Limb,
                        ghost d0: seq<Limb>, ghost s0: seq<Limb>)
    returns (c: Limb)
    requires off + dLen <= d.Length && from == |s0| <= dLen == |d0|
    requires MlaSoFar(d[off..off + dLen], d0, s0, b, |s0|, from, carry)
    modifies d
    ensures forall k :: 0 <= k < d.Length && !(off <= k < off + dLen) ==> d[k] == old(d[k])
    ensures MlaSoFar(d[off..off + dLen], d0, s0, b, |s0|, dLen, c)
  {
    c := carry;
    for j := from to dLen
      invariant forall k :: 0 <= k < d.Length && !(off <= k < off + dLen) ==> d[k] == old(d[k])
      invariant MlaSoFar(d[off..off + dLen], d0, s0, b, |s0|, j, c)
    {
      ghost var dv, c0 := d[off..off + dLen], c;
      CarryOnlyColumn(d[off + j], c);
      d[off + j] := (d[off + j] + c) % BETA;
      c := if d[off + j] < c then 1 else 0;
      assert d[off..off + dLen] == dv[j := d[off + j]];
      MlaStep(dv, d0, s0, b, |s0|, j, c0, d[off + j], c);
    }
  }
}
