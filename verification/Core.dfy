/** Limb-array arithmetic (bignum_core.c, bn_mul.h): carry chains over arrays, in place. */
module Core {
  import opened Words

  /** One column of a carry chain: t + c' * BETA == a + b + c, scaled by the weight p of the column. */
  lemma CarryStep(t: int, c': int, a: int, b: int, c: int, p: int)
    requires t + c' * BETA == a + b + c
    ensures t * p + c' * (BETA * p) == a * p + b * p + c * p
  {
    assert (t + c' * BETA) * p == (a + b + c) * p;
  }

  /** What the two wrap-around tests of an addition column compute. */
  lemma AddColumn(a: Limb, b: Limb, c: Limb)
    requires c <= 1
    ensures var t := (c + a) % BETA;
            var t' := (t + b) % BETA;
            t' + ((if t < a then 1 else 0) + if t' < b then 1 else 0) * BETA == a + b + c
  {
  }

  ghost predicate SumSoFar(x: seq<Limb>, a: seq<Limb>, b: seq<Limb>, i: nat, c: int)
    requires i <= |x| && i <= |a| && i <= |b|
  {
    Val(x[..i]) + c * BPow(i) == Val(a[..i]) + Val(b[..i])
  }

  lemma SumDone(x: seq<Limb>, a: seq<Limb>, b: seq<Limb>, n: nat, c: int)
    requires n <= |x| && n <= |a| && n <= |b|
    ensures SumSoFar(x, a, b, n, c) <==> Val(x[..n]) + c * BPow(n) == Val(a[..n]) + Val(b[..n])
    ensures SumSoFar(x, a, b, 0, 0)
  {
  }

  lemma SumStep(x: seq<Limb>, a: seq<Limb>, b: seq<Limb>, i: nat, c: int, t: Limb, c': int)
    requires i < |x| && i < |a| && i < |b|
    requires SumSoFar(x, a, b, i, c)
    requires t + c' * BETA == a[i] + b[i] + c
    ensures SumSoFar(x[i := t], a, b, i + 1, c')
  {
    var x' := x[i := t];
    assert x'[..i] == x[..i];
    ValStep(x', i);
    ValStep(a, i);
    ValStep(b, i);
    CarryStep(t, c', a[i], b[i], c, BPow(i));
  }

  method Add(X: array<Limb>, A: array<Limb>, B: array<Limb>, limbs: nat) returns (c: Limb)
    requires limbs <= X.Length && limbs <= A.Length && limbs <= B.Length
    modifies X
    ensures c <= 1
    ensures Val(X[..limbs]) + c * BPow(limbs) == old(Val(A[..limbs])) + old(Val(B[..limbs]))
    ensures forall k :: limbs <= k < X.Length ==> X[k] == old(X[k])
  {
    hide SumSoFar;
    c := 0;
    ghost var a, b := A[..], B[..];
    SumDone(X[..], a, b, 0, 0);
    for i := 0 to limbs
      invariant c <= 1
      invariant forall k :: i <= k < A.Length ==> A[k] == a[k]
      invariant forall k :: i <= k < B.Length ==> B[k] == b[k]
      invariant forall k :: limbs <= k < X.Length ==> X[k] == old(X[k])
      invariant SumSoFar(X[..], a, b, i, c)
    {
      AddColumn(A[i], B[i], c);
      ghost var c0, x := c, X[..];
      var t := (c + A[i]) % BETA;
      c := if t < A[i] then 1 else 0;
      t := (t + B[i]) % BETA;
      c := c + if t < B[i] then 1 else 0;
      X[i] := t;
      SumStep(x, a, b, i, c0, t, c);
    }
    assert X[..][..limbs] == X[..limbs] && a[..limbs] == old(A[..limbs]) && b[..limbs] == old(B[..limbs]);
    SumDone(X[..], a, b, limbs, c);
  }

  // ---- Subtraction --------------------------------------------------------

  /** One column of a borrow chain, scaled by the weight p of the column. */
  lemma BorrowStep(t: int, c': int, a: int, b: int, c: int, p: int)
    requires t - c' * BETA == a - b - c
    ensures t * p - c' * (BETA * p) == a * p - b * p - c * p
  {
    assert (t - c' * BETA) * p == (a - b - c) * p;
  }

  lemma SubColumn(a: Limb, b: Limb, c: Limb)
    requires c <= 1
    ensures var z := if a < c then 1 else 0;
            var t := (a - c) % BETA;
            var c' := (if t < b then 1 else 0) + z;
            0 <= c' <= 1 && (t - b) % BETA - c' * BETA == a - b - c
  {
  }

  ghost predicate DiffSoFar(x: seq<Limb>, a: seq<Limb>, b: seq<Limb>, i: nat, c: int)
    requires i <= |x| && i <= |a| && i <= |b|
  {
    Val(x[..i]) - c * BPow(i) == Val(a[..i]) - Val(b[..i])
  }

  lemma DiffDone(x: seq<Limb>, a: seq<Limb>, b: seq<Limb>, n: nat, c: int)
    requires n <= |x| && n <= |a| && n <= |b|
    ensures DiffSoFar(x, a, b, n, c) <==> Val(x[..n]) - c * BPow(n) == Val(a[..n]) - Val(b[..n])
    ensures DiffSoFar(x, a, b, 0, 0)
  {
  }

  lemma DiffStep(x: seq<Limb>, a: seq<Limb>, b: seq<Limb>, i: nat, c: int, t: Limb, c': int)
    requires i < |x| && i < |a| && i < |b|
    requires DiffSoFar(x, a, b, i, c)
    requires t - c' * BETA == a[i] - b[i] - c
    ensures DiffSoFar(x[i := t], a, b, i + 1, c')
  {
    var x' := x[i := t];
    assert x'[..i] == x[..i];
    ValStep(x', i);
    ValStep(a, i);
    ValStep(b, i);
    BorrowStep(t, c', a[i], b[i], c, BPow(i));
  }

  /** X := A - B over the low limbs; the final borrow is returned. A is read from offset ao,
      and X may be A (at offset 0) or B. */
  method Sub(X: array<Limb>, A: array<Limb>, ao: nat, B: array<Limb>, limbs: nat) returns (c: Limb)
    requires limbs <= X.Length && ao + limbs <= A.Length && limbs <= B.Length
    requires X == A ==> ao == 0
    modifies X
    ensures c <= 1
    ensures Val(X[..limbs]) - c * BPow(limbs) == old(Val(A[ao..ao + limbs])) - old(Val(B[..limbs]))
    ensures forall k :: limbs <= k < X.Length ==> X[k] == old(X[k])
  {
    hide DiffSoFar;
    c := 0;
    ghost var a, b := A[ao..], B[..];
    DiffDone(X[..], a, b, 0, 0);
    for i := 0 to limbs
      invariant c <= 1
      invariant forall k :: i <= k < |a| ==> A[ao + k] == a[k]
      invariant forall k :: i <= k < |b| ==> B[k] == b[k]
      invariant forall k :: limbs <= k < X.Length ==> X[k] == old(X[k])
      invariant DiffSoFar(X[..], a, b, i, c)
    {
      assert A[ao + i] == a[i];
      SubColumn(A[ao + i], B[i], c);
      ghost var c0, x := c, X[..];
      var z := if A[ao + i] < c then 1 else 0;
      var t := (A[ao + i] - c) % BETA;
      c := (if t < B[i] then 1 else 0) + z;
      X[i] := (t - B[i]) % BETA;
      DiffStep(x, a, b, i, c0, X[i], c);
    }
    assert X[..][..limbs] == X[..limbs] && a[..limbs] == old(A[ao..ao + limbs]) && b[..limbs] == old(B[..limbs]);
    DiffDone(X[..], a, b, limbs, c);
  }

  // ---- Conditional addition ----------------------------------------------

  /** X := X + A when cond, X otherwise; the carry is returned. A may be X. */
  method AddIf(X: array<Limb>, A: array<Limb>, limbs: nat, cond: bool) returns (c: Limb)
    requires limbs <= X.Length && limbs <= A.Length
    modifies X
    ensures c <= 1
    ensures Val(X[..limbs]) + c * BPow(limbs) == old(Val(X[..limbs])) + if cond then old(Val(A[..limbs])) else 0
    ensures forall k :: limbs <= k < X.Length ==> X[k] == old(X[k])
  {
    hide SumSoFar;
    c := 0;
    ghost var x0, a := X[..], if cond then A[..] else seq(A.Length, _ => 0);
    SumDone(X[..], x0, a, 0, 0);
    for i := 0 to limbs
      invariant c <= 1
      invariant forall k :: i <= k < X.Length ==> X[k] == x0[k]
      invariant forall k :: i <= k < A.Length ==> A[k] == old(A[k])
      invariant SumSoFar(X[..], x0, a, i, c)
    {
      var add := if cond then A[i] else 0;
      AddColumn(X[i], add, c);
      ghost var c0, x := c, X[..];
      var t := (c + X[i]) % BETA;
      c := if t < X[i] then 1 else 0;
      t := (t + add) % BETA;
      c := c + if t < add then 1 else 0;
      X[i] := t;
      SumStep(x, x0, a, i, c0, t, c);
    }
    assert X[..][..limbs] == X[..limbs] && x0[..limbs] == old(X[..limbs]);
    SumDone(X[..], x0, a, limbs, c);
    if cond {
      assert a[..limbs] == old(A[..limbs]);
    } else {
      ValZeros(a[..limbs]);
    }
  }

  // ---- Subtraction of one limb -------------------------------------------

  lemma SubIntColumn(s: Limb, c: Limb)
    ensures var t := (s - c) % BETA; t - (if t > s then 1 else 0) * BETA == s - c
  {
  }

  /** x - c2 * BETA^i == a - c0 on the first i limbs. */
  ghost predicate SubIntSoFar(x: seq<Limb>, a: seq<Limb>, c0: int, i: nat, c: int)
    requires i <= |x| && i <= |a|
  {
    Val(x[..i]) - c * BPow(i) == Val(a[..i]) - c0
  }

  lemma SubIntStep(x: seq<Limb>, a: seq<Limb>, c0: int, i: nat, c: int, t: Limb, c': int)
    requires i < |x| && i < |a|
    requires SubIntSoFar(x, a, c0, i, c)
    requires t - c' * BETA == a[i] - c
    ensures SubIntSoFar(x[i := t], a, c0, i + 1, c')
  {
    var x' := x[i := t];
    assert x'[..i] == x[..i];
    ValStep(x', i);
    ValStep(a, i);
    BorrowStep(t, c', a[i], 0, c, BPow(i));
  }

  /** X := A - b over limbs [off, off + limbs) of both; the final borrow is returned. */
  method SubInt(X: array<Limb>, A: array<Limb>, off: nat, b: Limb, limbs: nat) returns (c: Limb)
    requires off + limbs <= X.Length && off + limbs <= A.Length
    modifies X
    ensures limbs > 0 ==> c <= 1
    ensures limbs == 0 ==> c == b
    ensures Val(X[off..off + limbs]) - c * BPow(limbs) == old(Val(A[off..off + limbs])) - b
    ensures forall k :: 0 <= k < X.Length && !(off <= k < off + limbs) ==> X[k] == old(X[k])
  {
    c := b;
    ghost var a := A[off..];
    for i := 0 to limbs
      invariant if i == 0 then c == b else c <= 1
      invariant forall k :: i <= k < |a| ==> A[off + k] == a[k]
      invariant forall k :: 0 <= k < X.Length && !(off <= k < off + limbs) ==> X[k] == old(X[k])
      invariant SubIntSoFar(X[off..], a, b, i, c)
    {
      assert A[off + i] == a[i];
      ghost var c0, x := c, X[off..];
      var s := A[off + i];
      SubIntColumn(s, c);
      var t: Limb := (s - c) % BETA;
      c := if t > s then 1 else 0;
      X[off + i] := t;
      assert X[off..] == x[i := t];
      SubIntStep(x, a, b, i, c0, t, c);
    }
    assert X[off..][..limbs] == X[off..off + limbs] && a[..limbs] == old(A[off..off + limbs]);
  }

  // ---- Conditional assignment --------------------------------------------

  /** X := A[ao..] when assign, X otherwise. */
  method CondAssign(X: array<Limb>, A: array<Limb>, ao: nat, limbs: nat, assign: bool)
    requires limbs <= X.Length && ao + limbs <= A.Length
    requires X == A ==> ao == 0
    modifies X
    ensures X[..limbs] == if assign then old(A[ao..ao + limbs]) else old(X[..limbs])
    ensures forall k :: limbs <= k < X.Length ==> X[k] == old(X[k])
  {
    if X == A {
      return;
    }
    for i := 0 to limbs
      invariant forall k :: 0 <= k < X.Length ==> X[k] == if assign && k < i then A[ao + k] else old(X[k])
    {
      X[i] := if assign then A[ao + i] else X[i];
    }
  }
}
