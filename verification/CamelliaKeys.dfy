/** The key schedule of Camellia (mbedtls_camellia_setkey_enc), section 2.2 of RFC 3713, for arbitrary S-boxes. */
module CamelliaKeys {
  import opened Rotations
  import opened CamelliaF
  import Rfc3713

  // ---- The tables of the source ----------------------------------------------------------

  const SHIFTS_128: seq<seq<bool>> :=
    [[true, true, true, true], [false, false, false, false], [true, true, true, true], [false, false, false, false]]
  const SHIFTS_256: seq<seq<bool>> :=
    [[true, false, true, true], [true, true, false, true], [true, true, true, false], [true, true, false, true]]

  /** Where each word of the shifted KL, KR, KA and KB goes; -1 for nowhere. */
  const INDEXES_128: seq<seq<int>> := [
    [0, 1, 2, 3, 8, 9, 10, 11, 38, 39, 36, 37, 23, 20, 21, 22, 27, -1, -1, 26],
    [-1, -1, -1, -1, -1, -1, -1, -1, -1, -1, -1, -1, -1, -1, -1, -1, -1, -1, -1, -1],
    [4, 5, 6, 7, 12, 13, 14, 15, 16, 17, 18, 19, -1, 24, 25, -1, 31, 28, 29, 30],
    [-1, -1, -1, -1, -1, -1, -1, -1, -1, -1, -1, -1, -1, -1, -1, -1, -1, -1, -1, -1]
  ]
  const INDEXES_256: seq<seq<int>> := [
    [0, 1, 2, 3, 61, 62, 63, 60, -1, -1, -1, -1, 27, 24, 25, 26, 35, 32, 33, 34],
    [-1, -1, -1, -1, 8, 9, 10, 11, 16, 17, 18, 19, -1, -1, -1, -1, 39, 36, 37, 38],
    [-1, -1, -1, -1, 12, 13, 14, 15, 58, 59, 56, 57, 31, 28, 29, 30, -1, -1, -1, -1],
    [4, 5, 6, 7, 65, 66, 67, 64, 20, 21, 22, 23, -1, -1, -1, -1, 43, 40, 41, 42]
  ]

  const TRANSPOSES_128: seq<int> := [21, 22, 23, 20, -1, -1, -1, -1, 18, 19, 16, 17, 11, 8, 9, 10, 15, 12, 13, 14]
  const TRANSPOSES_256: seq<int> := [25, 26, 27, 24, 29, 30, 31, 28, 18, 19, 16, 17, -1, -1, -1, -1, -1, -1, -1, -1]

  // ---- The subkeys of the standard ---------------------------------------------------------

  const KL := 0
  const KR := 1
  const KA := 2
  const KB := 3

  function PartIndex(p: Rfc3713.Part): (n: nat)
    ensures n < 4
  {
    match p
    case KL => 0
    case KR => 1
    case KA => 2
    case KB => 3
  }

  /** The words of all subkeys. */
  function Words(idx: nat): nat {
    52 + 16 * idx
  }

  function Part(kc: seq<Word>, part: nat): (k: seq<Word>)
    requires |kc| == 16 && part < 4
    ensures |k| == 4
  {
    kc[4 * part..4 * part + 4]
  }

  /** Word h of a subkey, for the parts KL, KR, KA and KB one behind the other. */
  function SubkeyWord(kc: seq<Word>, s: Rfc3713.Subkey, h: nat): Word
    requires |kc| == 16 && h < 2
  {
    var k := Part(kc, PartIndex(s.part));
    WordOf(Rotated(Cat(k[0], k[1], k[2], k[3]), s.amount), (if s.half.Low? then 2 else 0) + h)
  }

  // ---- Where the tables put the words -----------------------------------------------------------

  function Index(idx: nat, part: nat, i: nat): int
    requires idx < 2 && part < 4 && i < 20
  {
    if idx == 0 then INDEXES_128[part][i] else INDEXES_256[part][i]
  }

  function Shift(idx: nat, part: nat, g: nat): bool
    requires idx < 2 && part < 4 && g < 4
  {
    if idx == 0 then SHIFTS_128[part][g] else SHIFTS_256[part][g]
  }

  function Transpose(idx: nat, i: nat): int
    requires idx < 2 && i < 20
  {
    if idx == 0 then TRANSPOSES_128[i] else TRANSPOSES_256[i]
  }

  /** Each word of k shifted by n bits, with bits of the next one. */
  function Neighbours(k: seq<Word>, n: nat): (s: seq<Word>)
    requires |k| == 4
    ensures |s| == 4
  {
    [Shifted(k[0], k[1], n), Shifted(k[1], k[2], n), Shifted(k[2], k[3], n), Shifted(k[3], k[0], n)]
  }

  /** Word i of the five shifted copies of k: four words each for 0, 15, 30, 13 and 28 bits. */
  function Copied(k: seq<Word>, i: nat): Word
    requires |k| == 4 && i < 20
  {
    Neighbours(k, 15 * (i / 4) % 32)[i % 4]
  }

  /** Which of the copies holds a rotation, whole words aside. */
  function Copy(amount: nat): (g: nat)
    ensures g < 5
  {
    if amount == 0 then 0 else if amount == 15 || amount == 111 then 1 else if amount == 30 || amount == 94 then 2
    else if amount == 45 || amount == 77 then 3 else 4
  }

  /** By the standard: the part whose copies have word p of the subkeys, and the place in these 20 words. */
  function Owner(idx: nat, p: nat): (o: (nat, nat))
    requires idx < 2 && p < Words(idx)
    ensures o.1 < 20
  {
    var s := Rfc3713.SubkeyOf(idx, p / 2);
    (PartIndex(s.part), 4 * Copy(s.amount) + ((if s.half.Low? then 2 else 0) + p % 2 + s.amount / 32) % 4)
  }

  /** The word that the standard puts at p. */
  function SubkeyAt(kc: seq<Word>, idx: nat, p: nat): Word
    requires |kc| == 16 && idx < 2 && p < Words(idx)
  {
    SubkeyWord(kc, Rfc3713.SubkeyOf(idx, p / 2), p % 2)
  }

  /** It is found in the copies where Owner says. */
  lemma OwnerHasWord(kc: seq<Word>, idx: nat, p: nat)
    requires |kc| == 16 && idx < 2 && p < Words(idx)
    ensures var o := Owner(idx, p); Copied(Part(kc, o.0), o.1) == SubkeyAt(kc, idx, p)
  {
    hide Rotated, Cat, WordOf, Shifted, Neighbours, Rfc3713.SubkeyOf, Part, Copy, RotationUsed, PartIndex;
    var s := Rfc3713.SubkeyOf(idx, p / 2);
    var j := (if s.half.Low? then 2 else 0) + p % 2;
    RotationByWords(Part(kc, PartIndex(s.part)), s.amount, j);
    CopyAmount(s.amount);
    TwoDigits(Copy(s.amount), (j + s.amount / 32) % 4);
    NextWord(j + s.amount / 32);
    NeighbourAt(Part(kc, PartIndex(s.part)), s.amount % 32, (j + s.amount / 32) % 4);
  }

  lemma TwoDigits(g: nat, w: nat)
    requires w < 4
    ensures (4 * g + w) / 4 == g && (4 * g + w) % 4 == w
  {
  }

  lemma NeighbourAt(k: seq<Word>, n: nat, w: nat)
    requires |k| == 4 && w < 4
    ensures Neighbours(k, n)[w] == Shifted(k[w], k[(w + 1) % 4], n)
  {
    hide Shifted;
  }

  lemma NextWord(x: nat)
    ensures (x % 4 + 1) % 4 == (x + 1) % 4
  {
  }

  lemma CopyAmount(n: nat)
    requires RotationUsed(n)
    ensures 15 * Copy(n) % 32 == n % 32
  {
  }

  /** An entry of the index table agrees with the standard, and the copy it takes the word from has been made. */
  ghost predicate Agrees(idx: nat, part: nat, i: nat)
    requires idx < 2 && part < 4 && i < 20
  {
    var p := Index(idx, part, i);
    p != -1 ==> 0 <= p < Words(idx) && Owner(idx, p) == (part, i) && (i < 4 || Shift(idx, part, i / 4 - 1))
  }

  /** Word p comes straight from the index table. */
  ghost predicate Direct(idx: nat, p: nat)
    requires idx < 2 && p < Words(idx)
  {
    var o := Owner(idx, p);
    o.0 < 4 && Index(idx, o.0, o.1) == p
  }

  /** Entry i of the transpositions copies one of the first 32 words to where the standard has it again. */
  ghost predicate Repeats(idx: nat, i: nat)
    requires idx < 2 && i < 20
  {
    var q := Transpose(idx, i);
    0 <= q < 32 && Owner(idx, q) == Owner(idx, 32 + 12 * idx + i)
  }

  lemma IndexesAgree(idx: nat, part: nat, i: nat)
    requires idx < 2 && part < 4 && i < 20
    ensures Agrees(idx, part, i)
  {
    hide Agrees;
    if i < 10 {
      match (idx, part) {
        case (0, 0) => Kl128Low();
        case (0, 2) => Ka128Low();
        case (0, _) => NothingElse128();
        case (_, 0) => Kl256Low();
        case (_, 1) => Kr256Low();
        case (_, 2) => Ka256Low();
        case _ => Kb256Low();
      }
    } else {
      match (idx, part) {
        case (0, 0) => Kl128High();
        case (0, 2) => Ka128High();
        case (0, _) => NothingElse128();
        case (_, 0) => Kl256High();
        case (_, 1) => Kr256High();
        case (_, 2) => Ka256High();
        case _ => Kb256High();
      }
    }
  }

  lemma TransposesAgree(idx: nat, i: nat)
    requires idx < 2 && i < 20
    ensures Transpose(idx, i) == -1 || Repeats(idx, i)
  {
    hide Repeats;
    NoTransposes();
    if idx == 0 {
      Repeats128From32();
      Repeats128From40();
      Repeats128From44();
      Repeats128From48();
    } else {
      Repeats256From44();
      Repeats256From48();
      Repeats256From52();
    }
  }

  /** Every word of the subkeys comes from somewhere. */
  lemma Covered(idx: nat, p: nat)
    requires idx < 2 && p < Words(idx)
    ensures Direct(idx, p) || (0 <= p - 32 - 12 * idx < 20 && Repeats(idx, p - 32 - 12 * idx))
  {
    hide Direct, Repeats;
    if idx == 0 {
      if p < 8 {
        Direct128From0();
      } else if p < 16 {
        Direct128From8();
      } else if p < 24 {
        Direct128From16();
      } else if p < 32 {
        Direct128From24();
      } else if p < 36 {
        Repeats128From32();
      } else if p < 40 {
        Direct128From36();
      } else if p < 44 {
        Repeats128From40();
      } else if p < 48 {
        Repeats128From44();
      } else {
        Repeats128From48();
      }
    } else {
      if p < 8 {
        Direct256From0();
      } else if p < 16 {
        Direct256From8();
      } else if p < 24 {
        Direct256From16();
      } else if p < 32 {
        Direct256From24();
      } else if p < 40 {
        Direct256From32();
      } else if p < 44 {
        Direct256From40();
      } else if p < 48 {
        Repeats256From44();
      } else if p < 52 {
        Repeats256From48();
      } else if p < 56 {
        Repeats256From52();
      } else if p < 62 {
        Direct256From56();
      } else {
        Direct256From62();
      }
    }
  }

  // ---- The tables against the standard, entry by entry ----------------------------------------------

  lemma Kl128Low()
    ensures forall i :: 0 <= i < 10 ==> Agrees(0, 0, i)
  {
  }

  lemma Kl128High()
    ensures forall i :: 10 <= i < 20 ==> Agrees(0, 0, i)
  {
  }

  lemma Ka128Low()
    ensures forall i :: 0 <= i < 10 ==> Agrees(0, 2, i)
  {
  }

  lemma Ka128High()
    ensures forall i :: 10 <= i < 20 ==> Agrees(0, 2, i)
  {
  }

  lemma Kl256Low()
    ensures forall i :: 0 <= i < 10 ==> Agrees(1, 0, i)
  {
  }

  lemma Kl256High()
    ensures forall i :: 10 <= i < 20 ==> Agrees(1, 0, i)
  {
  }

  lemma Kr256Low()
    ensures forall i :: 0 <= i < 10 ==> Agrees(1, 1, i)
  {
  }

  lemma Kr256High()
    ensures forall i :: 10 <= i < 20 ==> Agrees(1, 1, i)
  {
  }

  lemma Ka256Low()
    ensures forall i :: 0 <= i < 10 ==> Agrees(1, 2, i)
  {
  }

  lemma Ka256High()
    ensures forall i :: 10 <= i < 20 ==> Agrees(1, 2, i)
  {
  }

  lemma Kb256Low()
    ensures forall i :: 0 <= i < 10 ==> Agrees(1, 3, i)
  {
  }

  lemma Kb256High()
    ensures forall i :: 10 <= i < 20 ==> Agrees(1, 3, i)
  {
  }

  lemma NothingElse128()
    ensures forall i :: 0 <= i < 20 ==> Agrees(0, 1, i) && Agrees(0, 3, i)
  {
  }

  lemma NoTransposes()
    ensures forall i :: 4 <= i < 8 ==> Transpose(0, i) == -1
    ensures forall i :: 12 <= i < 20 ==> Transpose(1, i) == -1
  {
  }

  lemma Direct128From0()
    ensures forall p :: 0 <= p < 8 ==> Direct(0, p)
  {
  }

  lemma Direct128From8()
    ensures forall p :: 8 <= p < 16 ==> Direct(0, p)
  {
  }

  lemma Direct128From16()
    ensures forall p :: 16 <= p < 24 ==> Direct(0, p)
  {
  }

  lemma Direct128From24()
    ensures forall p :: 24 <= p < 32 ==> Direct(0, p)
  {
  }

  lemma Repeats128From32()
    ensures forall i :: 0 <= i < 4 ==> Repeats(0, i)
  {
  }

  lemma Direct128From36()
    ensures forall p :: 36 <= p < 40 ==> Direct(0, p)
  {
  }

  lemma Repeats128From40()
    ensures forall i :: 8 <= i < 12 ==> Repeats(0, i)
  {
  }

  lemma Repeats128From44()
    ensures forall i :: 12 <= i < 16 ==> Repeats(0, i)
  {
  }

  lemma Repeats128From48()
    ensures forall i :: 16 <= i < 20 ==> Repeats(0, i)
  {
  }

  lemma Direct256From0()
    ensures forall p :: 0 <= p < 8 ==> Direct(1, p)
  {
  }

  lemma Direct256From8()
    ensures forall p :: 8 <= p < 16 ==> Direct(1, p)
  {
  }

  lemma Direct256From16()
    ensures forall p :: 16 <= p < 24 ==> Direct(1, p)
  {
  }

  lemma Direct256From24()
    ensures forall p :: 24 <= p < 32 ==> Direct(1, p)
  {
  }

  lemma Direct256From32()
    ensures forall p :: 32 <= p < 40 ==> Direct(1, p)
  {
  }

  lemma Direct256From40()
    ensures forall p :: 40 <= p < 44 ==> Direct(1, p)
  {
  }

  lemma Repeats256From44()
    ensures forall i :: 0 <= i < 4 ==> Repeats(1, i)
  {
  }

  lemma Repeats256From48()
    ensures forall i :: 4 <= i < 8 ==> Repeats(1, i)
  {
  }

  lemma Repeats256From52()
    ensures forall i :: 8 <= i < 12 ==> Repeats(1, i)
  {
  }

  lemma Direct256From56()
    ensures forall p :: 56 <= p < 62 ==> Direct(1, p)
  {
  }

  lemma Direct256From62()
    ensures forall p :: 62 <= p < 68 ==> Direct(1, p)
  {
  }

  // ---- The schedule as a function ------------------------------------------------------------------

  /** All subkeys of the standard, zeros behind them. */
  function Schedule(kc: seq<Word>, idx: nat): (rk: seq<Word>)
    requires |kc| == 16 && idx < 2
    ensures |rk| == 68
  {
    seq(68, p requires 0 <= p < 68 => if p < Words(idx) then SubkeyAt(kc, idx, p) else 0)
  }

  // ---- Placing the words ------------------------------------------------------------------------------

  /** ROTL: the first four words, shifted by n bits, into those from dest on. */
  method Rotl(tk: array<Word>, dest: nat, n: nat)
    requires 4 <= dest && dest + 4 <= tk.Length
    modifies tk
    ensures tk[dest..dest + 4] == Neighbours(old(tk[..4]), n)
    ensures tk[..dest] == old(tk[..dest]) && tk[dest + 4..] == old(tk[dest + 4..])
  {
    hide Shifted;
    tk[dest] := Shifted(tk[0], tk[1], n);
    tk[dest + 1] := Shifted(tk[1], tk[2], n);
    tk[dest + 2] := Shifted(tk[2], tk[3], n);
    tk[dest + 3] := Shifted(tk[3], tk[0], n);
  }

  /** The shifted copies of k that have been asked for, the first n of five. */
  ghost predicate HasCopies(tk: seq<Word>, k: seq<Word>, idx: nat, part: nat, n: nat)
    requires |k| == 4 && idx < 2 && part < 4 && n <= 5
  {
    |tk| == 20 && tk[..4] == k
    && forall g :: 1 <= g < n && Shift(idx, part, g - 1) ==> tk[4 * g..4 * g + 4] == Neighbours(k, 15 * g % 32)
  }

  method MakeCopies(kc: seq<Word>, tk: array<Word>, idx: nat, part: nat)
    requires |kc| == 16 && tk.Length == 20 && idx < 2 && part < 4
    modifies tk
    ensures HasCopies(tk[..], Part(kc, part), idx, part, 5)
  {
    hide Neighbours, Shift;
    tk[0], tk[1], tk[2], tk[3] := kc[part * 4], kc[part * 4 + 1], kc[part * 4 + 2], kc[part * 4 + 3];
    ghost var k := Part(kc, part);
    for i := 1 to 5
      invariant HasCopies(tk[..], k, idx, part, i)
    {
      ghost var was := tk[..];
      if Shift(idx, part, i - 1) {
        Rotl(tk, i * 4, 15 * i % 32);
      }
      OneMoreCopy(was, tk[..], k, idx, part, i);
    }
  }

  lemma OneMoreCopy(tk: seq<Word>, tk': seq<Word>, k: seq<Word>, idx: nat, part: nat, i: nat)
    requires |k| == 4 && idx < 2 && part < 4 && 1 <= i < 5 && HasCopies(tk, k, idx, part, i) && |tk'| == 20
    requires tk'[..4 * i] == tk[..4 * i]
    requires Shift(idx, part, i - 1) ==> tk'[4 * i..4 * i + 4] == Neighbours(k, 15 * i % 32)
    ensures HasCopies(tk', k, idx, part, i + 1)
  {
    hide Neighbours, Shift;
    assert tk'[..4] == tk'[..4 * i][..4] && tk[..4] == tk[..4 * i][..4];
    forall g | 1 <= g < i && Shift(idx, part, g - 1) ensures tk'[4 * g..4 * g + 4] == Neighbours(k, 15 * g % 32) {
      assert tk'[4 * g..4 * g + 4] == tk'[..4 * i][4 * g..4 * g + 4];
      assert tk[4 * g..4 * g + 4] == tk[..4 * i][4 * g..4 * g + 4];
    }
  }

  lemma CopyAt(tk: seq<Word>, k: seq<Word>, idx: nat, part: nat, i: nat)
    requires |k| == 4 && idx < 2 && part < 4 && HasCopies(tk, k, idx, part, 5) && i < 20
    requires i < 4 || Shift(idx, part, i / 4 - 1)
    ensures tk[i] == Copied(k, i)
  {
    hide Shift;
    var g, w := i / 4, i % 4;
    if g == 0 {
      assert tk[i] == tk[..4][i];
    } else {
      assert tk[i] == tk[4 * g..4 * g + 4][w];
    }
  }

  /** The words of the finished parts are where the index table puts them, and nothing is behind the subkeys. */
  ghost predicate Placed(rk: seq<Word>, kc: seq<Word>, idx: nat, done: nat)
    requires |kc| == 16 && idx < 2
  {
    |rk| == 68 && (forall p :: Words(idx) <= p < 68 ==> rk[p] == 0)
    && forall p :: 0 <= p < Words(idx) && Direct(idx, p) && Owner(idx, p).0 < done ==> rk[p] == Owned(kc, idx, p)
  }

  /** The copied word that belongs at p. */
  function Owned(kc: seq<Word>, idx: nat, p: nat): Word
    requires |kc| == 16 && idx < 2 && p < Words(idx)
  {
    Copied(Part(kc, Owner(idx, p).0), Owner(idx, p).1)
  }

  /** SHIFT_AND_PLACE. */
  method ShiftAndPlace(rk: array<Word>, kc: seq<Word>, tk: array<Word>, idx: nat, part: nat)
    requires |kc| == 16 && rk.Length == 68 && tk.Length == 20 && rk != tk && idx < 2 && part < 4
    requires Placed(rk[..], kc, idx, part)
    modifies rk, tk
    ensures Placed(rk[..], kc, idx, part + 1)
  {
    hide Copied, Owner, Index, Shift, Part, HasCopies;
    MakeCopies(kc, tk, idx, part);
    ghost var was, copies := rk[..], tk[..];
    for i := 0 to 20
      invariant tk[..] == copies && forall p :: Words(idx) <= p < 68 ==> rk[p] == 0
      invariant forall p :: 0 <= p < Words(idx) && !(Direct(idx, p) && Owner(idx, p).0 == part) ==> rk[p] == was[p]
      invariant forall p :: 0 <= p < Words(idx) && Direct(idx, p) && Owner(idx, p).0 == part && Owner(idx, p).1 < i ==>
                  rk[p] == Owned(kc, idx, p)
    {
      IndexesAgree(idx, part, i);
      if Index(idx, part, i) != -1 {
        CopyAt(copies, Part(kc, part), idx, part, i);
        rk[Index(idx, part, i)] := tk[i];
      }
    }
  }

  /** A part that no table entry takes a word from. */
  lemma NothingPlaced(rk: seq<Word>, kc: seq<Word>, part: nat)
    requires |kc| == 16 && (part == KR || part == KB) && Placed(rk, kc, 0, part)
    ensures Placed(rk, kc, 0, part + 1)
  {
    hide Copied, Part, Rfc3713.Subkey128;
    forall p | 0 <= p < Words(0) && Direct(0, p) ensures Owner(0, p).0 != part {
      Skipped128(p / 2);
    }
  }

  lemma Skipped128(n: nat)
    requires n < 26
    ensures PartIndex(Rfc3713.SubkeyOf(0, n).part) != KR && PartIndex(Rfc3713.SubkeyOf(0, n).part) != KB
  {
  }

  /** The words that the standard uses twice. */
  method DoTranspositions(rk: array<Word>, ghost kc: seq<Word>, idx: nat)
    requires |kc| == 16 && rk.Length == 68 && idx < 2
    requires Placed(rk[..], kc, idx, 4)
    modifies rk
    ensures rk[..] == Schedule(kc, idx)
  {
    hide Copied, Owner, Index, Transpose, Part, SubkeyAt;
    for i := 0 to 20
      invariant Placed(rk[..], kc, idx, 4)
      invariant forall j :: 0 <= j < i && Repeats(idx, j) ==> rk[32 + 12 * idx + j] == Owned(kc, idx, 32 + 12 * idx + j)
    {
      TransposesAgree(idx, i);
      if Transpose(idx, i) != -1 {
        Covered(idx, Transpose(idx, i));
        rk[32 + 12 * idx + i] := rk[Transpose(idx, i)];
      }
    }
    forall p | 0 <= p < Words(idx) ensures rk[p] == SubkeyAt(kc, idx, p) {
      Covered(idx, p);
      OwnerHasWord(kc, idx, p);
    }
  }

  // ---- The key parts -----------------------------------------------------------------------------------

  /** MBEDTLS_GET_UINT32_BE. */
  function BeWord(s: seq<Octet>, i: nat): Word
    requires i + 4 <= |s|
  {
    OctetsToWord(s[i], s[i + 1], s[i + 2], s[i + 3])
  }

  /** The 32 key bytes: a 128-bit key is followed by zeros, a 192-bit key by the complement of its last third. */
  function FullKey(key: seq<Octet>): (s: seq<Octet>)
    requires |key| in {16, 24, 32}
    ensures |s| == 32
  {
    if |key| == 16 then key + seq(16, _ => 0) else if |key| == 24 then key + seq(8, i requires 0 <= i < 8 => !key[16 + i]) else key
  }

  const SIGMA_CHARS: seq<seq<Octet>> := [
    [0xa0, 0x9e, 0x66, 0x7f, 0x3b, 0xcc, 0x90, 0x8b],
    [0xb6, 0x7a, 0xe8, 0x58, 0x4c, 0xaa, 0x73, 0xb2],
    [0xc6, 0xef, 0x37, 0x2f, 0xe9, 0x4f, 0x82, 0xbe],
    [0x54, 0xff, 0x53, 0xa5, 0xf1, 0xd3, 0x6f, 0x1c],
    [0x10, 0xe5, 0x27, 0xfa, 0xde, 0x68, 0x2d, 0x1d],
    [0xb0, 0x56, 0x88, 0xc2, 0xb3, 0xe6, 0xc1, 0xfd]
  ]

  /** A 64-bit half. */
  type Half = (Word, Word)

  function Sum(x: Half, y: Half): Half {
    (Mix(x.0, y.0), Mix(x.1, y.1))
  }

  /** D2 ^ F(D1, Sigma_(i + 1)). */
  function Fed(t: Boxes, target: Half, source: Half, i: nat): Half
    requires i < 6
  {
    Sum(target, F(t, source.0, source.1, BeWord(SIGMA_CHARS[i], 0), BeWord(SIGMA_CHARS[i], 4)))
  }

  function HalfAt(s: seq<Octet>, i: nat): Half
    requires i + 8 <= |s|
  {
    (BeWord(s, i), BeWord(s, i + 4))
  }

  /** KA: four rounds over KL ^ KR, with KL added in the middle. */
  function MakeKA(t: Boxes, kl: (Half, Half), kr: (Half, Half)): (Half, Half) {
    var d1, d2 := Sum(kl.0, kr.0), Sum(kl.1, kr.1);
    var e2 := Fed(t, d2, d1, 0);
    var e1 := Fed(t, d1, e2, 1);
    var f1, f2 := Sum(e1, kl.0), Sum(e2, kl.1);
    var g2 := Fed(t, f2, f1, 2);
    (Fed(t, f1, g2, 3), g2)
  }

  /** KB: two more rounds over KA ^ KR. */
  function MakeKB(t: Boxes, ka: (Half, Half), kr: (Half, Half)): (Half, Half) {
    var d1, d2 := Sum(kr.0, ka.0), Sum(kr.1, ka.1);
    var e2 := Fed(t, d2, d1, 4);
    (Fed(t, d1, e2, 5), e2)
  }

  function Flat(x: (Half, Half)): (s: seq<Word>)
    ensures |s| == 4
  {
    [x.0.0, x.0.1, x.1.0, x.1.1]
  }

  /** KL, KR, KA and, for longer keys, KB. */
  function KeyParts(t: Boxes, key: seq<Octet>): (kc: seq<Word>)
    requires |key| in {16, 24, 32}
    ensures |kc| == 16
  {
    var s := FullKey(key);
    var kl, kr := (HalfAt(s, 0), HalfAt(s, 8)), (HalfAt(s, 16), HalfAt(s, 24));
    var ka := MakeKA(t, kl, kr);
    Flat(kl) + Flat(kr) + Flat(ka) + if |key| == 16 then [0, 0, 0, 0] else Flat(MakeKB(t, ka, kr))
  }

  /** The round keys of the standard. */
  function RoundKeys(t: Boxes, key: seq<Octet>): (rk: seq<Word>)
    requires |key| in {16, 24, 32}
    ensures |rk| == 68
  {
    Schedule(KeyParts(t, key), if |key| == 16 then 0 else 1)
  }

  // ---- Making the key parts -----------------------------------------------------------------------------

  /** The words of an array of 16, two by two. */
  ghost function Halves(kc: seq<Word>): (h: seq<Half>)
    requires |kc| == 16
    ensures |h| == 8
  {
    [(kc[0], kc[1]), (kc[2], kc[3]), (kc[4], kc[5]), (kc[6], kc[7]),
     (kc[8], kc[9]), (kc[10], kc[11]), (kc[12], kc[13]), (kc[14], kc[15])]
  }

  lemma FromHalves(kc: seq<Word>)
    requires |kc| == 16
    ensures var h := Halves(kc); kc == Flat((h[0], h[1])) + Flat((h[2], h[3])) + Flat((h[4], h[5])) + Flat((h[6], h[7]))
  {
  }

  lemma HalfChanged(kc: seq<Word>, z: nat, x: Half)
    requires |kc| == 16 && z < 8
    ensures Halves(kc[2 * z := x.0][2 * z + 1 := x.1]) == Halves(kc)[z := x]
  {
  }

  lemma HalfOf(kc: seq<Word>, z: nat)
    requires |kc| == 16 && z < 8
    ensures Halves(kc)[z] == (kc[2 * z], kc[2 * z + 1])
  {
  }

  /** camellia_feistel: the half at xi, run through F, goes into the half at zi. */
  method Feistel(t: Boxes, X: array<Word>, xi: nat, k0: Word, k1: Word, zi: nat)
    requires xi + 2 <= X.Length && zi + 2 <= X.Length && (xi + 2 <= zi || zi + 2 <= xi)
    modifies X
    ensures X[..] == old(var z := Sum((X[zi], X[zi + 1]), F(t, X[xi], X[xi + 1], k0, k1)); X[..][zi := z.0][zi + 1 := z.1])
  {
    hide Mix, F;
    var f := F(t, X[xi], X[xi + 1], k0, k1);
    X[zi] := Mix(X[zi], f.0);
    X[zi + 1] := Mix(X[zi + 1], f.1);
  }

  /** A round over the halves, with one of the constants. */
  method Feed(t: Boxes, KC: array<Word>, x: nat, i: nat, z: nat)
    requires KC.Length == 16 && x < 8 && z < 8 && x != z && i < 6
    modifies KC
    ensures Halves(KC[..]) == old(Halves(KC[..])[z := Fed(t, Halves(KC[..])[z], Halves(KC[..])[x], i)])
  {
    hide Sum, F, BeWord, Halves;
    ghost var was := KC[..];
    HalfOf(was, x);
    HalfOf(was, z);
    HalfChanged(was, z, Fed(t, Halves(was)[z], Halves(was)[x], i));
    Feistel(t, KC, 2 * x, BeWord(SIGMA_CHARS[i], 0), BeWord(SIGMA_CHARS[i], 4), 2 * z);
  }

  /** Four words added to four others. */
  method AddWords(KC: array<Word>, d: nat, a: nat, b: nat)
    requires KC.Length == 16 && d + 4 <= 16 && (a == d || a + 4 <= d) && b + 4 <= d
    modifies KC
    ensures forall j :: 0 <= j < 16 && !(d <= j < d + 4) ==> KC[j] == old(KC[j])
    ensures KC[d] == Mix(old(KC[a]), old(KC[b])) && KC[d + 1] == Mix(old(KC[a + 1]), old(KC[b + 1]))
    ensures KC[d + 2] == Mix(old(KC[a + 2]), old(KC[b + 2])) && KC[d + 3] == Mix(old(KC[a + 3]), old(KC[b + 3]))
  {
    hide Mix;
    for i := 0 to 4
      invariant forall j :: 0 <= j < 16 && !(d <= j < d + i) ==> KC[j] == old(KC[j])
      invariant i > 0 ==> KC[d] == Mix(old(KC[a]), old(KC[b]))
      invariant i > 1 ==> KC[d + 1] == Mix(old(KC[a + 1]), old(KC[b + 1]))
      invariant i > 2 ==> KC[d + 2] == Mix(old(KC[a + 2]), old(KC[b + 2]))
      invariant i > 3 ==> KC[d + 3] == Mix(old(KC[a + 3]), old(KC[b + 3]))
    {
      KC[d + i] := Mix(KC[a + i], KC[b + i]);
    }
  }

  /** Two halves added to two others. */
  method AddParts(KC: array<Word>, dest: nat, a: nat, b: nat)
    requires KC.Length == 16 && dest <= 6 && (a == dest || a + 2 <= dest) && b + 2 <= dest
    modifies KC
    ensures Halves(KC[..]) == old(var h := Halves(KC[..]); h[dest := Sum(h[a], h[b])][dest + 1 := Sum(h[a + 1], h[b + 1])])
  {
    hide Mix, Halves;
    ghost var was := KC[..];
    AddWords(KC, 2 * dest, 2 * a, 2 * b);
    HalfOf(was, a);
    HalfOf(was, b);
    HalfOf(was, a + 1);
    HalfOf(was, b + 1);
    ghost var x, y := Sum(Halves(was)[a], Halves(was)[b]), Sum(Halves(was)[a + 1], Halves(was)[b + 1]);
    HalfChanged(was, dest, x);
    HalfChanged(was[2 * dest := x.0][2 * dest + 1 := x.1], dest + 1, y);
    assert KC[..] == was[2 * dest := x.0][2 * dest + 1 := x.1][2 * dest + 2 := y.0][2 * dest + 3 := y.1];
  }

  /** The key bytes, completed. */
  method CompleteKey(key: seq<Octet>, t: array<Octet>)
    requires |key| in {16, 24, 32} && t.Length == 64 && forall k :: 0 <= k < 64 ==> t[k] == 0
    modifies t
    ensures t[..32] == FullKey(key)
  {
    for i := 0 to |key|
      invariant forall k :: 0 <= k < i ==> t[k] == key[k]
      invariant forall k :: i <= k < 64 ==> t[k] == 0
    {
      t[i] := key[i];
    }
    if |key| == 24 {
      for i := 0 to 8
        invariant forall k :: 0 <= k < 24 ==> t[k] == key[k]
        invariant forall k :: 24 <= k < 24 + i ==> t[k] == !key[k - 8]
      {
        t[24 + i] := !t[16 + i];
      }
    }
  }

  /** KL and KR, and zeros behind them. */
  method StoreKey(key: seq<Octet>, KC: array<Word>)
    requires |key| in {16, 24, 32} && KC.Length == 16 && forall k :: 0 <= k < 16 ==> KC[k] == 0
    modifies KC
    ensures var s := FullKey(key);
            Halves(KC[..]) == [HalfAt(s, 0), HalfAt(s, 8), HalfAt(s, 16), HalfAt(s, 24), (0, 0), (0, 0), (0, 0), (0, 0)]
  {
    hide FullKey, BeWord;
    var t := new Octet[64](_ => 0);
    CompleteKey(key, t);
    ghost var s := FullKey(key);
    for i := 0 to 8
      invariant t[..32] == s && forall k :: 0 <= k < i ==> KC[k] == BeWord(s, 4 * k)
      invariant forall k :: 8 <= k < 16 ==> KC[k] == 0
    {
      SameWord(t[..], s, 4 * i);
      KC[i] := BeWord(t[..], 4 * i);
    }
  }

  lemma SameWord(x: seq<Octet>, s: seq<Octet>, i: nat)
    requires |s| == 32 <= |x| && x[..32] == s && i + 4 <= 32
    ensures BeWord(x, i) == BeWord(s, i)
  {
    hide OctetsToWord;
    assert x[i] == x[..32][i] && x[i + 1] == x[..32][i + 1] && x[i + 2] == x[..32][i + 2] && x[i + 3] == x[..32][i + 3];
  }

  /** KA, and for longer keys KB, behind them. */
  method GenerateParts(b: Boxes, KC: array<Word>, long: bool)
    requires KC.Length == 16
    modifies KC
    ensures Halves(KC[..]) == old(var h := Halves(KC[..]);
                                  var ka := MakeKA(b, (h[0], h[1]), (h[2], h[3]));
                                  var kb := if long then MakeKB(b, ka, (h[2], h[3])) else (h[6], h[7]);
                                  [h[0], h[1], h[2], h[3], ka.0, ka.1, kb.0, kb.1])
  {
    hide Fed, Sum, Halves;
    AddParts(KC, 4, 0, 2);
    Feed(b, KC, 4, 0, 5);
    Feed(b, KC, 5, 1, 4);
    AddParts(KC, 4, 4, 0);
    Feed(b, KC, 4, 2, 5);
    Feed(b, KC, 5, 3, 4);
    if long {
      AddParts(KC, 6, 2, 4);
      Feed(b, KC, 6, 4, 7);
      Feed(b, KC, 7, 5, 6);
    }
  }

  /** The schedule for a key of 16, 24 or 32 bytes. */
  method MakeRoundKeys(b: Boxes, key: seq<Octet>, rk: array<Word>)
    requires |key| in {16, 24, 32} && rk.Length == 68 && forall k :: 0 <= k < 68 ==> rk[k] == 0
    modifies rk
    ensures rk[..] == RoundKeys(b, key)
  {
    hide FullKey, HalfAt, MakeKA, MakeKB, Placed, Schedule, Halves;
    var idx := if |key| == 16 then 0 else 1;
    var KC := new Word[16](_ => 0);
    var TK := new Word[20];
    StoreKey(key, KC);
    GenerateParts(b, KC, idx == 1);
    ghost var kc := KC[..];
    FromHalves(kc);
    assert kc == KeyParts(b, key);
    NothingYet(rk[..], kc, idx);
    ShiftAndPlace(rk, KC[..], TK, idx, KL);
    if idx == 1 {
      ShiftAndPlace(rk, KC[..], TK, idx, KR);
    } else {
      NothingPlaced(rk[..], kc, KR);
    }
    ShiftAndPlace(rk, KC[..], TK, idx, KA);
    if idx == 1 {
      ShiftAndPlace(rk, KC[..], TK, idx, KB);
    } else {
      NothingPlaced(rk[..], kc, KB);
    }
    DoTranspositions(rk, kc, idx);
  }

  lemma NothingYet(rk: seq<Word>, kc: seq<Word>, idx: nat)
    requires |kc| == 16 && idx < 2 && |rk| == 68 && forall p :: 0 <= p < 68 ==> rk[p] == 0
    ensures Placed(rk, kc, idx, 0)
  {
  }
}
