/** Printing and parsing of mpis in radix 2 to 16 (mbedtls_mpi_write_string, mbedtls_mpi_read_string). */
module MpiString {
  import opened Arith
  import opened Words
  import opened CoreBits
  import opened Mpis
  import MpiAddSub
  import opened MpiDiv
  import MpiModInt
  import MpiMul
  import MpiShift
  import opened Bytes

  // ---- Digits ------------------------------------------------------------------------

  function DigitChar(r: nat): char
    requires r < 16
  {
    if r < 10 then '0' + r as char else 'A' + (r - 10) as char
  }

  /** mpi_get_digit: the value of a digit character, 255 for anything else. */
  function DigitValue(c: char): nat {
    if '0' <= c <= '9' then (c - '0') as nat
    else if 'A' <= c <= 'F' then (c - 'A') as nat + 10
    else if 'a' <= c <= 'f' then (c - 'a') as nat + 10
    else 255
  }

  /** Reading a digit that was written gives it back; no digit is a terminator or a sign. */
  lemma DigitRoundTrip(r: nat)
    requires r < 16
    ensures DigitValue(DigitChar(r)) == r && DigitChar(r) != '\0' && DigitChar(r) != '-'
  {
  }

  const UPPER := "0123456789ABCDEF"
  const LOWER := "0123456789abcdef"

  /** The digits by their place in the two alphabets, which nothing else belongs to. */
  lemma DigitMeans(c: char, d: nat)
    requires d < 16
    ensures DigitChar(d) == UPPER[d]
    ensures DigitValue(c) == d <==> c == UPPER[d] || c == LOWER[d]
    ensures DigitValue(c) < 16 || DigitValue(c) == 255
  {
  }

  predicate Numeral(s: string, radix: nat) {
    forall k :: 0 <= k < |s| ==> DigitValue(s[k]) < radix
  }

  /** The number a numeral denotes, most significant digit first. */
  function ParseVal(s: string, radix: nat): nat {
    if s == [] then 0 else ParseVal(s[..|s| - 1], radix) * radix + DigitValue(s[|s| - 1])
  }

  lemma ParseSnoc(s: string, c: char, radix: nat)
    ensures ParseVal(s + [c], radix) == ParseVal(s, radix) * radix + DigitValue(c)
  {
    assert (s + [c])[..|s|] == s;
  }

  lemma {:induction false} ParseCons(c: char, s: string, radix: nat)
    ensures ParseVal([c] + s, radix) == DigitValue(c) * Pow(radix, |s|) + ParseVal(s, radix)
  {
    if s == [] {
      assert [c] + s == [] + [c];
      ParseSnoc([], c, radix);
    } else {
      var t, d := s[..|s| - 1], s[|s| - 1];
      ParseCons(c, t, radix);
      assert [c] + s == ([c] + t) + [d] && s == t + [d];
      ParseSnoc([c] + t, d, radix);
      ParseSnoc(t, d, radix);
      Shifted(DigitValue(c), Pow(radix, |t|), ParseVal(t, radix), radix);
    }
  }

  /** The empty text denotes 0, a single digit its place in the alphabet, and a text put in front of another is weighed by
      the radix to the power of the other's length. */
  lemma {:induction false} PositionalValue(s: string, t: string, radix: nat, d: nat)
    requires d < 16
    ensures ParseVal("", radix) == 0 && ParseVal([UPPER[d]], radix) == d && ParseVal([LOWER[d]], radix) == d
    ensures ParseVal(s + t, radix) == ParseVal(s, radix) * Pow(radix, |t|) + ParseVal(t, radix)
    decreases |t|
  {
    OneDigit(UPPER[d], radix);
    OneDigit(LOWER[d], radix);
    DigitMeans(UPPER[d], d);
    DigitMeans(LOWER[d], d);
    if t == [] {
      assert s + t == s;
    } else {
      var u, c := t[..|t| - 1], t[|t| - 1];
      PositionalValue(s, u, radix, d);
      assert s + t == (s + u) + [c];
      ParseSnoc(s + u, c, radix);
      Shifted(ParseVal(s, radix), Pow(radix, |u|), ParseVal(u, radix), radix);
    }
  }

  lemma OneDigit(c: char, radix: nat)
    ensures ParseVal([c], radix) == DigitValue(c)
  {
    assert [c][..0] == [];
  }

  /** A numeral has nothing but digits below the radix, in either case. */
  lemma NumeralMeans(s: string, radix: nat)
    requires radix <= 16
    ensures Numeral(s, radix) <==> forall k :: 0 <= k < |s| ==> s[k] in UPPER[..radix] || s[k] in LOWER[..radix]
  {
    forall k | 0 <= k < |s|
      ensures DigitValue(s[k]) < radix <==> s[k] in UPPER[..radix] || s[k] in LOWER[..radix]
    {
      DigitIn(s[k], radix);
    }
  }

  lemma DigitIn(c: char, radix: nat)
    requires radix <= 16
    ensures DigitValue(c) < radix <==> c in UPPER[..radix] || c in LOWER[..radix]
  {
    hide DigitValue;
    forall d | 0 <= d < 16 ensures DigitValue(c) == d <==> c == UPPER[d] || c == LOWER[d] {
      DigitMeans(c, d);
    }
    if DigitValue(c) < radix {
      var d := DigitValue(c);
      assert c == UPPER[..radix][d] || c == LOWER[..radix][d];
    }
  }

  /** The letters A to F of a text in lower case. */
  function Lowered(s: string): (t: string)
    ensures |t| == |s|
  {
    seq(|s|, k requires 0 <= k < |s| => if 'A' <= s[k] <= 'F' then s[k] - 'A' + 'a' else s[k])
  }

  /** Case does not matter. */
  lemma {:induction false} CaseIgnored(s: string, radix: nat)
    ensures Numeral(Lowered(s), radix) <==> Numeral(s, radix)
    ensures ParseVal(Lowered(s), radix) == ParseVal(s, radix)
  {
    forall k | 0 <= k < |s| ensures DigitValue(Lowered(s)[k]) == DigitValue(s[k]) {
    }
    if s != "" {
      CaseIgnored(s[..|s| - 1], radix);
      assert Lowered(s)[..|s| - 1] == Lowered(s[..|s| - 1]);
    }
  }

  lemma Shifted(d: nat, p: int, v: nat, radix: nat)
    ensures (d * p + v) * radix == d * (radix * p) + v * radix
  {
  }

  lemma Smaller(v: nat, radix: nat)
    requires 2 <= radix <= v
    ensures 0 <= v / radix < v
  {
    if v / radix >= v {
      MulMono(v, v / radix, radix);
      MulMono(2, radix, v);
    }
  }

  /** The digits of v in a radix below 16, as the do-while loop produces them: 0 has one digit. */
  function Digits(v: nat, radix: nat): (s: string)
    requires 2 <= radix <= 16
    ensures |s| >= 1
  {
    (if v < radix then [] else
       Smaller(v, radix);
       Digits(v / radix, radix)) + [DigitChar(v % radix)]
  }

  /** A string that parses to v and holds neither a terminator nor a sign. */
  ghost predicate Denotes(s: string, radix: nat, v: int) {
    Numeral(s, radix) && ParseVal(s, radix) == v && '\0' !in s && '-' !in s
  }

  lemma DenotesSnoc(s: string, radix: nat, v: nat, r: nat)
    requires Denotes(s, radix, v) && r < radix <= 16
    ensures Denotes(s + [DigitChar(r)], radix, v * radix + r)
  {
    hide ParseVal, DigitChar, DigitValue;
    DigitRoundTrip(r);
    ParseSnoc(s, DigitChar(r), radix);
  }

  lemma NothingDenotes(radix: nat)
    ensures Denotes([], radix, 0)
  {
  }

  // ---- How many digits ------------------------------------------------------------------

  /** The buffer size the printer asks for. */
  function WriteSize(bits: nat, radix: nat): nat {
    var n := if radix >= 4 then bits / 2 else bits;
    var m := (if radix >= 16 then n / 2 else n) + 3;
    m + m % 2
  }

  lemma BitLengthHalf(v: nat)
    requires v > 0
    ensures BitLength(v) == BitLength(v / 2) + 1
  {
  }

  lemma {:induction false} BitLengthMonotone(u: nat, v: nat)
    requires u <= v
    ensures BitLength(u) <= BitLength(v)
  {
    if u > 0 {
      BitLengthMonotone(u / 2, v / 2);
    }
  }

  /** Each digit accounts for one bit. */
  lemma {:induction false} DigitsPerBit(v: nat, radix: nat)
    requires 2 <= radix <= 16 && v > 0
    ensures |Digits(v, radix)| <= BitLength(v)
  {
    hide BitLength;
    BitLengthHalf(v);
    if v >= radix {
      AtLeastOne(v, radix);
      DigitsPerBit(v / radix, radix);
      SmallerQuotient(v, 2, radix);
      BitLengthMonotone(v / radix, v / 2);
    }
  }

  /** From radix 4 on, each digit but the first accounts for two bits. */
  lemma {:induction false} DigitsPerTwoBits(v: nat, radix: nat)
    requires 4 <= radix <= 16 && v > 0
    ensures 2 * |Digits(v, radix)| <= BitLength(v) + 1
  {
    hide BitLength;
    BitLengthHalf(v);
    if v >= radix {
      AtLeastOne(v, radix);
      DigitsPerTwoBits(v / radix, radix);
      BitLengthHalf(v / 2);
      SmallerQuotient(v, 4, radix);
      BitLengthMonotone(v / radix, v / 2 / 2);
    }
  }

  lemma SmallerQuotient(v: nat, a: nat, b: nat)
    requires 0 < a <= b
    ensures v / b <= v / a
  {
    var q, r := v / b, v % b;
    assert v == q * b + r;
    MulMono(a, b, q);
    if v / a < q {
      MulMono(v / a + 1, q, a);
    }
  }

  /** The size in numbers: a sign, a terminator and one more, and room for the digits, rounded up to an even number. */
  lemma WriteSizeMeans(bits: nat, radix: nat)
    requires 2 <= radix <= 16
    ensures var d := if radix < 4 then bits else if radix < 16 then bits / 2 else bits / 4;
            WriteSize(bits, radix) == if d % 2 == 1 then d + 3 else d + 4
  {
  }

  /** Sign, digits and terminator fit the size asked for. */
  lemma DigitsFit(v: nat, radix: nat)
    requires 2 <= radix < 16
    ensures 1 + |Digits(v, radix)| + 1 <= WriteSize(BitLength(v), radix)
  {
    hide BitLength;
    if v > 0 {
      DigitsPerBit(v, radix);
      if radix >= 4 {
        DigitsPerTwoBits(v, radix);
      }
    }
  }

  // ---- Printing below radix 16 --------------------------------------------------------------

  lemma AtLeastOne(v: nat, d: nat)
    requires 0 < d <= v
    ensures v / d >= 1
  {
  }

  lemma DigitsStep(v: nat, radix: nat)
    requires 2 <= radix <= 16
    ensures Digits(v, radix) == (if v / radix == 0 then [] else Digits(v / radix, radix)) + [DigitChar(v % radix)]
  {
    if v < radix {
      DivUnique(v, radix, 0, v);
    } else {
      AtLeastOne(v, radix);
    }
  }

  lemma QuotientByRadix(v: nat, radix: nat)
    requires radix >= 2
    ensures DivQ(v, radix, true, false) == v / radix && (v > 0 ==> v / radix < v)
    ensures v % radix < radix && v == v / radix * radix + v % radix
  {
    if v > 0 {
      var q := v / radix;
      assert v == q * radix + v % radix;
      if q >= v {
        MulMono(2, radix, q);
      }
    }
  }

  /** No zero in front. */
  lemma {:induction false} NoLeadingZero(v: nat, radix: nat)
    requires 2 <= radix <= 16 && v > 0
    ensures Digits(v, radix)[0] != '0'
  {
    hide Digits, DigitChar;
    DigitsStep(v, radix);
    QuotientByRadix(v, radix);
    if v / radix == 0 {
      NotZeroChar(v % radix);
    } else {
      NoLeadingZero(v / radix, radix);
    }
  }

  lemma NotZeroChar(r: nat)
    requires 0 < r < 16
    ensures DigitChar(r) != '0'
  {
  }

  /** Printing and parsing are inverse. */
  lemma {:induction false} DigitsParse(v: nat, radix: nat)
    requires 2 <= radix <= 16
    ensures Denotes(Digits(v, radix), radix, v)
  {
    hide Denotes, DigitChar, Digits;
    DigitsStep(v, radix);
    QuotientByRadix(v, radix);
    if v / radix == 0 {
      NothingDenotes(radix);
      DenotesSnoc([], radix, 0, v % radix);
    } else {
      DigitsParse(v / radix, radix);
      DenotesSnoc(Digits(v / radix, radix), radix, v / radix, v % radix);
    }
  }

  lemma SmallRadix(radix: nat)
    requires 2 <= radix <= 16
    ensures MpiModInt.Lossless(radix)
  {
  }

  /** One digit: the residue, then the quotient in place. */
  method NextDigit(X: Mpi, radix: nat) returns (c: char)
    requires 2 <= radix < 16 && X.Value() >= 0
    modifies X
    ensures X.Value() == old(X.Value()) / radix && c == DigitChar(old(X.Value()) % radix)
  {
    hide Val, MpiModInt.Lossless, DigitChar;
    ghost var v: nat := X.Value();
    SmallRadix(radix);
    QuotientByRadix(v, radix);
    var st, r := MpiModInt.ModInt(X, radix);
    var ok := DivInt(X, null, X, radix);
    c := DigitChar(r);
  }

  /** The digits of v are those of x, unless the loop is done, and then tail. */
  ghost predicate Printed(v: nat, radix: nat, x: nat, again: bool, tail: string)
    requires 2 <= radix <= 16
  {
    Digits(v, radix) == (if again then Digits(x, radix) else []) + tail
  }

  lemma PrintedStart(v: nat, radix: nat)
    requires 2 <= radix <= 16
    ensures Printed(v, radix, v, true, [])
  {
  }

  lemma PrintedNext(v: nat, radix: nat, x: nat, tail: string, q: nat, r: nat)
    requires 2 <= radix <= 16 && Printed(v, radix, x, true, tail) && q == x / radix && r == x % radix < radix
    ensures Printed(v, radix, q, q != 0, [DigitChar(r)] + tail)
  {
    hide Digits, DigitChar;
    DigitsStep(x, radix);
  }

  lemma PrintedEnd(v: nat, radix: nat, x: nat, tail: string)
    requires 2 <= radix <= 16 && Printed(v, radix, x, false, tail)
    ensures tail == Digits(v, radix)
  {
  }

  /** The next digit goes in front of the ones already there. */
  method PutDigit(X: Mpi, radix: nat, buf: array<char>, pEnd: nat, end: nat,
                  ghost v: nat, ghost x: nat, ghost q: nat)
    requires 2 <= radix < 16 && X.Value() == x && q == x / radix && pEnd < end <= buf.Length
    requires Printed(v, radix, x, true, buf[pEnd + 1..end])
    modifies X, buf
    ensures X.Value() == q && Printed(v, radix, q, q != 0, buf[pEnd..end])
    ensures buf[..pEnd] == old(buf[..pEnd])
  {
    hide Val, DigitChar, Printed;
    QuotientByRadix(x, radix);
    PrintedNext(v, radix, x, buf[pEnd + 1..end], q, x % radix);
    ghost var tail := buf[pEnd + 1..end];
    var c := NextDigit(X, radix);
    buf[pEnd] := c;
    assert buf[pEnd..end] == [c] + tail;
  }

  lemma MoreToPrint(v: nat, radix: nat, x: nat, tail: string)
    requires 2 <= radix <= 16 && Printed(v, radix, x, true, tail)
    ensures |Digits(v, radix)| > |tail|
  {
    hide Digits;
  }

  /** The do-while loop: digits from the last, backwards from the end of the window. */
  method DigitLoop(X: Mpi, radix: nat, buf: array<char>, p: nat, buflen: nat) returns (st: Status, length: nat)
    requires 2 <= radix < 16 && X.Value() >= 0 && p + buflen <= buf.Length
    modifies X, buf
    ensures st == if |Digits(old(X.Value()), radix)| <= buflen then Ok else BufferTooSmall
    ensures st == Ok ==> length <= buflen && buf[p + buflen - length..p + buflen] == Digits(old(X.Value()), radix)
    ensures buf[..p] == old(buf[..p])
  {
    hide Val, Digits, DigitChar, Printed;
    ghost var v := X.Value();
    var pEnd, again := p + buflen, true;
    length := 0;
    assert buf[pEnd..p + buflen] == [];
    PrintedStart(v, radix);
    while again
      invariant X.Value() >= 0 && length <= buflen && pEnd == p + buflen - length && buf[..p] == old(buf[..p])
      invariant Printed(v, radix, X.Value(), again, buf[pEnd..p + buflen])
      invariant again ==> length == 0 || X.Value() > 0
      decreases again, X.Value()
    {
      MoreToPrint(v, radix, X.Value(), buf[pEnd..p + buflen]);
      if length >= buflen {
        return BufferTooSmall, 0;
      }
      QuotientByRadix(X.Value(), radix);
      pEnd := pEnd - 1;
      PutDigit(X, radix, buf, pEnd, p + buflen, v, X.Value(), X.Value() / radix);
      length := length + 1;
      var cmp := CmpInt(X, 0);
      again := cmp != 0;
    }
    PrintedEnd(v, radix, X.Value(), buf[pEnd..p + buflen]);
    st := Ok;
  }

  /** mpi_write_hlp: digits go to the end of the window of buflen characters at p, then move to its start. */
  method WriteHlp(X: Mpi, radix: nat, buf: array<char>, p: nat, buflen: nat) returns (st: Status, next: nat)
    requires 2 <= radix < 16 && X.Value() >= 0 && p + buflen <= buf.Length
    modifies X, buf
    ensures st == if |Digits(old(X.Value()), radix)| <= buflen then Ok else BufferTooSmall
    ensures st == Ok ==> next == p + |Digits(old(X.Value()), radix)| && buf[p..next] == Digits(old(X.Value()), radix)
    ensures buf[..p] == old(buf[..p])
  {
    hide Val, Digits;
    var length;
    st, length := DigitLoop(X, radix, buf, p, buflen);
    next := p;
    if st == Ok {
      MoveDown(buf, p, p + buflen - length, length);
      next := p + length;
    }
  }

  /** memmove of length characters to a lower position. */
  method MoveDown(buf: array<char>, to: nat, from: nat, length: nat)
    requires to <= from && from + length <= buf.Length
    modifies buf
    ensures buf[to..to + length] == old(buf[from..from + length]) && buf[..to] == old(buf[..to])
  {
    for i := 0 to length
      invariant forall k :: 0 <= k < to || from + i <= k < from + length ==> buf[k] == old(buf[k])
      invariant forall k :: to <= k < to + i ==> buf[k] == old(buf[k - to + from])
    {
      buf[to + i] := buf[from + i];
    }
  }

  // ---- Hexadecimal printing -----------------------------------------------------------------

  /** The text for the bytes below position m; leading zero bytes are skipped until one was printed. */
  function HexText(b: seq<Byte>, m: nat, started: bool): string
    requires m <= |b|
  {
    if m == 0 then []
    else if b[m - 1] == 0 && !started && m != 1 then HexText(b, m - 1, false)
    else [DigitChar(b[m - 1] / 16), DigitChar(b[m - 1] % 16)] + HexText(b, m - 1, true)
  }

  lemma {:induction false} HexTextLength(b: seq<Byte>, m: nat)
    requires m <= |b|
    ensures |HexText(b, m, true)| == 2 * m
  {
    if m > 0 {
      HexTextLength(b, m - 1);
    }
  }

  /** Pairs of digits without a leading pair of zeros, except for the single pair of a number that is zero. */
  lemma {:induction false} HexTextShape(b: seq<Byte>, m: nat)
    requires 0 < m <= |b|
    ensures var t := HexText(b, m, false);
            |t| % 2 == 0 && 2 <= |t| && (t[..2] == "00" ==> |t| == 2)
  {
    if b[m - 1] == 0 && m != 1 {
      HexTextShape(b, m - 1);
    } else {
      HexTextLength(b, m - 1);
      var t, c := HexText(b, m, false), b[m - 1];
      assert t[..2] == [DigitChar(c / 16), DigitChar(c % 16)];
    }
  }

  lemma {:induction false} SixteenPow(k: nat)
    ensures Pow(16, 2 * k) == Pow256(k) && Pow(16, 2 * k + 1) == 16 * Pow256(k)
  {
    if k > 0 {
      SixteenPow(k - 1);
      assert Pow(16, 2 * k) == 16 * Pow(16, 2 * k - 1);
    }
    assert Pow(16, 2 * k + 1) == 16 * Pow(16, 2 * k);
  }

  lemma DenotesCons(r: nat, t: string, v: int)
    requires r < 16 && Denotes(t, 16, v)
    ensures Denotes([DigitChar(r)] + t, 16, r * Pow(16, |t|) + v)
  {
    hide ParseVal, DigitChar, DigitValue;
    DigitRoundTrip(r);
    ParseCons(DigitChar(r), t, 16);
  }

  lemma DenotesByte(c: Byte, t: string, v: int, k: nat)
    requires Denotes(t, 16, v) && |t| == 2 * k
    ensures Denotes([DigitChar(c / 16), DigitChar(c % 16)] + t, 16, c * Pow256(k) + v)
  {
    hide Denotes, DigitChar;
    var l := [DigitChar(c % 16)] + t;
    DenotesCons(c % 16, t, v);
    DenotesCons(c / 16, l, c % 16 * Pow(16, |t|) + v);
    SixteenPow(k);
    assert [DigitChar(c / 16), DigitChar(c % 16)] + t == [DigitChar(c / 16)] + l;
    assert c / 16 * (16 * Pow256(k)) + c % 16 * Pow256(k) == c * Pow256(k) by {
      assert (c / 16 * 16 + c % 16) * Pow256(k) == c / 16 * (16 * Pow256(k)) + c % 16 * Pow256(k);
    }
  }

  lemma {:induction false} HexTextParses(b: seq<Byte>, m: nat, started: bool)
    requires m <= |b|
    ensures Denotes(HexText(b, m, started), 16, LeVal(b[..m]))
  {
    hide Denotes, LeVal, DigitChar;
    if m == 0 {
      NothingDenotes(16);
      LeZeros(b[..0]);
    } else {
      LeStep(b, m - 1);
      if b[m - 1] == 0 && !started && m != 1 {
        HexTextParses(b, m - 1, false);
      } else {
        HexTextParses(b, m - 1, true);
        HexTextLength(b, m - 1);
        DenotesByte(b[m - 1], HexText(b, m - 1, true), LeVal(b[..m - 1]), m - 1);
      }
    }
  }

  lemma ByteBits(v: nat, k: nat)
    requires v >= Pow256(k)
    ensures BitLength(v) > 8 * k
  {
    hide BitLength, Pow2;
    PowBits(k);
    BitLengthBounds(v);
    if BitLength(v) <= 8 * k {
      Pow2Monotone(BitLength(v), 8 * k);
    }
  }

  lemma {:induction false} PowBits(k: nat)
    ensures Pow256(k) == Pow2(8 * k)
  {
    if k > 0 {
      PowBits(k - 1);
      Pow2Add(8, 8 * (k - 1));
      Pow2Limb();
    }
  }

  /** Sign, digits and terminator fit the size asked for. */
  lemma {:induction false} HexTextFits(b: seq<Byte>, m: nat)
    requires m <= |b|
    ensures 1 + |HexText(b, m, false)| + 1 <= WriteSize(BitLength(LeVal(b[..m])), 16)
  {
    hide LeVal, BitLength, DigitChar, WriteSize, Pow256;
    if m == 0 {
      SizeFits(0, BitLength(LeVal(b[..0])));
    } else if b[m - 1] == 0 && m != 1 {
      LeStep(b, m - 1);
      HexTextFits(b, m - 1);
    } else {
      HexTextLength(b, m - 1);
      if m > 1 {
        LeStep(b, m - 1);
        MulMono(1, b[m - 1], Pow256(m - 1));
        ByteBits(LeVal(b[..m]), m - 1);
      }
      SizeFits(m, BitLength(LeVal(b[..m])));
    }
  }

  lemma SizeFits(m: nat, bits: nat)
    requires m > 1 ==> bits > 8 * (m - 1)
    ensures 2 * m + 2 <= WriteSize(bits, 16)
  {
  }

  /** What is printed so far, followed by the text for the bytes below m, is the whole text. */
  ghost predicate HexSoFar(whole: string, printed: string, b: seq<Byte>, m: nat, k: bool)
    requires m <= |b|
  {
    whole == printed + HexText(b, m, k)
  }

  lemma HexSkip(whole: string, printed: string, b: seq<Byte>, m: nat)
    requires 1 < m <= |b| && b[m - 1] == 0 && HexSoFar(whole, printed, b, m, false)
    ensures HexSoFar(whole, printed, b, m - 1, false)
  {
  }

  lemma HexPrint(whole: string, printed: string, b: seq<Byte>, m: nat, k: bool)
    requires 0 < m <= |b| && !(b[m - 1] == 0 && !k && m != 1) && HexSoFar(whole, printed, b, m, k)
    ensures HexSoFar(whole, printed + [DigitChar(b[m - 1] / 16), DigitChar(b[m - 1] % 16)], b, m - 1, true)
    ensures |printed| + 2 <= |whole|
  {
    hide DigitChar;
    var t := [DigitChar(b[m - 1] / 16), DigitChar(b[m - 1] % 16)];
    assert printed + (t + HexText(b, m - 1, true)) == printed + t + HexText(b, m - 1, true);
  }

  lemma HexEnds(whole: string, printed: string, b: seq<Byte>, k: bool)
    ensures HexSoFar(whole, printed, b, 0, k) ==> printed == whole
  {
  }

  lemma HexStarts(whole: string, b: seq<Byte>)
    requires whole == HexText(b, |b|, false)
    ensures HexSoFar(whole, [], b, |b|, false)
  {
  }

  /** The hexadecimal branch of the printer, from position p0 on. */
  method WriteHex(xs: seq<Limb>, buf: array<char>, p0: nat) returns (p: nat)
    requires p0 + |HexText(LimbBytes(xs), 4 * |xs|, false)| <= buf.Length
    modifies buf
    ensures p == p0 + |HexText(LimbBytes(xs), 4 * |xs|, false)|
    ensures buf[p0..p] == HexText(LimbBytes(xs), 4 * |xs|, false) && buf[..p0] == old(buf[..p0])
  {
    hide DigitChar, ByteAt, HexText, HexSoFar;
    ghost var b, before := LimbBytes(xs), buf[..p0];
    ghost var whole := HexText(b, 4 * |xs|, false);
    p := p0;
    var i, k := |xs|, false;
    HexStarts(whole, b);
    assert buf[p0..p] == [];
    while i > 0
      invariant 0 <= i <= |xs| && p0 <= p <= buf.Length && buf[..p0] == before
      invariant HexSoFar(whole, buf[p0..p], b, 4 * i, k)
    {
      var j := 4;
      while j > 0
        invariant 0 <= j <= 4 && p0 <= p <= buf.Length && buf[..p0] == before
        invariant HexSoFar(whole, buf[p0..p], b, 4 * (i - 1) + j, k)
      {
        var c := ByteAt(xs, 4 * (i - 1) + (j - 1));
        assert b[4 * (i - 1) + j - 1] == c;
        if c == 0 && !k && i + j != 2 {
          HexSkip(whole, buf[p0..p], b, 4 * (i - 1) + j);
        } else {
          HexPrint(whole, buf[p0..p], b, 4 * (i - 1) + j, k);
          PutPair(buf, p0, p, c);
          p := p + 2;
          k := true;
        }
        j := j - 1;
      }
      i := i - 1;
    }
    HexEnds(whole, buf[p0..p], b, k);
  }

  method PutPair(buf: array<char>, p0: nat, p: nat, c: Byte)
    requires p0 <= p && p + 2 <= buf.Length
    modifies buf
    ensures buf[p0..p + 2] == old(buf[p0..p]) + [DigitChar(c / 16), DigitChar(c % 16)]
    ensures buf[..p0] == old(buf[..p0])
  {
    hide DigitChar;
    buf[p] := DigitChar(c / 16);
    buf[p + 1] := DigitChar(c % 16);
  }

  // ---- The printer -----------------------------------------------------------------------------

  /** The text of a number: sign, then digits. */
  function Text(s: Sign, p: seq<Limb>, radix: nat): string
    requires 2 <= radix <= 16
  {
    (if s == -1 then "-" else "") + if radix == 16 then HexText(LimbBytes(p), 4 * |p|, false) else Digits(Val(p), radix)
  }

  lemma BodyDenotes(p: seq<Limb>, radix: nat)
    requires 2 <= radix <= 16
    ensures Denotes(if radix == 16 then HexText(LimbBytes(p), 4 * |p|, false) else Digits(Val(p), radix), radix, Val(p))
  {
    hide Denotes, LeVal, Val, Digits, HexText;
    if radix == 16 {
      LimbBytesVal(p);
      assert LimbBytes(p)[..4 * |p|] == LimbBytes(p);
      HexTextParses(LimbBytes(p), 4 * |p|, false);
    } else {
      DigitsParse(Val(p), radix);
    }
  }

  /** The size asked for is enough for sign, digits and terminator. */
  lemma TextFits(s: Sign, p: seq<Limb>, radix: nat)
    requires 2 <= radix <= 16
    ensures |Text(s, p, radix)| + 1 <= WriteSize(BitLength(Val(p)), radix)
  {
    hide LeVal, Val, Digits, HexText, BitLength, WriteSize;
    if radix == 16 {
      LimbBytesVal(p);
      assert LimbBytes(p)[..4 * |p|] == LimbBytes(p);
      HexTextFits(LimbBytes(p), 4 * |p|);
    } else {
      DigitsFit(Val(p), radix);
    }
  }

  /** mbedtls_mpi_write_string. */
  method WriteString(X: Mpi, radix: int, buf: array<char>) returns (st: Status, olen: nat)
    modifies buf
    ensures radix < 2 || radix > 16 <==> st == BadInput
    ensures st == BufferTooSmall <==> 2 <= radix <= 16 && buf.Length < WriteSize(BitLength(X.Abs()), radix)
    ensures st == BufferTooSmall ==> olen == WriteSize(BitLength(X.Abs()), radix)
    ensures st == BadInput || st == BufferTooSmall || st == Ok
    ensures st == Ok ==> 2 <= radix <= 16 && olen == |Text(X.s, X.p, radix)| + 1 <= buf.Length
    ensures st == Ok ==> buf[..olen - 1] == Text(X.s, X.p, radix) && buf[olen - 1] == '\0'
  {
    hide Val, BitLength, WriteSize, Digits, HexText, LimbBytes;
    if radix < 2 || radix > 16 {
      return BadInput, 0;
    }
    var n := MpiShift.BitlenMpi(X);
    n := WriteSize(n, radix);
    if buf.Length < n {
      return BufferTooSmall, n;
    }
    TextFits(X.s, X.p, radix);
    ghost var text := Text(X.s, X.p, radix);
    var p, buflen := 0, buf.Length;
    if X.s == -1 {
      buf[p] := '-';
      p := p + 1;
      buflen := buflen - 1;
    }
    ghost var sign := buf[..p];
    if radix == 16 {
      p := WriteHex(X.p, buf, p);
    } else {
      var T := Positive(X);
      st, p := WriteHlp(T, radix, buf, p, buflen);
      assert st == Ok; // the size check left enough room
    }
    assert buf[..p] == sign + buf[|sign|..p];
    assert buf[..p] == text;
    buf[p] := '\0';
    olen := p + 1;
    st := Ok;
  }

  /** A positive copy. */
  method Positive(X: Mpi) returns (T: Mpi)
    ensures fresh(T) && T.Value() == X.Abs()
  {
    hide Val;
    T := new Mpi();
    Copy(T, X);
    if T.s == -1 {
      T.s := 1;
    }
  }

  // ---- The parser ------------------------------------------------------------------------------

  /** The limb that hexadecimal digit number j lands in has room, and everything above is zero. */
  ghost predicate RoomForNibble(x: seq<Limb>, j: nat) {
    && (j / 8 < |x| ==> x[j / 8] < Pow2(4 * (j % 8)))
    && forall k :: j / 8 < k < |x| ==> x[k] == 0
  }

  lemma NextNibbleRoom(x: seq<Limb>, j: nat, y: Limb)
    requires j / 8 < |x| && RoomForNibble(x, j) && y < 16 * Pow2(4 * (j % 8))
    ensures RoomForNibble(x[j / 8 := y], j + 1)
  {
    hide Pow2;
    Pow2Zero();
    if j % 8 == 7 {
      assert (j + 1) / 8 == j / 8 + 1 && (j + 1) % 8 == 0;
    } else {
      assert (j + 1) / 8 == j / 8 && (j + 1) % 8 == j % 8 + 1;
      Pow2Limb();
      Pow2Add(4, 4 * (j % 8));
    }
  }

  lemma PlaceNibble(x: seq<Limb>, j: nat, d: nat)
    requires j / 8 < |x| && d < 16 && RoomForNibble(x, j)
    ensures 0 <= x[j / 8] + d * Pow2(4 * (j % 8)) < BETA
    ensures Val(x[j / 8 := x[j / 8] + d * Pow2(4 * (j % 8))]) == Val(x) + d * Pow(16, j)
    ensures RoomForNibble(x[j / 8 := x[j / 8] + d * Pow2(4 * (j % 8))], j + 1)
  {
    hide Val, BPow, Pow2, Pow;
    var l, r := j / 8, j % 8;
    var p := Pow2(4 * r);
    Pow2Limb();
    Pow2Add(4, 4 * r);
    Pow2Monotone(4 + 4 * r, 32);
    MulMono(d, 15, p);
    var y: Limb := x[l] + d * p;
    MpiAddSub.ValUpdate(x, l, y);
    BPowBits(l);
    Pow2Add(4 * r, 32 * l);
    SixteenBits(j);
    MulAssoc(d, p, BPow(l));
    NextNibbleRoom(x, j, y);
  }

  lemma {:induction false} SixteenBits(j: nat)
    ensures Pow(16, j) == Pow2(4 * j)
  {
    if j > 0 {
      SixteenBits(j - 1);
      Pow2Limb();
      Pow2Add(4, 4 * (j - 1));
    }
  }

  lemma StartNibbles(x: seq<Limb>, t: string)
    requires t == [] && forall k :: 0 <= k < |x| ==> x[k] == 0
    ensures Val(x) == ParseVal(t, 16) && RoomForNibble(x, 0)
  {
    ValZeros(x);
    Pow2Zero();
  }

  lemma NumeralSuffix(s: string, i: nat, radix: nat)
    requires 0 < i <= |s|
    ensures Numeral(s[i - 1..], radix) <==> DigitValue(s[i - 1]) < radix && Numeral(s[i..], radix)
  {
    assert s[i - 1..] == [s[i - 1]] + s[i..];
    NumeralCons(s[i - 1], s[i..], radix);
  }

  lemma NumeralCons(c: char, t: string, radix: nat)
    ensures Numeral([c] + t, radix) <==> DigitValue(c) < radix && Numeral(t, radix)
  {
    var s := [c] + t;
    if Numeral(s, radix) {
      assert s[0] == c;
      forall k | 0 <= k < |t| ensures DigitValue(t[k]) < radix {
        assert t[k] == s[k + 1];
      }
    }
  }

  lemma BadDigit(s: string, k: nat, radix: nat)
    requires k < |s| && DigitValue(s[k]) >= radix
    ensures !Numeral(s, radix)
  {
  }

  /** The hexadecimal branch of the parser: digits from the last one, each into its four bits. */
  method ReadHex(X: Mpi, s: string) returns (ok: bool)
    modifies X
    ensures ok <==> Numeral(s, 16)
    ensures ok ==> X.Value() == ParseVal(s, 16) && X.s == 1
  {
    hide Val, ParseVal, DigitValue, RoomForNibble, Numeral;
    var n := MpiShift.BitsToLimbs(4 * |s|);
    Grow(X, n);
    Lset(X, 0);
    var i, j := |s|, 0;
    EmptyNumeral(s, 16);
    StartNibbles(X.p, s[|s|..]);
    while i > 0
      invariant 0 <= i <= |s| && j == |s| - i && |X.p| >= n && X.s == 1
      invariant Val(X.p) == ParseVal(s[i..], 16) && RoomForNibble(X.p, j) && Numeral(s[i..], 16)
    {
      var d := DigitValue(s[i - 1]);
      if d >= 16 {
        BadDigit(s, i - 1, 16);
        return false;
      }
      NumeralSuffix(s, i, 16);
      assert s[i - 1..] == [s[i - 1]] + s[i..];
      ParseCons(s[i - 1], s[i..], 16);
      assert j / 8 < |X.p|;
      PlaceNibble(X.p, j, d);
      X.p := X.p[j / 8 := X.p[j / 8] + d * Pow2(4 * (j % 8))]; // the bits are still clear, so |= is +
      i := i - 1;
      j := j + 1;
    }
    assert s[0..] == s;
    ok := true;
  }

  lemma EmptyNumeral(s: string, radix: nat)
    ensures Numeral(s[|s|..], radix) && Numeral(s[..0], radix) && ParseVal(s[..0], radix) == 0
  {
  }

  lemma NumeralPrefix(s: string, i: nat, radix: nat)
    requires i < |s| && Numeral(s[..i], radix) && DigitValue(s[i]) < radix
    ensures Numeral(s[..i + 1], radix)
    ensures ParseVal(s[..i + 1], radix) == ParseVal(s[..i], radix) * radix + DigitValue(s[i])
  {
    assert s[..i + 1] == s[..i] + [s[i]];
    ParseSnoc(s[..i], s[i], radix);
  }

  /** The other branch: multiply by the radix and add, from the first digit. */
  method ReadDigits(X: Mpi, s: string, radix: nat) returns (ok: bool)
    requires 2 <= radix < 16
    modifies X
    ensures ok <==> Numeral(s, radix)
    ensures ok ==> X.Value() == ParseVal(s, radix)
  {
    hide Val, ParseVal, DigitValue, Numeral;
    var T := new Mpi();
    Lset(X, 0);
    EmptyNumeral(s, radix);
    for i := 0 to |s|
      invariant X.Value() == ParseVal(s[..i], radix) && Numeral(s[..i], radix)
    {
      var d := DigitValue(s[i]);
      if d >= radix {
        BadDigit(s, i, radix);
        return false;
      }
      NumeralPrefix(s, i, radix);
      MpiMul.MulInt(T, X, radix);
      MpiAddSub.AddInt(X, T, d);
    }
    assert s[..|s|] == s;
    ok := true;
  }

  function Body(s: string): string {
    if s != "" && s[0] == '-' then s[1..] else s
  }

  lemma BodyMeans(s: string, radix: nat)
    requires radix <= 16
    ensures Numeral(Body(s), radix) <==>
              forall k :: (if s != "" && s[0] == '-' then 1 else 0) <= k < |s| ==> s[k] in UPPER[..radix] || s[k] in LOWER[..radix]
  {
    hide Numeral;
    var b, o := Body(s), if s != "" && s[0] == '-' then 1 else 0;
    NumeralMeans(b, radix);
    assert forall k :: 0 <= k < |b| ==> b[k] == s[k + o];
    assert forall k :: o <= k < |s| ==> s[k] == b[k - o];
  }

  /** mbedtls_mpi_read_string; s is the text before the terminator. */
  method ReadString(X: Mpi, radix: int, s: string) returns (st: Status)
    modifies X
    ensures st == if radix < 2 || radix > 16 then BadInput else if Numeral(Body(s), radix) then Ok else InvalidCharacter
    ensures 2 <= radix <= 16 ==>
              (st == Ok <==> forall k :: (if s != "" && s[0] == '-' then 1 else 0) <= k < |s| ==>
                               s[k] in UPPER[..radix] || s[k] in LOWER[..radix])
    ensures st == Ok ==>
              X.Value() == (if s != "" && s[0] == '-' then -1 else 1) * ParseVal(Body(s), radix)
    ensures st == BadInput ==> X.s == old(X.s) && X.p == old(X.p)
  {
    hide Val, ParseVal, DigitValue, Numeral, BitLength;
    if radix < 2 || radix > 16 {
      return BadInput;
    }
    BodyMeans(s, radix);
    if s == "" {
      X.s := 1;
      X.p := [];
      ValZeros(X.p);
      EmptyNumeral(s, radix);
      return Ok;
    }
    var sign, t := 1, s;
    if s[0] == '-' {
      t := s[1..];
      sign := -1;
    }
    var ok;
    if radix == 16 {
      ok := ReadHex(X, t);
    } else {
      ok := ReadDigits(X, t, radix);
    }
    if !ok {
      return InvalidCharacter;
    }
    SignsOfValues(X.s, X.Abs());
    var bits := MpiShift.BitlenMpi(X);
    ZeroLength(X.Abs());
    if sign < 0 && bits != 0 {
      X.s := -1;
    }
    st := Ok;
  }

  lemma ZeroLength(v: nat)
    ensures BitLength(v) == 0 <==> v == 0
  {
  }

  // ---- The round trip ---------------------------------------------------------------------------

  lemma SignAndBody(s: Sign, body: string, radix: nat, v: nat)
    requires Denotes(body, radix, v)
    ensures var t := (if s == -1 then "-" else "") + body;
            '\0' !in t && Body(t) == body && (t != "" && t[0] == '-' <==> s == -1)
  {
  }

  /** What the printer writes contains no terminator, and the parser reads the number back from it. */
  lemma TextParses(s: Sign, p: seq<Limb>, radix: nat)
    requires 2 <= radix <= 16
    ensures var t := Text(s, p, radix);
            && '\0' !in t && Numeral(Body(t), radix) && ParseVal(Body(t), radix) == Val(p)
            && (t != "" && t[0] == '-' <==> s == -1)
  {
    hide Val, Digits, HexText, ParseVal, Numeral;
    BodyDenotes(p, radix);
    var body := if radix == 16 then HexText(LimbBytes(p), 4 * |p|, false) else Digits(Val(p), radix);
    SignAndBody(s, body, radix, Val(p));
  }

  /** Printing into a buffer of the size asked for, then parsing the text. */
  method PrintThenParse(X: Mpi, radix: int, buf: array<char>, Y: Mpi)
    requires 2 <= radix <= 16 && buf.Length >= WriteSize(BitLength(X.Abs()), radix) && X != Y
    modifies buf, Y
    ensures Y.Value() == X.Value()
  {
    hide Val, BitLength, WriteSize, Text, Numeral, ParseVal, Body;
    var st, olen := WriteString(X, radix, buf);
    TextParses(X.s, X.p, radix);
    st := ReadString(Y, radix, buf[..olen - 1]);
    SignedText(X.s, X.Abs());
  }

  /** The same with the digits turned to lower case on the way. */
  method PrintThenParseLower(X: Mpi, radix: int, buf: array<char>, Y: Mpi)
    requires 2 <= radix <= 16 && buf.Length >= WriteSize(BitLength(X.Abs()), radix) && X != Y
    modifies buf, Y
    ensures Y.Value() == X.Value()
  {
    hide Val, BitLength, WriteSize, Text, Numeral, ParseVal;
    var st, olen := WriteString(X, radix, buf);
    var t := buf[..olen - 1];
    TextParses(X.s, X.p, radix);
    CaseIgnored(Body(t), radix);
    assert Body(Lowered(t)) == Lowered(Body(t));
    st := ReadString(Y, radix, Lowered(t));
    SignedText(X.s, X.Abs());
  }

  lemma SignedText(s: Sign, v: nat)
    ensures s * v == if s == -1 then -(v as int) else v
  {
  }
}
