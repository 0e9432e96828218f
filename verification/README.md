# Models and proofs for IhorWebServer and its Mbed TLS sources

The server under `src/` is small; most of its hard logic is in the Mbed TLS library it is built with.
This project models that logic in Dafny and proves what it is for. Every loop that the C code runs over
limbs, bytes, bits or fields is a method with a loop here, on arrays or on objects with fields, and is
proved against a mathematical statement.

- **Multi-precision integers** (`Words`, `Core`, `MulAdd`, `Montgomery`, `MontForm`, `CoreExp`, `Mpis`, `CoreBits`,
  `MpiAddSub`, `MpiShift`, `MpiMul`, `IntDiv`, `MpiDiv`, `MpiModInt`, `MpiGcd`, `MpiInvMod`, `MpiExp`, `ModRaw`, `Mod`,
  `CoreBytes`, `MpiString`; mathematics in `Arith`, `Bits`, `Gcds`, `Bytes`). A limb string stands for
  Σ limbs[i]·β^i with β = 2^32. On top of exact carry chains come Montgomery multiplication, fixed-window and
  sliding-window exponentiation, Knuth's long division, the binary gcd, the binary extended-Euclid inverse, inversion
  by Fermat's theorem (which is proved), and import and export of bytes and text.
- **Cipher modes over an arbitrary block function** (`Blocks`, `Ccm`, `CcmSession`, `CcmStandard`, `Gf128`, `Xts`,
  `Paddings`, `Cbc`). The streaming contexts are classes whose invariant says that the state is the mode's definition
  (RFC 3610, IEEE Std 1619-2007, CBC with the padding of section 6.3 of RFC 5652 and others) applied to everything
  received so far.
- **Camellia** (`Rotations`, `CamelliaF`, `CamelliaKeys`, `Camellia`, `Rfc3713`, `CamelliaStandard`), for arbitrary S-boxes:
  round function, table-driven key schedule and data path on 32-bit words compute the encryption that RFC 3713 defines on
  64-bit halves and single bytes, and decryption is the same data path with a rearranged key array.
- **Codecs** (`Der`, `Asn1Write`, `Asn1Parse`, `DerRoundTrip`, `Base64`): ITU-T X.690 and section 5.2 of RFC 1521;
  writers and parsers are inverse.
- **The response header** (`Utility`, `HttpResponse`): the running byte count against the printer, and the growth of the
  field array, which rests on a bit trick for the next power of two.

Main results, hardest first: `MpiDiv.DivMpi` with `MpiDiv.DivisionLaw`, `Mod.ModInv`, `MpiExp.ExpModMpi`,
`MpiInvMod.InvMod`, `CoreExp.ExpMod`, `Montgomery.Montmul`, `CcmSession.Session`, `Ccm.Context.Stream` and
`Ccm.Context.EncryptThenDecrypt`, `Xts.CryptXts` and `Xts.EncryptThenDecrypt`, `MpiGcd.BinaryGcd`,
`Cbc.EncryptThenDecrypt`, `MpiString.PrintThenParse`, `Mod.ReadThenWrite`, `CamelliaStandard.EncryptBlock`,
`Camellia.EncryptThenDecrypt`, `DerRoundTrip.SequenceWrittenAndRead`, `Base64.BrokenRoundTrip`,
`HttpResponse.ExactIffOneStatusLine`.

Where the code does not do what its documentation or its purpose suggests, the code is modelled and the exact condition
is proved:

- `mbedtls_mpi_mod_int` with a divisor above half a limb loses bits that a shift pushes out: it is right on every number
  exactly for divisors up to 2^16 and for powers of two (`MpiModInt.RightExactlyWhenLossless`, counterexample
  `MpiModInt.BitsLost`).
- `mbedtls_mpi_div_mpi` reads the operands' signs after Q has been written: with Q aliasing an operand the law of
  division holds exactly under `MpiDiv.AliasingHarmless`, and `MpiDiv.ChecksSuffice` names what to check beforehand.
- `mbedtls_mpi_mod_mpi` with R being a positive modulus itself: a negative remainder is doubled until the limb limit gives
  an allocation error (`MpiDiv.ModMpi`); with any other remainder the call never returns (`MpiDiv.SelfReductionEndless`).
- `mbedtls_ccm_update` takes payload before the announced associated data is complete and counts it with that data, so
  that `mbedtls_ccm_finish` can make a tag over other lengths than announced (`CcmSession.TagOverWrongLengths`). A tag is
  made over the announced lengths, and is that of RFC 3610, if and only if no payload came early (`CcmSession.Session`).
- `mbedtls_mpi_exp_mod` can return N instead of 0, exactly for a negative base, an odd exponent and |A|^E ≡ 0
  (`MpiExp.ExpModMpi`).
- `mbedtls_mpi_gcd` returns A itself, with its sign, when B is 0 (`MpiGcd.BinaryGcd`).
- Integers written by `asn1_write_tagged_int` and `mbedtls_asn1_write_mpi` come back as themselves exactly when they are
  not negative (`Asn1Write.WrittenAsItself`, `DerRoundTrip.MpiWrittenAndRead`).
- Zero padding gives the message back exactly when its length is a multiple of the block size, so that nothing is
  appended, or its last byte is not zero (`Cbc.EncryptThenDecrypt`; `Paddings.ZerosRecovered` for padding of at least
  one byte).
- The comment at `Dependencies/mbedtls/library/bignum_core.c:728` says A^(2^i); the code computes A^i.
- `include/http_parser.h:52-55` says that a property overwrites the field with its key: the code overwrites the first
  field that contains the key and its space anywhere (`HttpResponse.ReplacesIffKeyOccurs`,
  `HttpResponse.UnrelatedFieldReplaced`), which is the same exactly under the condition of `HttpResponse.DocumentedIff`,
  and once 128 fields are stored it drops replacements as well
  (`HttpResponse.FullIsFrozen`).
- The total byte length counts every status line ever set: it is the printed length exactly when there was one
  (`HttpResponse.ExactIffOneStatusLine`).

Definitions that a proof and the code share (alphabets, tags, tweaks, round functions, the layout of blocks and lines)
have a second, independent form each: written out in numbers or bytes, or taken from the standard's own notation, and
proved equal.

`dafny verify dfyconfig.toml` verifies the whole project.

## Model

| member | source | states |
|---|---|---|
| `Core.Add` | Dependencies/mbedtls/library/bignum_core.c:356-372 | X + carry·β^n = A + B exactly, for X aliasing A or B; limbs above n untouched |
| `Core.Sub` | Dependencies/mbedtls/library/bignum_core.c:396-411 | X − borrow·β^n = A − B exactly, aliasing allowed; the borrow tells whether the difference is negative |
| `Core.AddIf` | Dependencies/mbedtls/library/bignum_core.c:374-394 | adds A or nothing, decided by the condition, with the exact carry; A may be X |
| `Core.SubInt` | Dependencies/mbedtls/library/bignum_core.c:791-804 | subtracts one word through the whole borrow chain; with no limbs the word itself is the borrow |
| `Core.CondAssign` | Dependencies/mbedtls/library/bignum_core.c:158-168 | assignment happens exactly when the condition holds, and only on the low limbs |
| `MulAdd.ColumnWide` | Dependencies/mbedtls/library/bn_mul.h:1008-1022 | two-word result lo + β·hi of s·b + c + d, from the double-width product with two wrap-around tests; hi never overflows |
| `MulAdd.ColumnHalf` | Dependencies/mbedtls/library/bn_mul.h:1026-1048 | the half-limb form computes the very same s·b + c + d out of four half products |
| `MulAdd.HalfProduct` | Dependencies/mbedtls/library/bn_mul.h:1033-1045 | the four partial products recombine to s·b |
| `MulAdd.X1Core` | Dependencies/mbedtls/library/bn_mul.h:1013-1019 | one column keeps "d = d0 + b·s on the first j limbs, up to the carry"; unread limbs of s stay as they were even when s is d |
| `MulAdd.X8Core` | Dependencies/mbedtls/library/bn_mul.h:1066-1068 | eight chained columns keep the same invariant |
| `MulAdd.Mla` | Dependencies/mbedtls/library/bignum_core.c:413-449 | value(d′) + c·β^d_len = value(d) + b·value(s), through the eight-fold loop, the single-column loop and the carry tail; nothing outside the window changes; s may be d |
| `Montgomery.NewtonStep` | Dependencies/mbedtls/library/bignum_core.c:454-465 | one Newton step doubles the number of correct low bits of an inverse |
| `Montgomery.NewtonStart` | Dependencies/mbedtls/library/bignum_core.c:458-458 | the magic starting value is right modulo 16 for every odd limb |
| `Montgomery.MontmulInit` | Dependencies/mbedtls/library/bignum_core.c:454-465 | mm·N[0] ≡ −1 mod β for every odd N[0] |
| `Montgomery.MontDigit` | Dependencies/mbedtls/library/bignum_core.c:479-487 | with that mm, the chosen multiple of N clears the lowest limb |
| `Montgomery.Round` | Dependencies/mbedtls/library/bignum_core.c:478-487 | one round: T becomes exactly (T + u0·B + u1·N)/β and stays below 2N, and neither multiply-accumulate loses a carry |
| `Montgomery.FinalSubtraction` | Dependencies/mbedtls/library/bignum_core.c:499-516 | the (carry, borrow) flags select the reduced value, and (1, 0) cannot occur |
| `Montgomery.Montmul` | Dependencies/mbedtls/library/bignum_core.c:467-517 | X < N and X·R ≡ A·B mod N, for what N was, with odd N and B ≤ N, A any n-limb number; X may be A, B or N |
| `MontForm.RadixInvertible` | Dependencies/mbedtls/library/bignum_core.c:467-517 | R is invertible modulo every odd N |
| `MontForm.Represented` | Dependencies/mbedtls/library/bignum_mod_raw.c:197-217 | every x below N is the form of some number below N, namely of x/R |
| `MontForm.MontProduct` | Dependencies/mbedtls/library/bignum_core.c:467-517 | a Montgomery product of forms of a and b is a form of a·b |
| `MontForm.IntoMont` | Dependencies/mbedtls/library/bignum_core.c:818-827 | multiplying by R² enters Montgomery form |
| `MontForm.OutOfMont` | Dependencies/mbedtls/library/bignum_core.c:829-839 | multiplying by 1 leaves it |
| `MontForm.MontUnique` | Dependencies/mbedtls/library/bignum_core.c:818-839 | reduced forms are equal exactly when they stand for congruent numbers |
| `CoreExp.WindowSize` | Dependencies/mbedtls/library/bignum_core.c:634-646 | at least k bits wide exactly when the exponent is longer than the threshold for k (79, 239, 671) and the configured maximum allows k |
| `CoreExp.PrecomputeWindow` | Dependencies/mbedtls/library/bignum_core.c:661-686 | table entry i is a reduced form of a^i for every i (the code computes A^i, where its comment at line 728 says A^(2^i)) |
| `CoreExp.TableLookup` | Dependencies/mbedtls/library/bignum_core.c:534-544 | reading all entries delivers the selected one |
| `CoreExp.ProcessBits` | Dependencies/mbedtls/library/bignum_core.c:737-780 | scanning the exponent from the top keeps "X is a form of a^(bits read so far − open window)", so it ends in a form of a^E whatever the window size |
| `CoreExp.ExpMod` | Dependencies/mbedtls/library/bignum_core.c:700-781 | for A a form of a, the result is the reduced form of a^E modulo N, for all limb counts, also when the window does not divide the bit count; X may be A |
| `Gcds.Bezout` | Dependencies/mbedtls/library/bignum.c:1951-2056 | the reference gcd divides both numbers and is an integer combination of them |
| `Gcds.GcdUnique` | Dependencies/mbedtls/library/bignum.c:1951-2056 | and is the only non-negative common divisor that every common divisor divides |
| `Gcds.CoprimeInverse` | Dependencies/mbedtls/library/bignum.c:2113-2199 | coprime numbers have a modular inverse |
| `Gcds.InverseCoprime` | Dependencies/mbedtls/library/bignum.c:2113-2199 | and numbers with a modular inverse are coprime |
| `Gcds.Fermat` | Dependencies/mbedtls/library/bignum_mod_raw.c:159-179 | a^(p−1) ≡ 1 modulo a prime p, for 0 < a < p |
| `Gcds.FermatInverse` | Dependencies/mbedtls/library/bignum_mod_raw.c:159-179 | a·a^(p−2) ≡ 1 modulo a prime p |
| `Mpis.Mpi.constructor` | Dependencies/mbedtls/library/bignum.c:68-75 | a fresh number: positive sign, no limbs |
| `Mpis.Grow` | Dependencies/mbedtls/library/bignum.c:99-124 | value and sign kept, zero limbs appended up to the wanted count, never fewer than before |
| `Mpis.Shrink` | Dependencies/mbedtls/library/bignum.c:130-171 | value and sign kept; only zero limbs above the last non-zero one are dropped |
| `Mpis.Copy` | Dependencies/mbedtls/library/bignum.c:198-237 | value copied for any sizes and for X = Y; a larger X keeps its limb count with zeros above |
| `Mpis.Lset` | Dependencies/mbedtls/library/bignum.c:268-282 | X becomes the signed word, all higher limbs zero |
| `Mpis.SignificantLimbs` | Dependencies/mbedtls/library/bignum.c:814-824 | the downward scan finds the last non-zero limb |
| `Mpis.SigBounds` | Dependencies/mbedtls/library/bignum.c:814-824 | β^(sig−1) ≤ value < β^sig for sig significant limbs |
| `Mpis.CmpAbs` | Dependencies/mbedtls/library/bignum.c:813-852 | sign of |X| − |Y|, regardless of leading zero limbs |
| `Mpis.CmpMpi` | Dependencies/mbedtls/library/bignum.c:857-903 | sign of X − Y; zero compares equal whatever its sign field says |
| `Mpis.CmpInt` | Dependencies/mbedtls/library/bignum.c:908-920 | sign of X − z for a signed word z |
| `CoreBits.Clz` | Dependencies/mbedtls/library/bignum_core.c:36-50 | leading zeros are 32 minus the bit length |
| `CoreBits.Bitlen` | Dependencies/mbedtls/library/bignum_core.c:52-69 | the bit length of the number the limbs denote, leading zero limbs or not |
| `CoreBits.ShiftR` | Dependencies/mbedtls/library/bignum_core.c:316-354 | floor division by 2^count, for counts past the end too |
| `MpiShift.BitlenMpi` | Dependencies/mbedtls/library/bignum.c:350-353 | bit length of the absolute value |
| `MpiShift.GetBit` | Dependencies/mbedtls/library/bignum.c:287-296 | bit pos of the absolute value; 0 beyond the limbs |
| `MpiShift.Lsb` | Dependencies/mbedtls/library/bignum.c:331-345 | the exact number of trailing zero bits, 0 for the number 0 |
| `MpiShift.ShiftRMpi` | Dependencies/mbedtls/library/bignum.c:801-808 | |X| becomes the floor of |X|/2^count, sign and size kept |
| `MpiShift.ShiftL` | Dependencies/mbedtls/library/bignum.c:750-796 | |X| becomes |X|·2^count: the size it grows to always holds the result |
| `MpiAddSub.AddAbs` | Dependencies/mbedtls/library/bignum.c:925-982 | X = |A| + |B| for every aliasing, the carry growing X by a limb when needed |
| `MpiAddSub.SubAbs` | Dependencies/mbedtls/library/bignum.c:987-1036 | X = |A| − |B|; refused exactly when that is negative |
| `MpiAddSub.AddSub` | Dependencies/mbedtls/library/bignum.c:1041-1072 | X = A ± B as signed integers, for every aliasing |
| `MpiAddSub.AddMpi` | Dependencies/mbedtls/library/bignum.c:1077-1080 | X = A + B |
| `MpiAddSub.SubMpi` | Dependencies/mbedtls/library/bignum.c:1085-1088 | X = A − B |
| `MpiAddSub.AddInt` | Dependencies/mbedtls/library/bignum.c:1093-1106 | X = A + b for a signed word |
| `MpiMul.MulInt` | Dependencies/mbedtls/library/bignum.c:1197-1231 | X = A·b; computed as A + (b−1)·A in a buffer whose extra limb is proved to suffice |
| `MpiMul.MulMpi` | Dependencies/mbedtls/library/bignum.c:1129-1192 | X = A·B as signed integers, for every aliasing, zero never negative |
| `IntDiv.DivideWide` | Dependencies/mbedtls/library/bignum.c:1263-1275 | double-width quotient and remainder of two limbs by one |
| `IntDiv.HalfDigit` | Dependencies/mbedtls/library/bignum.c:1299-1325 | estimate-and-correct gives the exact half-limb digit and remainder |
| `IntDiv.DivideHalf` | Dependencies/mbedtls/library/bignum.c:1278-1333 | normalising shift and two half-width digits give the same quotient and remainder as the double-width form |
| `IntDiv.IntDivInt` | Dependencies/mbedtls/library/bignum.c:1237-1335 | floor((u1·β + u0)/d) and the remainder exactly when u1 < d, all ones otherwise |
| `MpiDiv.TestFails` | Dependencies/mbedtls/library/bignum.c:1417-1424 | the 3-limb by 2-limb test rejects only digits that are too large |
| `MpiDiv.TestPasses` | Dependencies/mbedtls/library/bignum.c:1417-1424 | a digit that passes it is at most one too large |
| `MpiDiv.EstimateDigit` | Dependencies/mbedtls/library/bignum.c:1405-1424 | the estimated digit is the exact one or one above |
| `MpiDiv.CorrectDigit` | Dependencies/mbedtls/library/bignum.c:1416-1424 | the do-while correction stops at such a digit |
| `MpiDiv.SubtractDigit` | Dependencies/mbedtls/library/bignum.c:1426-1435 | one conditional add-back is enough: X ends in [0, shifted Y) and loses exactly z·shifted Y for the stored digit |
| `MpiDiv.FirstDigitLoop` | Dependencies/mbedtls/library/bignum.c:1398-1401 | the repeated subtraction counts the top digit without overflowing its limb |
| `MpiDiv.LowerDigits` | Dependencies/mbedtls/library/bignum.c:1404-1436 | all digits together: X0 = Z·Y + X with 0 ≤ X < Y |
| `MpiDiv.DivAbs` | Dependencies/mbedtls/library/bignum.c:1377-1444 | quotient and remainder of the absolute values after the normalising shift is undone |
| `MpiDiv.DivMpi` | Dependencies/mbedtls/library/bignum.c:1340-1460 | B = 0 is refused and nothing changes; otherwise Q and R are the truncated quotient and remainder, null outputs and every aliasing included |
| `MpiDiv.DivisionLaw` | Dependencies/mbedtls/library/bignum.c:1340-1460 | what is stored satisfies A = Q·B + R, |R| < |B|, R zero or of A’s sign if and only if overwriting an operand by Q was harmless, which it always is for separate Q |
| `MpiDiv.ChecksSuffice` | Dependencies/mbedtls/library/bignum.c:1340-1460 | enough to check before the call: Q apart, or Q over a divisor above zero, or Q over a dividend with A ≥ B > 0 |
| `MpiDiv.SmallDividendLost` | Dependencies/mbedtls/library/bignum.c:1367-1374 | positive operands alone are not enough: 1 divided by 2 with Q over A loses the remainder |
| `MpiDiv.DivInt` | Dependencies/mbedtls/library/bignum.c:1465-1479 | the same for every signed word as divisor, the most negative one included |
| `MpiDiv.ModMpi` | Dependencies/mbedtls/library/bignum.c:1484-1508 | R = A mod B in [0, B) for every A, R over A included; negative and zero moduli are reported and leave R alone; R over a positive B with a negative remainder ends with the allocation error of the limb limit |
| `MpiDiv.SelfReductionEndless` | Dependencies/mbedtls/library/bignum.c:1497-1503 | with R over a positive modulus, k rounds multiply a negative remainder by 2^k, so that it outgrows every limit; any other remainder is 0 after each round and never below itself, so that the loop does not end |
| `MpiModInt.ModInt` | Dependencies/mbedtls/library/bignum.c:1513-1567 | division by zero and negative divisors reported; otherwise the residue the half-limb loop computes, with the sign correction; it is A mod b whenever the divisor is lossless |
| `MpiModInt.ReduceLimbs` | Dependencies/mbedtls/library/bignum.c:1544-1554 | the loop computes the reference half-step recursion |
| `MpiModInt.ReducedExact` | Dependencies/mbedtls/library/bignum.c:1544-1554 | for divisors up to half a limb, and for powers of two, that recursion is value mod b |
| `MpiModInt.RightExactlyWhenLossless` | Dependencies/mbedtls/library/bignum.c:1544-1554 | the loop is right on every number if and only if b ≤ 2^16 or b is a power of two |
| `MpiModInt.BitsLost` | Dependencies/mbedtls/library/bignum.c:1546-1553 | the concrete number 2^48 is reduced wrongly by every other divisor |
| `MpiGcd.GcdOddParts` | Dependencies/mbedtls/library/bignum.c:1966-1980 | taking out factors of two changes the gcd by exactly the smaller power |
| `MpiGcd.GcdHalfDifference` | Dependencies/mbedtls/library/bignum.c:2029-2035 | half the difference of two odd numbers keeps the gcd |
| `MpiGcd.ShiftsUnderway` | Dependencies/mbedtls/library/bignum.c:2017-2020 | the loop invariant gcd(A,B) = 2^lz·gcd(TA,TB) through the shifts |
| `MpiGcd.BinaryGcd` | Dependencies/mbedtls/library/bignum.c:1951-2056 | terminates with gcd(|A|,|B|) for all A, B; for B = 0 it returns A with A’s sign; G may be A or B |
| `MpiInvMod.HalveCombination` | Dependencies/mbedtls/library/bignum.c:2147-2169 | halving keeps U1·TA + U2·TB = TU: when a coefficient is odd, adding (TB, −TA) makes both even |
| `MpiInvMod.HalveOnce` | Dependencies/mbedtls/library/bignum.c:2148-2156 | the same for the numbers in memory |
| `MpiInvMod.StripTwos` | Dependencies/mbedtls/library/bignum.c:2147-2169 | an inner loop leaves an odd positive value with the combination and the gcd kept |
| `MpiInvMod.SubtractRow` | Dependencies/mbedtls/library/bignum.c:2171-2179 | subtracting one row from the other keeps both |
| `MpiInvMod.Reduce` | Dependencies/mbedtls/library/bignum.c:2146-2180 | the main loop terminates with TV = 1 = V1·TA + V2·TB |
| `MpiInvMod.Normalise` | Dependencies/mbedtls/library/bignum.c:2182-2188 | the closing loops bring V1 into [0, N) without changing its residue |
| `MpiInvMod.InvMod` | Dependencies/mbedtls/library/bignum.c:2113-2199 | N ≤ 1 is bad input; otherwise refused exactly when gcd(A,N) ≠ 1; otherwise X in [0,N) and A·X ≡ 1 mod N, for even N too and X aliasing A or N |
| `MpiExp.SlidingWindow` | Dependencies/mbedtls/library/bignum.c:1691-1700 | at least k bits wide exactly when the exponent is longer than the threshold for k (23, 79, 239, 671) and the configured maximum allows k |
| `MpiExp.MontmulMpi` | Dependencies/mbedtls/library/bignum.c:1595-1600 | A·B/R mod N in place, for B of any limb count with value at most N |
| `MpiExp.MontredMpi` | Dependencies/mbedtls/library/bignum.c:1607-1617 | A/R mod N in place |
| `MpiExp.SafeCondAssign` | Dependencies/mbedtls/library/constant_time.c:744-767 | value and sign of Y exactly when asked to; X grows to Y’s size either way |
| `MpiExp.Select` | Dependencies/mbedtls/library/bignum.c:1634-1646 | the selected table entry’s value, reading every entry |
| `MpiExp.MulEntry` | Dependencies/mbedtls/library/bignum.c:1887-1889 | multiplying the accumulator by entry w takes the form of a^h to the form of a^(h+w), also when the accumulator is its own operand |
| `MpiExp.RadixSquare` | Dependencies/mbedtls/library/bignum.c:1763-1773 | R² mod N, computed or taken over from an earlier call, and stored for the next one |
| `MpiExp.FormOfBase` | Dependencies/mbedtls/library/bignum.c:1778-1790 | W[1] becomes the form of A, reduced first when A ≥ N |
| `MpiExp.FormOfUnit` | Dependencies/mbedtls/library/bignum.c:1795-1796 | W[0] becomes the form of 1 |
| `MpiExp.FillTable` | Dependencies/mbedtls/library/bignum.c:1799-1828 | upper-half entries become the forms of a^(2^(w−1)) … a^(2^w − 1) |
| `MpiExp.CloseWindow` | Dependencies/mbedtls/library/bignum.c:1874-1894 | a full window raises the exponent accumulated so far to prefix·2^w + window |
| `MpiExp.HandleBit` | Dependencies/mbedtls/library/bignum.c:1853-1894 | one exponent bit in any of the three states keeps "bits read = accumulated exponent followed by the open window" |
| `MpiExp.ScanExponent` | Dependencies/mbedtls/library/bignum.c:1830-1895 | the scan over all bits, leading zeros included, ends with the whole exponent read |
| `MpiExp.FinishWindow` | Dependencies/mbedtls/library/bignum.c:1900-1910 | the bits of a partial last window are multiplied in one by one |
| `MpiExp.Evaluate` | Dependencies/mbedtls/library/bignum.c:1799-1915 | table, scan and last bits give a^E mod N for every window size |
| `MpiExp.NegativeBase` | Dependencies/mbedtls/library/bignum.c:1917-1920 | sign correction: the result is congruent to A^E, and equals N itself exactly when the base is negative, the exponent odd and |A|^E ≡ 0 |
| `MpiExp.ExpModMpi` | Dependencies/mbedtls/library/bignum.c:1651-1946 | accepted exactly for odd N > 0, E ≥ 0 and sizes within the limit; then X ≡ A^E mod N and 0 ≤ X ≤ N, with X = N exactly for a negative base, odd exponent and |A|^E ≡ 0; X may alias every operand |
| `Bytes.LimbBytesVal` | Dependencies/mbedtls/library/bignum_core.c:189-210 | limbs and their bytes denote one number |
| `Bytes.LeInjective` | Dependencies/mbedtls/library/bignum_core.c:189-210 | equal length and equal value means equal bytes |
| `Bytes.ByteOps` | Dependencies/mbedtls/library/ccm.c:113-133 | bit by bit: exclusive or tells the operands apart, or sets what either has, and keeps what both have |
| `CoreBytes.ReadLe` | Dependencies/mbedtls/library/bignum_core.c:189-210 | refused exactly when the bytes do not fit; else the limbs have the little-endian value |
| `CoreBytes.ReadBe` | Dependencies/mbedtls/library/bignum_core.c:212-241 | the same for big-endian input, through the in-place reversal |
| `CoreBytes.WriteLe` | Dependencies/mbedtls/library/bignum_core.c:243-275 | refused, with the output untouched, exactly when the value does not fit; else little-endian value and zero padding |
| `CoreBytes.WriteBe` | Dependencies/mbedtls/library/bignum_core.c:277-314 | the same for big-endian output |
| `CoreBytes.BswapInvolutive` | Dependencies/mbedtls/library/bignum_core.c:87-104 | swapping the bytes of a limb twice is the identity |
| `CoreBytes.HostOrder` | Dependencies/mbedtls/library/bignum_core.c:73-85 | the portable byte loop equals the byte swap |
| `CoreBytes.BigEndianToHost` | Dependencies/mbedtls/library/bignum_core.c:106-134 | limbs end up in reverse order, bytes swapped, for odd limb counts too |
| `CoreBytes.SwappedBytes` | Dependencies/mbedtls/library/bignum_core.c:106-134 | which reverses the byte string |
| `ModRaw.RawSub` | Dependencies/mbedtls/library/bignum_mod_raw.c:113-121 | (A − B) mod N for residues, one conditional addition sufficing |
| `ModRaw.RawAdd` | Dependencies/mbedtls/library/bignum_mod_raw.c:188-197 | (A + B) mod N for residues, also when the sum overflows the limbs |
| `ModRaw.RawNeg` | Dependencies/mbedtls/library/bignum_mod_raw.c:281-291 | −A mod N, with −0 = 0 |
| `ModRaw.ToMont` | Dependencies/mbedtls/library/bignum_core.c:818-827 | the form of A |
| `ModRaw.FromMont` | Dependencies/mbedtls/library/bignum_core.c:829-839 | the number a form stands for |
| `ModRaw.FormRoundTrip` | Dependencies/mbedtls/library/bignum_mod_raw.c:202-228 | leaving Montgomery form and entering it again is the identity on residues |
| `ModRaw.MinusTwo` | Dependencies/mbedtls/library/bignum_mod_raw.c:171-173 | the exponent N − 2 with no borrow left over |
| `ModRaw.InverseByPower` | Dependencies/mbedtls/library/bignum_mod_raw.c:159-179 | for prime N and a not 0, a·a^(N−2) ≡ 1 |
| `ModRaw.InvPrime` | Dependencies/mbedtls/library/bignum_mod_raw.c:159-179 | X is the form of a^(N−2); for prime N an inverse of a |
| `Mod.Modulus.constructor` | Dependencies/mbedtls/library/bignum_mod.c:62-72 | no limbs, no representation |
| `Mod.GetMontR2` | Dependencies/mbedtls/library/bignum_core.c:519-531 | R² mod N, with exactly as many limbs as N |
| `Mod.SetMontConstSquare` | Dependencies/mbedtls/library/bignum_mod.c:103-137 | R² mod N in a fresh array of n limbs; refused for no limbs or too many |
| `Mod.ModulusSetup` | Dependencies/mbedtls/library/bignum_mod.c:139-172 | a valid modulus in the wanted representation, or, when refused, a cleared structure |
| `Mod.LessThan` | Dependencies/mbedtls/library/constant_time.c:804-842 | comparison of the values |
| `Mod.IsZero` | Dependencies/mbedtls/library/bignum_core.c:806-816 | whether the value is zero |
| `Mod.InvMont` | Dependencies/mbedtls/library/bignum_mod.c:222-233 | from a form of a to a form of a^(N−2) |
| `Mod.InvNonMont` | Dependencies/mbedtls/library/bignum_mod.c:235-268 | the same for a plain residue, through Montgomery form and back |
| `Mod.InverseResidueIsInverse` | Dependencies/mbedtls/library/bignum_mod.c:270-311 | for prime N and a ≠ 0 that is the inverse |
| `Mod.StandsForOne` | Dependencies/mbedtls/library/bignum_mod.c:270-311 | under a valid modulus every stored number below N stands for exactly one residue, in both representations |
| `Mod.ModInv` | Dependencies/mbedtls/library/bignum_mod.c:270-311 | refused exactly for mismatched sizes, zero input or an unusable modulus (X untouched); otherwise a·result ≡ 1 for prime N in both representations, a being what the stored number stands for |
| `Mod.RawRead` | Dependencies/mbedtls/library/bignum_mod_raw.c:54-87 | each rejection for its own reason; accepted values are below N and equal the input’s |
| `Mod.RawWrite` | Dependencies/mbedtls/library/bignum_mod_raw.c:89-105 | written exactly when the value fits; output untouched otherwise |
| `Mod.ModRead` | Dependencies/mbedtls/library/bignum_mod.c:351-378 | the residue stands for the value of the bytes, in either byte order and representation |
| `Mod.ModWrite` | Dependencies/mbedtls/library/bignum_mod.c:380-419 | the bytes of the residue’s number, and the residue itself is bit for bit what it was, although it is converted in place |
| `Mod.ReadThenWrite` | Dependencies/mbedtls/library/bignum_mod.c:351-419 | reading and writing to the same length returns the same bytes, for every accepted input |
| `MpiString.DigitRoundTrip` | Dependencies/mbedtls/library/bignum.c:366-385 | reading a printed digit gives its value; no digit is a terminator or a sign |
| `MpiString.DigitMeans` | Dependencies/mbedtls/library/bignum.c:366-386 | the digits are the characters 0 to 9 and A to F or a to f by their place; everything else is none; the printer uses the upper case |
| `MpiString.PositionalValue` | Dependencies/mbedtls/library/bignum.c:418-440 | a single digit denotes its place, and a text in front of another weighs radix to the length of the other |
| `MpiString.CaseIgnored` | Dependencies/mbedtls/library/bignum.c:366-386 | turning the letters to lower case changes neither acceptance nor value |
| `MpiString.WriteSizeMeans` | Dependencies/mbedtls/library/bignum.c:504-535 | the size asked for, in numbers: a digit per bit, two bits or four bits, three more, rounded up to an even number |
| `MpiString.NoLeadingZero` | Dependencies/mbedtls/library/bignum.c:456-489 | the digits of a positive number do not start with a zero |
| `MpiString.HexTextShape` | Dependencies/mbedtls/library/bignum.c:541-557 | the hexadecimal text is made of pairs, with no pair of zeros in front unless it is the only one |
| `MpiString.ReadHex` | Dependencies/mbedtls/library/bignum.c:418-431 | accepts exactly the texts of hexadecimal digits, and gives their value |
| `MpiString.ReadDigits` | Dependencies/mbedtls/library/bignum.c:432-440 | accepts exactly numerals of the radix and computes their value |
| `MpiString.ReadString` | Dependencies/mbedtls/library/bignum.c:390-451 | bad radix, a character that is no digit of the radix in upper or lower case, or the signed value of the text |
| `MpiString.DigitsFit` | Dependencies/mbedtls/library/bignum.c:509-531 | radix below 16: sign, digits and terminator fit the computed size |
| `MpiString.HexTextFits` | Dependencies/mbedtls/library/bignum.c:509-531 | radix 16: the same, digits coming in pairs |
| `MpiString.WriteHlp` | Dependencies/mbedtls/library/bignum.c:456-489 | writes exactly the digits, or reports too small exactly when they do not fit |
| `MpiString.WriteHex` | Dependencies/mbedtls/library/bignum.c:541-557 | the pairwise printer with leading zero bytes suppressed writes the hexadecimal text |
| `MpiString.TextFits` | Dependencies/mbedtls/library/bignum.c:494-576 | once the size check passes, nothing runs out of buffer, for every radix |
| `MpiString.WriteString` | Dependencies/mbedtls/library/bignum.c:494-576 | too small exactly when below the computed size, which is then returned; otherwise the text, a terminator and the length used |
| `MpiString.DigitsParse` | Dependencies/mbedtls/library/bignum.c:456-489 | the printed digits denote the number |
| `MpiString.HexTextParses` | Dependencies/mbedtls/library/bignum.c:541-557 | the printed pairs denote the number |
| `MpiString.TextParses` | Dependencies/mbedtls/library/bignum.c:390-576 | every printed text is terminator-free and parses to sign and absolute value |
| `MpiString.PrintThenParse` | Dependencies/mbedtls/library/bignum.c:390-576 | read_string of write_string gives X’s value, for every X and radix 2..16 |
| `MpiString.PrintThenParseLower` | Dependencies/mbedtls/library/bignum.c:391-576 | the same with the digits turned to lower case in between |
| `Blocks.AbsorbPiece` | Dependencies/mbedtls/library/ccm.c:296-318 | adding bytes at the running offset, and encrypting on a block boundary, extends the chain over the stream |
| `Blocks.ClosedIsPadded` | Dependencies/mbedtls/library/ccm.c:311-317 | encrypting the unfinished block equals padding the stream with zeros to whole blocks |
| `Blocks.FoldConcat` | Dependencies/mbedtls/library/ccm.c:296-318 | the block chain over a concatenation |
| `Ccm.ChainIsMac` | Dependencies/mbedtls/library/ccm.c:142-431 | what the context holds after all data equals the CBC-MAC of section 2.2 of RFC 3610 |
| `Ccm.CtrInverse` | Dependencies/mbedtls/library/ccm.c:113-133 | counter mode of section 2.3 undoes itself |
| `Ccm.CtrSplit` | Dependencies/mbedtls/library/ccm.c:358-425 | counter mode over a concatenation |
| `CcmStandard.CtrByteMeans` | Dependencies/mbedtls/library/ccm.c:113-133 | byte n is combined with byte n modulo 16 of the encryption of flags, nonce and the big-endian counter 1 + n/16 |
| `CcmStandard.TagMeans` | Dependencies/mbedtls/library/ccm.c:142-468 | the tag is the last value of the chain over the blocks of section 2.2, written out byte by byte, combined with the encryption of counter 0 |
| `Ccm.Context.constructor` | Dependencies/mbedtls/library/ccm.c:54-57 | a clear session |
| `Ccm.Context.Crypt` | Dependencies/mbedtls/library/ccm.c:113-133 | input combined with the encrypted counter block from an offset on |
| `Ccm.Context.ClearState` | Dependencies/mbedtls/library/ccm.c:135-140 | back to the clear state |
| `Ccm.Context.FirstBlockIfReady` | Dependencies/mbedtls/library/ccm.c:142-198 | once nonce and lengths are known, y is the encrypted first block, its flags or-ed into the first byte of what y was; refused exactly without a tag in a mode other than CCM*, or for a length too long for its field, which also marks the session as failed |
| `Ccm.FlagFields` | Dependencies/mbedtls/library/ccm.c:178-180 | or-ing the three fields in one after the other, in size_t arithmetic cut to a byte, sets the flags of the first block on top of what was there |
| `Ccm.Context.Starts` | Dependencies/mbedtls/library/ccm.c:200-236 | in any state: bad nonce lengths change nothing; otherwise nonce, counter and first block are set up, and failure is recorded exactly when set lengths do not fit. From a clear or repeated start it waits for lengths; after set_lengths the session runs |
| `Ccm.Context.SetLengths` | Dependencies/mbedtls/library/ccm.c:238-265 | in any state: bad tag or data lengths change nothing; otherwise lengths are stored and failure recorded exactly when they do not fit the nonce. From a clear or repeated setting it waits for the nonce; after starts the session runs |
| `Ccm.Context.UpdateAd` | Dependencies/mbedtls/library/ccm.c:267-327 | in any state: refused exactly for a failed session, finished data or data beyond the announced length, and then nothing changes; otherwise the counts move on and y is what the pass over the new data by blocks gives; a running session has the data appended |
| `Ccm.Context.Update` | Dependencies/mbedtls/library/ccm.c:329-431 | in any state: refused exactly for a failed session, payload beyond the announced length or a short buffer, and then nothing changes; otherwise y, counter and output are what the pass over the input by blocks gives; once the associated data is complete the output is the counter-mode translation at the position reached |
| `Ccm.Context.PayloadTooEarly` | Dependencies/mbedtls/library/ccm.c:329-445 | finish refuses as long as the announced associated data is incomplete, also when payload has been taken before |
| `Ccm.Context.NextBlock` | Dependencies/mbedtls/library/ccm.c:414-420 | the byte-wise increment with carry, over q bytes |
| `Ccm.Context.Finish` | Dependencies/mbedtls/library/ccm.c:433-468 | in any state: refused, with nothing changed, exactly for a failed session, incomplete associated data or payload; otherwise y masked with the encrypted counter block 0, which for a running session is the tag of sections 2.2 and 2.3 of RFC 3610, and a clear session |
| `Ccm.Context.AcceptedMeans` | Dependencies/mbedtls/library/ccm.c:142-265 | without a tag exactly the two CCM* modes are accepted; with a tag of 4 to 16 bytes every mode, if the length fits its field |
| `Ccm.Context.AuthCrypt` | Dependencies/mbedtls/library/ccm.c:473-504 | accepted exactly for admissible lengths, without a tag exactly in the CCM* modes; ciphertext and tag of RFC 3610 |
| `Ccm.Context.AuthDecrypt` | Dependencies/mbedtls/library/ccm.c:551-572 | succeeds exactly when the tag is right, and then gives the plaintext; on a wrong tag the output is all zeros |
| `Ccm.Context.EncryptThenDecrypt` | Dependencies/mbedtls/library/ccm.c:473-572 | decrypting what was encrypted succeeds and returns the payload, for every admissible input |
| `Ccm.Context.Stream` | Dependencies/mbedtls/library/ccm.c:200-468 | either order of the first two calls and any split of both inputs give the one-shot ciphertext and tag, with the same acceptance |
| `CcmSession.RunCounted` | Dependencies/mbedtls/library/ccm.c:267-431 | over any run of update_ad and update calls one counter serves both kinds of data: until the associated data is complete it is that data plus the early payload, afterwards the payload since then |
| `CcmSession.EarlyBytesReplaceAd` | Dependencies/mbedtls/library/ccm.c:279-321 | when finish accepts, each byte of payload taken before the associated data was complete is missing from the associated data and too many in the payload |
| `CcmSession.CompleteIfNotEarly` | Dependencies/mbedtls/library/ccm.c:433-448 | without such payload finish accepts if and only if the associated data and (with a tag) the payload have the announced lengths |
| `CcmSession.EarlyByteCompletes` | Dependencies/mbedtls/library/ccm.c:283-286 | a run of three calls with two bytes of data and three of payload announced, one and four given, that passes both tests of finish |
| `CcmSession.Session` | Dependencies/mbedtls/library/ccm.c:200-468 | from either start, for any run of calls, refused ones included: finish accepts exactly complete runs; a tag is made over the announced lengths if and only if no payload came early, and then ciphertext and tag are those of RFC 3610 |
| `CcmSession.TagOverWrongLengths` | Dependencies/mbedtls/library/ccm.c:200-468 | the run of EarlyByteCompletes does end with a tag |
| `Xts.MulXIsBytewise` | Dependencies/mbedtls/library/aes.c:1121-1134 | the two-word doubling equals the byte-wise product of section 5.2 of IEEE Std 1619-2007 |
| `Gf128.CongruentUnique` | Dependencies/mbedtls/library/aes.c:1121-1134 | polynomials over GF(2) of degree below 128 that are congruent modulo x^128 + x^7 + x^2 + x + 1 are equal |
| `Gf128.PolyInjective` | Dependencies/mbedtls/library/aes.c:1121-1134 | a block is determined by its polynomial |
| `Xts.MulXIsTimesX` | Dependencies/mbedtls/library/aes.c:1121-1134 | doubling is the product by x in that field |
| `Xts.PowersAreTweaks` | Dependencies/mbedtls/library/aes.c:1139-1199 | the tweak of block j is the encrypted data unit times x^j, and nothing else is |
| `Xts.DefinitionsAreStandard` | Dependencies/mbedtls/library/aes.c:1139-1235 | block by block: every block masked with its own power before and after, the leftover with the two last powers, in opposite order when decrypting |
| `Xts.XtsInverse` | Dependencies/mbedtls/library/aes.c:1139-1235 | decryption of section 5.4 undoes encryption of section 5.3, stolen ciphertext and swapped tweaks included |
| `Xts.FullBlocks` | Dependencies/mbedtls/library/aes.c:1176-1199 | the loop over full blocks, the tweak brought forward after each, and swapped in the last step of a decryption with leftover bytes |
| `Xts.Steal` | Dependencies/mbedtls/library/aes.c:1201-1232 | the leftover bytes take the start of the previous block, which is redone with the stolen end |
| `Xts.CryptXts` | Dependencies/mbedtls/library/aes.c:1139-1235 | bad lengths are refused untouched; otherwise block j is masked with the encrypted data unit times x^j, the first with that unit itself, and a leftover stolen from the last full block, as IEEE Std 1619-2007 has it |
| `Xts.EncryptThenDecrypt` | Dependencies/mbedtls/library/aes.c:1139-1235 | encrypting and decrypting returns the plaintext, for any block permutation and any accepted length |
| `Paddings.AddPkcs` | Dependencies/mbedtls/library/cipher.c:753-762 | data kept, n bytes of value n appended |
| `Paddings.GetPkcs` | Dependencies/mbedtls/library/cipher.c:764-789 | accepts exactly properly padded blocks, and finds the data length; also the length left stored when the padding is bad |
| `Paddings.AddOneAndZeros` | Dependencies/mbedtls/library/cipher.c:796-806 | data kept, 0x80 and zeros appended |
| `Paddings.GetOneAndZeros` | Dependencies/mbedtls/library/cipher.c:808-829 | accepts exactly properly padded blocks, and finds the data length; also the length left stored when the padding is bad |
| `Paddings.AddZerosAndLen` | Dependencies/mbedtls/library/cipher.c:836-846 | data kept, zeros and the count appended |
| `Paddings.GetZerosAndLen` | Dependencies/mbedtls/library/cipher.c:848-872 | accepts exactly properly padded blocks, and finds the data length; also the length left stored when the padding is bad |
| `Paddings.AddZeros` | Dependencies/mbedtls/library/cipher.c:879-887 | data kept, zeros appended |
| `Paddings.GetZeros` | Dependencies/mbedtls/library/cipher.c:889-907 | the length without trailing zeros |
| `Paddings.ZerosRecovered` | Dependencies/mbedtls/library/cipher.c:879-907 | one or more bytes of zero padding are undone exactly when the data does not end in a zero byte |
| `Paddings.PaddingUnique` | Dependencies/mbedtls/library/cipher.c:753-872 | the other paddings can start in one place only |
| `Paddings.PadByteMeans` | Dependencies/mbedtls/library/cipher.c:753-900 | each padding byte by byte: the count; 0x80 and zeros; zeros and the count; zeros |
| `Paddings.GetPadding` | Dependencies/mbedtls/library/cipher.c:764-926 | the checker that belongs to the padding mode, with the length it stores in either case |
| `Cbc.CbcInverse` | Dependencies/mbedtls/library/aes.c:1041-1106 | CBC decryption undoes CBC encryption for any block permutation |
| `Cbc.ChainedBlocks` | Dependencies/mbedtls/library/aes.c:1041-1106 | each ciphertext block is the encryption of its plaintext block combined with the ciphertext block before it |
| `Cbc.UnchainedBlocks` | Dependencies/mbedtls/library/aes.c:1041-1106 | each plaintext block is the decryption of its ciphertext block, combined with the ciphertext block before it |
| `Cbc.HeldMeans` | Dependencies/mbedtls/library/cipher.c:588-667 | what stays cached: the bytes beyond full blocks, and the last full block when padding has to be checked |
| `Cbc.CryptedConcat` | Dependencies/mbedtls/library/aes.c:1041-1106 | CBC over a concatenation continues with the vector left behind |
| `Cbc.CryptCbc` | Dependencies/mbedtls/library/aes.c:1041-1106 | the block loop computes CBC and leaves the last ciphertext block as vector; partial blocks refused |
| `Cbc.Context.Cached` | Dependencies/mbedtls/library/cipher.c:608-629 | the cached block is completed and run, and the totals continue |
| `Cbc.Context.Remaining` | Dependencies/mbedtls/library/cipher.c:631-664 | whole blocks are run, the tail (or the last block held back for unpadding) is cached |
| `Cbc.Context.Update` | Dependencies/mbedtls/library/cipher.c:588-667 | after any update, what was sent is CBC of everything received minus what is cached |
| `Cbc.Context.Conserved` | Dependencies/mbedtls/library/cipher.c:588-667 | sent bytes plus cached bytes equal received bytes, and at most one block is cached |
| `Cbc.Context.Finish` | Dependencies/mbedtls/library/cipher.c:970-1016 | completes to one-shot CBC of the padded message, or, decrypting, checks the padding of the last block and stores the length the checker leaves; incomplete messages refused |
| `Cbc.Feed` | Dependencies/mbedtls/library/cipher.c:588-667 | any chunking of the input |
| `Cbc.LastBlock` | Dependencies/mbedtls/library/cipher.c:764-926 | the last block of a padded message unpads to exactly the rest of the message (zero padding: exactly when no zero byte is lost) |
| `Cbc.EncryptAll` | Dependencies/mbedtls/library/cipher.c:588-1015 | any chunking gives one-shot CBC of the padded message |
| `Cbc.EncryptThenDecrypt` | Dependencies/mbedtls/library/cipher.c:588-1015 | any chunking both ways returns the message; with zero padding exactly when it does not end in a lost zero byte |
| `Rotations.RotationByWords` | Dependencies/mbedtls/library/camellia.c:223-230 | rotating a 128-bit string by any of the amounts in use moves whole words and shifts bits between neighbouring words, as ROTL does |
| `Rotations.RotatedIsRotation` | Dependencies/mbedtls/library/camellia.c:223-230 | the rotations written as shifts are rotations of the 128-bit string |
| `CamelliaF.DiffusedIsP` | Dependencies/mbedtls/library/camellia.c:276-283 | the four rotations of the source compute the P function of section 2.4.1 of RFC 3713, byte by byte |
| `CamelliaF.FIsStandard` | Dependencies/mbedtls/library/camellia.c:261-284 | the round function on two words is F of RFC 3713 on a 64-bit string, for any S-boxes |
| `Rfc3713.OneLeftRotates` | Dependencies/mbedtls/library/camellia.c:232-242 | the shift by one and back is the rotation of a 32-bit word |
| `CamelliaF.FLIsStandard` | Dependencies/mbedtls/library/camellia.c:232-236 | FL is that of RFC 3713 |
| `CamelliaF.FLInvIsStandard` | Dependencies/mbedtls/library/camellia.c:238-242 | and so is its inverse |
| `CamelliaKeys.IndexesAgree` | Dependencies/mbedtls/library/camellia.c:165-203 | every entry of the index table takes, from a copy that the shift table has made, the word that the subkey table of RFC 3713 puts there |
| `CamelliaKeys.TransposesAgree` | Dependencies/mbedtls/library/camellia.c:205-221 | every transposition copies a word to where RFC 3713 has it again |
| `CamelliaKeys.Covered` | Dependencies/mbedtls/library/camellia.c:165-221 | each word of all subkeys is put in place by an index entry or a transposition |
| `CamelliaKeys.OwnerHasWord` | Dependencies/mbedtls/library/camellia.c:244-259 | the word found by part, shift and position is the half of the rotated key part that RFC 3713 names |
| `CamelliaKeys.ShiftAndPlace` | Dependencies/mbedtls/library/camellia.c:244-259 | after the macro for a part, all words taken from the parts so far are in place and the rest is still zero |
| `CamelliaKeys.DoTranspositions` | Dependencies/mbedtls/library/camellia.c:401-406 | with all parts placed, the transpositions complete the subkeys of RFC 3713 |
| `CamelliaKeys.StoreKey` | Dependencies/mbedtls/library/camellia.c:327-354 | KL and KR from the key bytes, a 192-bit key completed with its complement |
| `CamelliaKeys.GenerateParts` | Dependencies/mbedtls/library/camellia.c:356-380 | the in-place rounds over KC compute KA and, for longer keys, KB |
| `CamelliaKeys.MakeRoundKeys` | Dependencies/mbedtls/library/camellia.c:303-409 | key parts, placements and transpositions give exactly the round keys of RFC 3713 |
| `CamelliaStandard.KAIsStandard` | Dependencies/mbedtls/library/camellia.c:356-370 | KA is that of RFC 3713, with its six constants as 64-bit numbers |
| `CamelliaStandard.KBIsStandard` | Dependencies/mbedtls/library/camellia.c:372-380 | and so is KB |
| `CamelliaStandard.RoundKeysAreSubkeys` | Dependencies/mbedtls/library/camellia.c:303-409 | the round key array holds kw, k and ke in the order of their use, each the named half of the named part rotated by the named amount |
| `CamelliaStandard.CryptIsStandard` | Dependencies/mbedtls/library/camellia.c:463-523 | the data path with these round keys is the encryption of section 2.3 of RFC 3713, round by round |
| `CamelliaStandard.EncryptBlock` | Dependencies/mbedtls/library/camellia.c:303-523 | setting up a key and encrypting sixteen bytes gives the ciphertext RFC 3713 defines, for all three key sizes and any S-boxes |
| `Camellia.FLUndone` | Dependencies/mbedtls/library/camellia.c:232-242 | FL and FLInv with the same key are inverse |
| `Camellia.SixUndone` | Dependencies/mbedtls/library/camellia.c:261-284 | six rounds are undone by six rounds with the key pairs reversed |
| `Camellia.LayerUndone` | Dependencies/mbedtls/library/camellia.c:504-509 | an FL/FLInv layer is undone by the layer with its key pairs exchanged |
| `Camellia.GroupsUndone` | Dependencies/mbedtls/library/camellia.c:489-510 | all groups and layers are undone by the reversed pairs, for any number of groups |
| `Camellia.CryptInverse` | Dependencies/mbedtls/library/camellia.c:414-523 | the same data path with the rearranged keys undoes encryption, for every key and block |
| `Camellia.Context.SetkeyEnc` | Dependencies/mbedtls/library/camellia.c:303-409 | three key sizes accepted, 3 or 4 groups, and the round keys of section 2.2 of RFC 3713 computed from the key, zeros behind them; another size leaves zeros and is refused |
| `Camellia.Context.SetkeyDec` | Dependencies/mbedtls/library/camellia.c:414-458 | the two moving pointers produce exactly the rearrangement of these round keys that the inverse needs; another size changes nothing |
| `Camellia.Context.CopyPairs` | Dependencies/mbedtls/library/camellia.c:442-445 | the middle loop copies the key pairs in reverse order |
| `Camellia.Context.Feistel` | Dependencies/mbedtls/library/camellia.c:261-284 | one round in place, in either direction |
| `Camellia.Context.CryptEcb` | Dependencies/mbedtls/library/camellia.c:463-523 | the in-place pointer walk over the words of sixteen bytes computes whitening, groups with FL layers, swap and whitening |
| `Camellia.EncryptThenDecrypt` | Dependencies/mbedtls/library/camellia.c:303-523 | decrypting sixteen encrypted bytes returns them, for all three key sizes |
| `Der.LenRoundTrip` | Dependencies/mbedtls/library/asn1write.c:31-93 | a written length is parsed back, consuming exactly its header (section 8.1.3 of ITU-T X.690) |
| `Der.HeaderMeans` | Dependencies/mbedtls/library/asn1parse.c:39-99 | the length octets in numbers: one below 0x80, 0x81 to 0x84 with as many octets behind them, everything else refused |
| `Asn1Write.LenOctets` | Dependencies/mbedtls/library/asn1write.c:31-93 | the octets written for a length, in numbers |
| `Der.LenShortest` | Dependencies/mbedtls/library/asn1write.c:31-93 | no header that reads as the same length is shorter (section 10.1) |
| `Der.TlvRoundTrip` | Dependencies/mbedtls/library/asn1parse.c:39-116 | a written element is parsed back: exactly its bytes consumed, its contents found |
| `Der.TlvMeans` | Dependencies/mbedtls/library/asn1write.c:31-105 | tag, length octets, contents, in this order |
| `Der.IntContentValue` | Dependencies/mbedtls/library/asn1write.c:235-261 | integer contents denote the number and show it as non-negative (section 8.3) |
| `Der.IntContentMinimal` | Dependencies/mbedtls/library/asn1write.c:235-261 | and no shorter contents do |
| `Der.BitOctetsHold` | Dependencies/mbedtls/library/asn1write.c:352-383 | bit-string octets hold the given bits, unused ones zero (section 8.6) |
| `Der.BitOrder` | Dependencies/mbedtls/library/asn1write.c:308-383 | bit 0 is the most significant bit of the first octet |
| `Asn1Write.Writer.constructor` | Dependencies/mbedtls/library/asn1write.c:31-93 | an empty output at the end of the buffer |
| `Asn1Write.Writer.WriteLen` | Dependencies/mbedtls/library/asn1write.c:31-93 | prepends the shortest header; too-large lengths and short buffers reported with nothing written |
| `Asn1Write.Writer.WriteTag` | Dependencies/mbedtls/library/asn1write.c:95-104 | prepends the tag or reports a full buffer |
| `Asn1Write.Writer.WriteTaggedInt` | Dependencies/mbedtls/library/asn1write.c:235-261 | prepends the element for the int, or reports a short buffer exactly when it does not fit |
| `Asn1Write.WrittenAsItself` | Dependencies/mbedtls/library/asn1write.c:235-261 | the written contents denote the int if and only if it is not negative |
| `Asn1Write.NegativeWritten` | Dependencies/mbedtls/library/asn1write.c:235-261 | a negative int is written as its low octet, with a zero in front if the top bit of that is set |
| `Asn1Write.Writer.WriteMpi` | Dependencies/mbedtls/library/asn1write.c:123-164 | prepends the element for the magnitude, a zero octet added exactly for positive numbers with the top bit set |
| `Asn1Write.ZeroOctet` | Dependencies/mbedtls/library/asn1write.c:123-164 | the zero octet stands in front exactly for a positive sign and a set top bit, and the magnitude behind it has no zero in front |
| `Asn1Write.Writer.WriteBitstring` | Dependencies/mbedtls/library/asn1write.c:352-383 | prepends the bit string with unused bits cleared |
| `Asn1Write.Writer.TrimBits` | Dependencies/mbedtls/library/asn1write.c:326-347 | the backwards scan drops exactly the trailing zero bits |
| `Asn1Write.Writer.WriteNamedBitstring` | Dependencies/mbedtls/library/asn1write.c:308-350 | prepends the bit string without trailing zero bits (section 11.2.2) |
| `Asn1Parse.Reader.GetLen` | Dependencies/mbedtls/library/asn1parse.c:39-99 | accepts exactly what the reference parser accepts, with the same error otherwise; on success the cursor is past the header |
| `Asn1Parse.Reader.GetTag` | Dependencies/mbedtls/library/asn1parse.c:101-116 | the same for tag and length; on success the cursor is at the contents |
| `Asn1Parse.Reader.GetTaggedInt` | Dependencies/mbedtls/library/asn1parse.c:139-184 | accepts exactly non-empty, non-negative contents whose value fits an int, leading zeros or not |
| `Asn1Parse.Reader.GetMpi` | Dependencies/mbedtls/library/asn1parse.c:201-217 | the magnitude of the contents |
| `Asn1Parse.Reader.GetBitstring` | Dependencies/mbedtls/library/asn1parse.c:220-252 | each malformed case with its error; otherwise the octets and the unused count, ending exactly at end |
| `Asn1Parse.ReadBinary` | Dependencies/mbedtls/library/bignum.c:706-727 | the big-endian value in exactly the limbs needed |
| `Asn1Parse.Builder.Append` | Dependencies/mbedtls/library/asn1parse.c:345-372 | the linked list, grown by one node in place, lists the elements in order |
| `Asn1Parse.Traverse` | Dependencies/mbedtls/library/asn1parse.c:258-304 | visits exactly the elements of the reference parse, hands the selected ones to the callback in order, and ends at end |
| `Asn1Parse.GetSequenceOf` | Dependencies/mbedtls/library/asn1parse.c:377-387 | the list of all elements with the tag, or the reference parser’s error |
| `Asn1Parse.ElemsRoundTrip` | Dependencies/mbedtls/library/asn1parse.c:258-304 | written elements are found in order, each with its contents, up to exactly the end |
| `DerRoundTrip.IntWrittenAndRead` | Dependencies/mbedtls/library/asn1write.c:235-261 | an int comes back as itself if and only if it is not negative |
| `DerRoundTrip.MpiWrittenAndRead` | Dependencies/mbedtls/library/asn1write.c:123-164 | a multi-precision integer comes back as its absolute value; with room to write it never fails |
| `DerRoundTrip.NamedBitsWrittenAndRead` | Dependencies/mbedtls/library/asn1write.c:308-350 | a named bit string comes back bit for bit without its trailing zero bits |
| `DerRoundTrip.SequenceWrittenAndRead` | Dependencies/mbedtls/library/asn1parse.c:258-387 | a sequence written element by element is split into the same contents in order, the cursor stopping exactly at its end; with room to write it never fails |
| `Base64.CharRoundTrip` | Dependencies/mbedtls/library/constant_time.c:383-412 | decoding an alphabet character gives its value |
| `Base64.AlphabetMeans` | Dependencies/mbedtls/library/constant_time.c:383-412 | digits are the 64 characters of the table of section 5.2 of RFC 1521 in its order, and nothing else |
| `Base64.GroupMeans` | Dependencies/mbedtls/library/base64.c:64-101 | 24 bits of three bytes, the first ones first, become four digits; one or two bytes are filled up with zeros and = |
| `Base64.CharacterCodes` | Dependencies/mbedtls/library/base64.c:117-162 | the codes of carriage return, line feed, space and = |
| `Base64.RoundTrip` | Dependencies/mbedtls/library/base64.c:39-209 | decode(encode(b)) = b for every byte string |
| `Base64.DecodedFits` | Dependencies/mbedtls/library/base64.c:169-204 | the second pass never writes more than the first pass computed |
| `Base64.EncodedNeeds` | Dependencies/mbedtls/library/base64.c:169-174 | for an encoded text the first pass computes exactly the original length |
| `Base64.Encode` | Dependencies/mbedtls/library/base64.c:39-101 | text and terminator, or the size needed with the buffer untouched |
| `Base64.FirstPass` | Dependencies/mbedtls/library/base64.c:118-162 | accepts exactly well-formed texts and counts digits and padding |
| `Base64.SecondPass` | Dependencies/mbedtls/library/base64.c:181-204 | the accumulator loop writes the decoded bytes and never overruns the computed length |
| `Base64.Decode` | Dependencies/mbedtls/library/base64.c:106-209 | invalid character, buffer too small (with the size needed), or the decoded bytes; refused calls write nothing |
| `Base64.LineBreaksIgnored` | Dependencies/mbedtls/library/base64.c:118-162 | in a text of digits and = only, LF or CRLF put in anywhere changes neither the payload nor whether the text is accepted |
| `Base64.BrokenRoundTrip` | Dependencies/mbedtls/library/base64.c:106-209 | so an encoding broken into lines anywhere is accepted and decodes to the original |
| `Base64.EncodeThenDecode` | Dependencies/mbedtls/library/base64.c:39-209 | encoding and decoding return the input exactly when both buffers have room |
| `Utility.OrBit` | src/utility.c:87-91 | the or of two signed words, bit by bit |
| `Utility.SmearStep` | src/utility.c:87-91 | one line of the trick sets as many more bits as are set already, for positive and negative words |
| `Utility.AllOnes` | src/utility.c:87-92 | once all bits below the leading one are set, adding one gives a power of two |
| `Utility.CeilPow2Least` | src/utility.c:85-94 | the reference: the least power of two not below v, and less than twice v |
| `Utility.CeilPow2Fixed` | src/utility.c:85-94 | v is its own next power of two if and only if v is a power of two |
| `Utility.NextHighestPowerOfTwo` | src/utility.c:85-94 | the shifts and ors compute that power for every v from 1 to 2^30, and 0 for v ≤ 0 |
| `Utility.Strstr` | src/utility.c:77-83 | the first occurrence, or none at all |
| `Utility.GetKeywordIndex` | src/utility.c:77-83 | the position behind the first occurrence; the error value exactly when there is none |
| `HttpResponse.HttpResponseHeader.constructor` | src/http.c:76-76 | the zeroed structure |
| `HttpResponse.HttpResponseHeader.ExpandBodySize` | src/http_parser.c:90-97 | a new array of twice the field count with the same fields |
| `HttpResponse.HttpResponseHeader.SetResponseStatusLine` | src/http_parser.c:135-146 | the three parts are stored and the total grows by their lengths plus 7, in the source’s int and size_t arithmetic |
| `HttpResponse.HttpResponseHeader.SetResponseProperty` | src/http_parser.c:148-182 | dropped when full or without a key, otherwise replaces the first field containing the key or is appended, total adjusted with size_t wrap-around |
| `HttpResponse.AddedSize` | src/http_parser.c:169-170 | subtracting a longer length in size_t and adding the wrapped result to an int still gives the right int |
| `HttpResponse.RunAccounted` | src/http_parser.c:135-182 | after any run of calls the total equals the bytes the printer writes plus those of superseded status lines |
| `HttpResponse.ExactIffOneStatusLine` | src/http_parser.c:275-292 | the total is exactly the printed length with terminator if and only if the status line was set exactly once |
| `HttpResponse.RoomToAppend` | src/http_parser.c:149-156 | after the growth step there is a free slot, and the array has exactly the next power of two of the fields it is to hold |
| `HttpResponse.RunWellSized` | src/http_parser.c:148-182 | which every run keeps up to the limit of 128 |
| `HttpResponse.ReplacesIffKeyOccurs` | src/http_parser.c:166-175 | a property replaces a field if and only if its key occurs anywhere in some field |
| `HttpResponse.DocumentedIff` | src/http_parser.c:166-190 | the fields become what the header file documents if and only if no field before the first that starts with the key contains it further on |
| `HttpResponse.UnrelatedFieldReplaced` | src/http_parser.c:166-175 | a concrete pair of properties with different keys where one overwrites the other, against include/http_parser.h:52-55 |
| `HttpResponse.FullIsFrozen` | src/http_parser.c:151-152 | with 128 fields even a replacement is dropped; otherwise a property with a key is stored |
| `HttpResponse.HttpResponseHeader.ResponseToBuff` | src/http_parser.c:275-292 | in a buffer of the counted size: version, space, code, space, status, line end, the stored fields in order, line end, terminator, each at the offset of the lengths before it; an error exactly without a status line |
| `HttpResponse.TextShows` | src/http_parser.c:275-292 | any buffer that starts with the text shows these parts when it is cut back |
| `HttpResponse.SendHttpHeader` | src/http.c:46-73 | what the transport is called with starts with the text and ends with the appended data, with the terminator and unset bytes of the buffer between the two if a replaced status line is still counted and nothing otherwise; a null pointer without a status line; the total is restored, and more than 8192 bytes are refused without a call |

## Left out

- Memory: allocation always succeeds and sizes are unbounded, so neither the allocation errors nor MBEDTLS_MPI_MAX_LIMBS
  appear, except in the modulus setup, the bit limit of the exponentiation and `MpiDiv.ModMpi` with R over B; freeing
  and wiping memory are not modelled.
- The limb size: β is 2^32 throughout, and memory is little-endian where bytes are read as limbs.
- Mpis.Mpi.constructor: the limb buffer of an mpi is a sequence-valued field that methods reassign; limb loops shared with
  the core functions run on a fresh array copy of it, so two mpis sharing one buffer are not captured.
- Scratch memory: the working space of the exponentiations and the inversions is allocated inside the method instead of
  being passed as one pool.
- Constant-time helpers (conditional assignment, comparison, zero test, table lookup, tag and base64 character
  helpers) are plain selections, comparisons and lookups; timing is not modelled.
- Bit operations on disjoint parts are written as sums, shifts as multiplication and division by powers of two.
- The assembly versions of the multiply-accumulate column, AES and its instruction-set back ends, the contents of
  the S-boxes and the round functions of other ciphers.
- MpiDiv.ModMpi: R over a positive B whose remainder is not negative is excluded, because the source does not return then.
- MpiExp.ExpModMpi: the cached R² must be a different object from the operands, and right when it is not empty.
- Mod.ModInv: for composite moduli only the power N − 2 is characterised, not whether it is an inverse.
- MpiString.ReadString: the text is given without its terminator, and the length limit near the largest size_t is
  not modelled; reading and writing files is left out.
- Montgomery.Montmul: B is at most N (not strictly below), which is what the callers need; the bound on A is its
  limb count.
- Ccm.Context.Update: block-cipher calls never fail, and output goes to a buffer of its own.
- CcmSession.Session: what the tag of a session with early payload is worth is not characterised beyond the value of y
  that the contracts of the single calls give.
- Xts.CryptXts: the key schedule and the in-place use of one buffer are not modelled; blocks go through an arbitrary
  function with an inverse.
- Cbc.Context.Update: 16-byte blocks, separate buffers; the other modes of cipher.c, the PSA branches and the
  dispatch tables are left out.
- Asn1Write.Writer.constructor: the cursor pointer is an index into one buffer; raw-buffer, OID and string writers would
  only add easier members. The named-data list of asn1write.c is left out.
- Asn1Parse.Reader.GetLen: the data is a sequence, the cursor an index; algorithm identifiers and named-data lookups
  are left out.
- Base64.Decode: a null output buffer for measuring is an array that is too short.
- HttpResponse.HttpResponseHeader.SetResponseProperty: lengths stay within an int, since the source converts positions to
  int; strings are values, so freeing and reallocating them is not modelled.
- HttpResponse.SendHttpHeader: what the transport does with the bytes is one result value; a null pointer to append with
  a positive size, and appending data to a header without a status line, are not modelled.
- SetResponseContentType, SetResponseContentLength and the request parser: string formatting that would add easy members.
- ComputeChunkEncodingData: the framing sizes its hexadecimal field from another number than the one it prints.
- Sockets, TLS sessions, threads, logging, files and configuration of the server.
- Random numbers, primality tests and prime generation, GCM, ChaCha20-Poly1305, and the CTR, OFB and CFB modes.
