# Verified models of the device SDK's arithmetic, cryptography and codecs

The C SDK connects devices to an IoT hub. Below its protocol layers lies code whose
one-line meaning is mathematical and whose text is not: a multi-precision integer
engine, a table-driven block cipher and its modes, streaming hashes, DER and Base64
codecs, a calendar conversion and a linked list. This project models that code in
Dafny, in the form it has in C (mutable buffers, carry loops, moving positions), and
proves what it computes. `dafny verify dfyconfig.toml` checks everything.

## How the models are laid out

- **Integers** (`Arith`, `Limbs`, `Mpi*`, `WordDiv`, `Montgomery`, `ExpMod`, `InvMod`,
  `RadixIO`). A number is an object with a sign and a growable buffer of limbs below
  `2^biL`; `biL` is 32 or 64 and otherwise unknown, and so is whether a double-width type
  exists. Limb operations wrap explicitly. Every routine is proved against the integers,
  for the aliasings the C code tolerates, and every loop that C leaves unbounded is shown
  to stop inside its buffer.
- **Hashes** (`Hash`, `Sha1`, `Md5`, `SineTable`, `HashExamples`, `Hmac`). One streaming
  context, parametrised by what distinguishes SHA-1 from MD5; the two block functions are
  proved equal to the compression functions the context is given.
- **AES** (`Bytes`, `Gf`, `Columns`, `AesTables`, `SBoxFigures`, `Aes`, `AesCode`,
  `AesExample`, `AesModes`). A 32-bit word of the cipher is a column of four bytes, least
  significant first, which turns the code's shifts and masks into choosing and placing
  bytes. Nothing is assumed about the tables: they are the ones the generator fills, and
  the order of three in GF(2^8) is what makes it fill all of them.
- **Modes and CCM** (`Octets`, `Numerals`, `Modes`, `Ccm`). They take any block cipher;
  `AesModes.AesInverts` supplies AES.
- **DER** (`DerSpec`, `Der`), **Base64**, **Calendar**, **DList**.

Specification functions carry the standard's meaning; methods follow the C code and are
tied to them by their contracts; lemmas relate the specifications to each other.

What a specification shares with the code (byte order, digits, tables, constants, formats)
is stated a second time in other words: entry by entry (`...Entries`), as fields read back
(`...Fields`), as an if-and-only-if on the bytes (`...Exact`), by where the numbers come
from (`Sha1.RootConstants`, `SineTable`), or by published tables and vectors worked
through from the definitions (`SBoxFigures`, `AesExample`, `HashExamples`).

## Where the code does less than its name says

Each is proved as an exact condition, for all inputs.

- `mbedtls_mpi_exp_mod` with a negative base negates the power whatever the exponent
  (`ModExp.ExpModExact`; what a caller can tell beforehand: `ModExp.ExpModOddPower`,
  `ModExp.ExpModEvenPower`, `ModExp.ExpModMultiple`).
- `mbedtls_mpi_gcd` returns 0 for gcd(A, 0) with A other than zero (`MpiGcd.GcdResultExact`).
- `mbedtls_mpi_inv_mod` does not leave its loop for N = 1, and only for N = 1
  (`ModInverse.LoopLeavesExact`); with N = 1 and an A that has no limb buffer the loop does
  not even begin, its first guard reading through a null pointer.
- `mbedtls_mpi_div_mpi` reads the signs of its operands after writing the quotient
  (`MpiMod.DivAliasExact`).
- `mbedtls_mpi_mod_int` loses bits for moduli wider than half a limb that do not divide
  2^biL (`MpiMod.ModLoopExact`).
- `mbedtls_mpi_write_string` asks for one byte too few for some negative numbers in
  hexadecimal (`RadixIO.EstimateExact`).
- `utils_aes_cbc` pads its output buffer but encrypts its input buffer
  (`Modes.PaddingExact`).
- CCM lets through additional data of exactly 0xFF00 bytes, for which RFC 3610 wants the
  longer length encoding; the comment beside the check says "a < 2^16 - 2^8"
  (`Ccm.AddBlocksExact`).
- `mbedtls_asn1_write_mpi` writes zero without a content byte unless the byte behind it has
  its top bit set, and writes negative numbers as their magnitude, which is right only for
  some powers of two (`DerSpec.IntContentExact`) and is read back without the sign
  (`DerSpec.MpiSignExact`); `mbedtls_asn1_write_int` writes one byte of any value
  (`DerSpec.SmallRoundTripExact`).
- The Base64 decoder accepts texts that are not whole groups of four and drops the rest,
  and does not look at unused bits (`Base64.WithinPrediction`, `Base64.CanonicalExact`).
- `timestamp_to_date` is wrong from 1 March 2100 on (`Calendar.DateOfDay`,
  `Calendar.DateTime.TimestampToDate`) and for local times before 1970, with a size_t of
  either width (`Calendar.BeforeEpoch`).
- `mbedtls_mpi_mod_mpi` does not leave the loops behind its division when R and B are one
  positive number, and only then (`MpiMod.RangeLeavesExact`). A remainder that is not
  negative is compared with itself, and after one pass so is zero, for ever
  (`MpiMod.SelfCompares`). A negative one is doubled by every pass of the loop before
  (`MpiMod.SelfDoubles`), which over unbounded numbers does not end; in the code it ends
  with MBEDTLS_ERR_MPI_ALLOC_FAILED as soon as `mbedtls_mpi_grow` is asked for more than
  MBEDTLS_MPI_MAX_LIMBS limbs (`bignum.c:118`) or for memory there is not.

## Model

| member | source | states |
|---|---|---|
| MpiCore.Grow | external_libs/mbedtls/library/bignum.c:114-138 | the number keeps its value while its buffer is extended with zero limbs to the length asked for; a long enough buffer is left alone |
| MpiCore.Copy | external_libs/mbedtls/library/bignum.c:180-209 | X takes sign and value of Y; its buffer never shrinks, the old limbs above are cleared, and copying a null buffer frees X |
| MpiCore.Lset | external_libs/mbedtls/library/bignum.c:290-303 | X takes the value of the machine integer, all other limbs zero |
| MpiCore.ScanDown | external_libs/mbedtls/library/bignum.c:821-825 | two limb vectors with the same number of significant limbs are ordered as their values |
| MpiCore.CmpAbs | external_libs/mbedtls/library/bignum.c:803-828 | the sign of abs(X) - abs(Y), leading zeros on either side notwithstanding |
| MpiCore.CmpMpi | external_libs/mbedtls/library/bignum.c:833-861 | the three-way order of the signed values, with +0 and -0 equal |
| MpiCore.CmpInt | external_libs/mbedtls/library/bignum.c:866-877 | the three-way order against a machine integer |
| MpiAdd.AddWords | external_libs/mbedtls/library/bignum.c:912-917 | two wrapping additions with their carry flags add three words without losing anything |
| MpiAdd.AddLimbs | external_libs/mbedtls/library/bignum.c:912-917 | the limb loop adds B to X in place, X and B possibly the same object: value plus pending carry is the exact sum |
| MpiAdd.CarryOut | external_libs/mbedtls/library/bignum.c:919-928 | the unbounded carry loop ends with the exact sum, growing X by a limb when the carry runs off the top |
| MpiAdd.AddAbs | external_libs/mbedtls/library/bignum.c:882-933 | X = abs(A) + abs(B) for any aliasing of the three |
| MpiAdd.SubLimbs | external_libs/mbedtls/library/bignum.c:943-947 | the limb loop subtracts in place: value minus pending borrow is the exact difference |
| MpiAdd.BorrowStaysInside | external_libs/mbedtls/library/bignum.c:949-953 | a borrow still pending behind the last limb would mean a negative difference, so with abs(B) <= abs(A) the borrow loop stops inside the buffer |
| MpiAdd.SubHlp | external_libs/mbedtls/library/bignum.c:938-954 | the low limbs are subtracted exactly, and the borrow loop, which has no bound of its own, stays within the buffer |
| MpiAdd.SubAbs | external_libs/mbedtls/library/bignum.c:959-997 | X = abs(A) - abs(B) for any aliasing when abs(A) >= abs(B), otherwise an error and X untouched |
| MpiAdd.AddMpi | external_libs/mbedtls/library/bignum.c:1002-1028 | X = A + B over the integers, for any signs and aliasing |
| MpiAdd.SubMpi | external_libs/mbedtls/library/bignum.c:1033-1059 | X = A - B over the integers, for any signs and aliasing |
| MpiAdd.AddInt | external_libs/mbedtls/library/bignum.c:1064-1075 | X = A + b |
| MpiAdd.SubInt | external_libs/mbedtls/library/bignum.c:1080-1091 | X = A - b |
| MpiMul.MulAddHalf | external_libs/mbedtls/library/bignum.c:1149-1154 | the multiply-accumulate step built from four half-word products with wrapping sums yields the exact two-word result |
| MpiMul.MulAddWide | external_libs/mbedtls/library/bignum.c:1149-1154 | the same step through a double-width type yields the same two words |
| MpiMul.MulRow | external_libs/mbedtls/library/bignum.c:1149-1154 | a row of steps adds s times b to the window, up to the pending carry word |
| MpiMul.CarryStaysInside | external_libs/mbedtls/library/bignum.c:1159-1162 | a carry still pending behind the last limb would make the total too large for the buffer |
| MpiMul.MulHlp | external_libs/mbedtls/library/bignum.c:1104-1163 | d += s * b exactly; the do-while carry loop, which has no bound of its own, stays within the buffer whenever the total fits it |
| MpiMul.MulRows | external_libs/mbedtls/library/bignum.c:1190-1191 | the rows, from the top limb of B down, accumulate abs(A) * abs(B) |
| MpiMul.MulMpi | external_libs/mbedtls/library/bignum.c:1168-1200 | X = A * B over the integers, also when X is A, B or both |
| MpiMul.MulInt | external_libs/mbedtls/library/bignum.c:1205-1216 | X = A * b |
| MpiShift.Clz | external_libs/mbedtls/library/bignum.c:362-375 | the number of zero bits above the highest set bit of a limb |
| MpiShift.BitLen | external_libs/mbedtls/library/bignum.c:380-394 | the bit length of abs(X) |
| MpiShift.BitLengthUnique | external_libs/mbedtls/library/bignum.c:380-394 | the bit length is the only n with 2^(n-1) <= v < 2^n |
| MpiShift.Lsb | external_libs/mbedtls/library/bignum.c:347-357 | the exponent of the largest power of two dividing X, zero for zero: the quotient is odd |
| MpiShift.MoveUp | external_libs/mbedtls/library/bignum.c:729-736 | whole limbs move up in place: multiplication by a power of the limb base |
| MpiShift.ShiftBitsUp | external_libs/mbedtls/library/bignum.c:741-750 | the bit loop multiplies by 2^t1 with the bits of each limb carried into the next |
| MpiShift.ShiftL | external_libs/mbedtls/library/bignum.c:710-755 | X = X * 2^count with the sign kept and room made for every bit |
| MpiShift.MoveDown | external_libs/mbedtls/library/bignum.c:774-781 | whole limbs move down in place: division by a power of the limb base |
| MpiShift.ShiftBitsDown | external_libs/mbedtls/library/bignum.c:786-795 | the bit loop divides by 2^v1, rounding down |
| MpiShift.ShiftR | external_libs/mbedtls/library/bignum.c:760-798 | abs(X) = abs(X) / 2^count rounded down, sign kept, zero when everything is shifted out |
| WordDiv.IntDivInt | external_libs/mbedtls/library/bignum.c:1222-1312 | all ones when d is 0 or u1 >= d, otherwise the exact quotient and remainder of u1*2^biL + u0 by d, in either build |
| WordDiv.DivWide | external_libs/mbedtls/library/bignum.c:1245-1255 | the double-width branch delivers the exact quotient and remainder |
| WordDiv.DivHalf | external_libs/mbedtls/library/bignum.c:1256-1311 | the half-limb branch delivers the same exact quotient and remainder although its intermediate products wrap modulo 2^biL |
| WordDiv.HalfDigit | external_libs/mbedtls/library/bignum.c:1282-1291 | one estimated and corrected half-limb digit is the true digit |
| WordDiv.EstimateStep | external_libs/mbedtls/library/bignum.c:1285-1291 | the correction loop steps only down from an estimate that is too large, so it cannot pass the true digit |
| WordDiv.EstimateFits | external_libs/mbedtls/library/bignum.c:1285-1291 | whether the loop ends by its condition or by the break, the estimate no longer exceeds the true digit |
| WordDiv.WordDivisionUnique | external_libs/mbedtls/library/bignum.c:1222-1312 | quotient and remainder of a two-by-one division are determined by the division law, so both branches agree |
| MpiDiv.FirstEstimate | external_libs/mbedtls/library/bignum.c:1367-1373 | the two-limb by one-limb estimate is never below the true quotient digit |
| MpiDiv.EstimateAbove | external_libs/mbedtls/library/bignum.c:1376-1390 | the correction loop leaves the estimate at or above the true digit |
| MpiDiv.EstimateAtMostOneOver | external_libs/mbedtls/library/bignum.c:1376-1390 | after the correction loop the estimate is at most one too large, because the divisor is half-normalized |
| MpiDiv.EstimateDigit | external_libs/mbedtls/library/bignum.c:1367-1390 | the digit found is the true one or one more, and the loop terminates |
| MpiDiv.DigitSettles | external_libs/mbedtls/library/bignum.c:1392-1402 | one subtraction and at most one add-back leave a remainder below the next place value |
| MpiDiv.DivStep | external_libs/mbedtls/library/bignum.c:1367-1402 | one pass keeps X + Z*Y constant and brings the remainder one place further down |
| MpiDiv.LeadDigit | external_libs/mbedtls/library/bignum.c:1356-1363 | the counting loop finds the leading quotient digit, and its limb does not overflow |
| MpiDiv.DivNormalized | external_libs/mbedtls/library/bignum.c:1354-1403 | normalized long division ends with the quotient in Z and the remainder in X |
| MpiDiv.ShiftBoth | external_libs/mbedtls/library/bignum.c:1345-1352 | the common shift makes the top limb of the divisor biL - 1 bits long and scales both operands alike |
| MpiDiv.Unscale | external_libs/mbedtls/library/bignum.c:1411-1415 | undoing the shift leaves the quotient alone and scales the remainder back exactly |
| MpiDiv.DivMpi | external_libs/mbedtls/library/bignum.c:1317-1427 | for every B other than zero and any aliasing of the four: the quotient and remainder stored, which without a quotient written over an operand satisfy A = Q*B + R with abs(R) < abs(B) and R zero or of the sign of A; division by zero is refused |
| MpiMod.DivisionLaw | external_libs/mbedtls/library/bignum.c:1315-1427 | the values stored by the division are those of truncating integer division |
| MpiMod.DivisionLawUnique | external_libs/mbedtls/library/bignum.c:1315-1427 | and no other pair obeys that law |
| MpiMod.DivAliasExact | external_libs/mbedtls/library/bignum.c:1405-1419 | with the quotient written over A, B or both, the stored pair obeys the division law if and only if the lost sign did not matter and, A being lost, the remainder is zero or got its sign anyway |
| MpiMod.DivInt | external_libs/mbedtls/library/bignum.c:1432-1443 | the same by a machine integer, Q over A included |
| MpiMod.ModMpi | external_libs/mbedtls/library/bignum.c:1448-1466 | for B > 0 held apart from R the result lies in [0, B) and is congruent to A; otherwise an error and the result untouched |
| MpiMod.RangeLeavesExact | external_libs/mbedtls/library/bignum.c:1457-1461 | for every A and every B > 0 the two loops, entered with the remainder the division stores, are left after finitely many passes if and only if R is not B |
| MpiMod.SelfDoubles | external_libs/mbedtls/library/bignum.c:1457-1458 | R being B, after k passes a negative remainder is 2^k times what it was and the first loop still goes on |
| MpiMod.SelfCompares | external_libs/mbedtls/library/bignum.c:1460-1461 | R being B, any other remainder stays in the second loop, as zero from its first pass on |
| MpiMod.AddPass | external_libs/mbedtls/library/bignum.c:1457-1458 | a pass of the first loop is a step of that machine, whether R is B or not |
| MpiMod.SubPass | external_libs/mbedtls/library/bignum.c:1460-1461 | a pass of the second loop is a step of that machine, whether R is B or not |
| MpiMod.ModLoopCorrect | external_libs/mbedtls/library/bignum.c:1500-1511 | the half-limb loop computes the remainder of every number when b is at most 2^biH or divides 2^biL |
| MpiMod.ModLoopExact | external_libs/mbedtls/library/bignum.c:1500-1511 | and only then: for any other b a two-limb number comes out wrong |
| MpiMod.ModInt | external_libs/mbedtls/library/bignum.c:1471-1523 | error codes for b <= 0; what the loop yields, mirrored for negative A; for moduli that pass that test the remainder of A in [0, b) |
| Montgomery.FirstInverseWorks | external_libs/mbedtls/library/bignum.c:1533-1534 | the starting value inverts the odd low limb modulo 16 |
| Montgomery.HenselStep | external_libs/mbedtls/library/bignum.c:1536-1537 | one Newton step in wrapping arithmetic doubles the number of correct bits |
| Montgomery.MontgInit | external_libs/mbedtls/library/bignum.c:1528-1540 | for odd N, mm * N = -1 modulo the limb base |
| Montgomery.LowLimbClears | external_libs/mbedtls/library/bignum.c:1565-1569 | the multiplier chosen for N makes the lowest limb of the row vanish |
| Montgomery.RowFits | external_libs/mbedtls/library/bignum.c:1568-1569 | no carry of either accumulation leaves the 2n + 2 limbs of T |
| Montgomery.MontRow | external_libs/mbedtls/library/bignum.c:1560-1572 | a row keeps the window below 2N and its congruence to the partial product |
| Montgomery.MontRowStep | external_libs/mbedtls/library/bignum.c:1565-1571 | a row on the buffer adds u0*B + u1*N and divides by the limb base exactly |
| Montgomery.MontMul | external_libs/mbedtls/library/bignum.c:1545-1583 | for A, B < N: the new A is below N and A * R is congruent to the product modulo N; too small a T is refused |
| Montgomery.MontFinish | external_libs/mbedtls/library/bignum.c:1574-1580 | the single conditional subtraction brings the window below N |
| Montgomery.MontRed | external_libs/mbedtls/library/bignum.c:1588-1597 | A * R^-1 mod N, reduced |
| ModExp.WindowSkip | external_libs/mbedtls/library/bignum.c:1731-1741 | a zero between windows squares X and keeps the scanned prefix |
| ModExp.WindowGrow | external_libs/mbedtls/library/bignum.c:1746-1749 | a bit joins the window at its left-aligned position |
| ModExp.BuildTable | external_libs/mbedtls/library/bignum.c:1681-1704 | every entry of the upper half of the table is the Montgomery form of its power |
| ModExp.WindowRange | external_libs/mbedtls/library/bignum.c:1751-1762 | a full window indexes the upper half of the table, 2^(wsize-1) <= wbits < 2^wsize, so only initialised entries are read |
| ModExp.ScanBit | external_libs/mbedtls/library/bignum.c:1724-1767 | one bit of the exponent keeps the relation between X, the window and the bits seen so far |
| ModExp.ScanExponent | external_libs/mbedtls/library/bignum.c:1706-1768 | after the last limb X holds the power of the bits outside the open window |
| ModExp.RemainingBits | external_libs/mbedtls/library/bignum.c:1773-1781 | the bits of an unfinished window are squared and multiplied in |
| ModExp.PrepareRR | external_libs/mbedtls/library/bignum.c:1653-1663 | R^2 mod N, computed or taken from the cache, which holds it afterwards |
| ModExp.ExpMod | external_libs/mbedtls/library/bignum.c:1602-1805 | for odd N > 0 and E >= 0 the stated result for every base, window size and cache; even or negative moduli and negative exponents are refused |
| ModExp.ExpModOdd | external_libs/mbedtls/library/bignum.c:1618-1792 | the computation once the arguments are accepted |
| ModExp.ExpModExact | external_libs/mbedtls/library/bignum.c:1788-1792 | the result is A^E reduced into [0, N) if and only if the sign of A is positive, or E is odd and N does not divide the power |
| ModExp.ExpModCongruent | external_libs/mbedtls/library/bignum.c:1788-1792 | the result is congruent to A^E modulo N if and only if the sign of A is positive, E is odd, or N divides the power |
| ModExp.ExpModInRange | external_libs/mbedtls/library/bignum.c:1788-1792 | it lies in [0, N) if and only if the sign of A is positive or N does not divide the power |
| ModExp.ExpModOddPower | external_libs/mbedtls/library/bignum.c:1788-1792 | negative A, odd E, N > 1 coprime to A: the result is right |
| ModExp.ExpModEvenPower | external_libs/mbedtls/library/bignum.c:1788-1792 | negative sign of A, even E: the result is wrong for every A and N |
| ModExp.ExpModMultiple | external_libs/mbedtls/library/bignum.c:1788-1792 | negative sign of a multiple of N, E > 0: the result is N itself |
| ModExp.ExpModNegativeBase | external_libs/mbedtls/library/bignum.c:1788-1792 | a concrete even power of a negative base that comes out wrong |
| MpiGcd.GcdOddParts | external_libs/mbedtls/library/bignum.c:1834-1835 | dropping the factors of two of two numbers that are not both even keeps their gcd |
| MpiGcd.GcdSubHalf | external_libs/mbedtls/library/bignum.c:1837-1846 | subtracting odd from odd and halving keeps the gcd |
| MpiGcd.CommonShift | external_libs/mbedtls/library/bignum.c:1821-1828 | the common power of two is taken out exactly once |
| MpiGcd.ReduceOnce | external_libs/mbedtls/library/bignum.c:1834-1846 | one round keeps the gcd, keeps TB positive and makes TA + TB smaller |
| MpiGcd.Reduce | external_libs/mbedtls/library/bignum.c:1832-1847 | the loop terminates with the gcd of the odd parts in TB |
| MpiGcd.GcdMpi | external_libs/mbedtls/library/bignum.c:1810-1857 | G = gcd(abs(A), abs(B)) for any aliasing, with the stated exception for B = 0 |
| MpiGcd.GcdResultExact | external_libs/mbedtls/library/bignum.c:1832-1850 | the result is the gcd if and only if B is not zero or A is zero |
| Arith.GcdIsGreatest | external_libs/mbedtls/library/bignum.c:1807-1810 | the specification divides both numbers and every common divisor divides it |
| ModInverse.HalvingExact | external_libs/mbedtls/library/bignum.c:1922-1929 | whatever the parities, making both coefficients even and halving keeps TU = U1*TA + U2*TB without losing a bit |
| ModInverse.HalveWhileEven | external_libs/mbedtls/library/bignum.c:1918-1930 | the inner loop terminates with an odd number and keeps the relation |
| ModInverse.Round | external_libs/mbedtls/library/bignum.c:1916-1959 | one round keeps both linear relations and the coprimality of TU and TV, and TU + TV falls |
| ModInverse.Extend | external_libs/mbedtls/library/bignum.c:1916-1959 | the loop ends with V1 * TA congruent to 1 modulo TB |
| ModInverse.IntoRange | external_libs/mbedtls/library/bignum.c:1961-1965 | V1 is brought into [0, N) without changing its residue |
| ModInverse.InvMod | external_libs/mbedtls/library/bignum.c:1886-1976 | for N > 1 it succeeds exactly when gcd(A, N) = 1, even N included, and then A*X = 1 mod N with 0 <= X < N |
| ModInverse.InverseUnique | external_libs/mbedtls/library/bignum.c:1886-1976 | there is no second inverse in range |
| ModInverse.InvertibleIsCoprime | external_libs/mbedtls/library/bignum.c:1900-1904 | a number with an inverse has gcd 1, so the refusal never turns away an invertible number |
| ModInverse.ModulusOneNeverLeaves | external_libs/mbedtls/library/bignum.c:1898-1930 | for N = 1 and every A the gcd test does not refuse, A is reduced to zero, and after any number of passes the guard of the first inner loop still holds |
| ModInverse.LoopLeavesExact | external_libs/mbedtls/library/bignum.c:1906-1959 | for every A and N let through by the gcd test, the loop as entered is left after finitely many steps if and only if N is not 1 |
| ModInverse.RoundSteps | external_libs/mbedtls/library/bignum.c:1916-1959 | a round of the loop is so many steps of that machine; `Extend` ends where the machine leaves |
| RadixIO.DigitsMeaning | external_libs/mbedtls/library/bignum.c:496-518 | the digits written for a number, read in the same radix, are that number |
| RadixIO.HexMeaning | external_libs/mbedtls/library/bignum.c:551-569 | the digit pairs of the hexadecimal path are the number, leading zero bytes left out |
| RadixIO.WriteHlp | external_libs/mbedtls/library/bignum.c:496-518 | the recursive helper writes exactly those digits, high-order first |
| RadixIO.WriteHex | external_libs/mbedtls/library/bignum.c:551-569 | the limb-wise loop writes exactly the pairs of the value |
| RadixIO.WriteString | external_libs/mbedtls/library/bignum.c:523-589 | bad radix and small buffers are refused with the size needed; otherwise the text of X and a final NUL |
| RadixIO.ReadHex | external_libs/mbedtls/library/bignum.c:438-459 | the backwards hexadecimal loop accepts exactly the valid texts and yields their value |
| RadixIO.ReadDigits | external_libs/mbedtls/library/bignum.c:460-484 | the forward loop accepts exactly the valid texts and yields their value, subtracting once a minus was seen |
| RadixIO.ReadString | external_libs/mbedtls/library/bignum.c:424-491 | for every radix from 2 to 16: the value of a valid text, an error for any other |
| RadixIO.RoundTrip | external_libs/mbedtls/library/bignum.c:424-589 | the text of any number is valid and reads back as that number, in every radix, zero and the empty buffer included |
| RadixIO.EstimateExact | external_libs/mbedtls/library/bignum.c:534-537 | the size asked for is enough for the text if and only if the number is not a negative one in hexadecimal whose top byte has one to three significant bits or whose value is zero |
| RadixIO.DigitLetters | external_libs/mbedtls/library/bignum.c:413-415 | the digits of value r are the r-th of 0-9A-F and of 0-9a-f when read, and the capital when written |
| RadixIO.DigitExact | external_libs/mbedtls/library/bignum.c:407-421 | and no other character has a value below 16 |
| RadixIO.MinusSign | external_libs/mbedtls/library/bignum.c:445-489 | a minus sign in front of a text negates it |
| MpiBinary.MpiSize | external_libs/mbedtls/library/bignum.c:399-402 | the number of bytes of the magnitude |
| MpiBinary.SizeOfBits | external_libs/mbedtls/library/bignum.c:399-402 | the bit count rounded up to bytes is the least number of base-256 digits |
| MpiBinary.ReadBinary | external_libs/mbedtls/library/bignum.c:667-685 | X becomes the big-endian number in the buffer, leading zeros or not |
| MpiBinary.WriteBinary | external_libs/mbedtls/library/bignum.c:690-705 | the magnitude right-aligned in the buffer, or an error and no change when it does not fit |
| Numerals.NumBigEndian | external_libs/mbedtls/library/bignum.c:667-705 | writing a number that fits and reading it back gives the number |
| Numerals.BigEndianNum | external_libs/mbedtls/library/bignum.c:667-705 | reading bytes and writing them in the same length gives the bytes |
| Hash.Context.constructor | sdk_src/utils/utils_sha1.c:76-86 | a context that has absorbed the empty message |
| Hash.Context.Count | sdk_src/utils/utils_sha1.c:256-261 | the two 32-bit words count modulo 2^64, the overflow test catching every carry |
| Hash.Context.FlushBuffer | sdk_src/utils/utils_sha1.c:263-269 | a completed buffer becomes one more block, and nothing is lost or reordered |
| Hash.Context.AbsorbBlocks | sdk_src/utils/utils_sha1.c:271-275 | whole blocks of the input are folded in, less than a block is left |
| Hash.Context.Update | sdk_src/utils/utils_sha1.c:244-280 | whatever was absorbed before, the context now stands for the message with the input appended |
| Hash.Context.LengthField | sdk_src/utils/utils_sha1.c:295-299 | the eight length bytes are the bit count modulo 2^64 |
| Hash.Context.Finish | sdk_src/utils/utils_sha1.c:289-312 | the output is the fold of the compression function over the message and the appended padding |
| Hash.CodePadExact | sdk_src/utils/utils_sha1.c:295-305 | the padding is the standard one if and only if the byte counter agrees with the message length modulo 2^61 |
| Hash.FinishIsDigest | sdk_src/utils/utils_sha1.c:289-312 | with a correct counter the output is the hash of FIPS 180-4 or RFC 1321 |
| Hash.ChunksCounted | sdk_src/utils/utils_md5.c:218-236 | chunks below 2^32 bytes are counted in full, however the message is cut |
| Hash.HashChunks | sdk_src/utils/utils_md5.c:218-285 | any way of cutting a message below 2^61 bytes into updates gives the hash of the whole message |
| Hash.BlocksAppend | sdk_src/utils/utils_sha1.c:271-275 | folding over a concatenation is folding twice |
| Hash.WordBytesNum | sdk_src/utils/utils_sha1.c:44-52 | the four bytes of a word are its big-endian number, and for MD5 the same in reverse |
| Hash.LongBytesNum | sdk_src/utils/utils_sha1.c:295-299 | the eight length bytes are the big-endian bit count, and for MD5 the same in reverse |
| Hash.OutputEntries | sdk_src/utils/utils_sha1.c:307-311 | the output is the words of the state in order |
| Hash.PadFields | sdk_src/utils/utils_sha1.c:295-305 | the padded message read back: the message, 80, the fewest zeros that complete a block, the bit count |
| Sha1.GetWordBytes | sdk_src/utils/utils_sha1.c:36-41 | a block word has the first of its four bytes at the top |
| Sha1.RootConstants | sdk_src/utils/utils_sha1.c:127-208 | the four constants are the integer parts of 2^30 times the square roots of 2, 3, 5 and 10 |
| Md5.GetWordBytes | sdk_src/utils/utils_md5.c:40-46 | a block word has the first of its four bytes at the bottom |
| SineTable.SineEntries | sdk_src/utils/utils_md5.c:127-206 | entry t of the table is the integer part of 2^32 times abs(sin(t + 1)): for every pair of reals enclosed by the partial sums of the series of sin 1 and cos 1, and the sines that the addition theorems make of it |
| InitialStates.InitialWords | sdk_src/utils/utils_sha1.c:81-85 | the initial states are the bytes 01 23 ... EF FE ... 10 F0 E1 D2 C3 in words, low-order byte first |
| Sha1Example.DigestOfAbc | external_libs/mbedtls/library/sha1.c:364-386 | the definitions give the first vector of the self-test, for "abc" |
| Md5Example.DigestOfAbc | external_libs/mbedtls/library/md5.c:333-368 | the same for MD5 |
| Sha1.CircularStep | sdk_src/utils/utils_sha1.c:111-112 | overwriting the oldest of sixteen words keeps the last sixteen words of the 80-word schedule in place |
| Sha1.NextWord | sdk_src/utils/utils_sha1.c:111-112 | the macro yields word t of the standard schedule |
| Sha1.CodeFIsF | sdk_src/utils/utils_sha1.c:126-203 | the three-operation forms of Ch and Maj are the functions of the standard |
| Sha1.CodeStep | sdk_src/utils/utils_sha1.c:114-118 | the macro under its rotated variable names performs one round of the standard |
| Sha1.Process | sdk_src/utils/utils_sha1.c:88-239 | the block function is the compression function of section 6.1.2 of FIPS 180-4 |
| Md5.TableEntries | sdk_src/utils/utils_md5.c:127-206 | the word indices and shifts listed step by step are those of section 3.4 of RFC 1321 |
| Md5.CodeFIsF | sdk_src/utils/utils_md5.c:125-190 | the code forms of F and G are the functions of the standard |
| Md5.CodeStep | sdk_src/utils/utils_md5.c:114-118 | the macro under its rotated variable names performs one operation of the standard |
| Md5.Process | sdk_src/utils/utils_md5.c:91-213 | the block function is the compression function of section 3.4 of RFC 1321 |
| Hmac.FillPad | sdk_src/utils/utils_hmac.c:48-57 | the zero-extended key, every byte xored with the constant |
| Hmac.HmacRaw | sdk_src/utils/utils_hmac.c:129-176 | keys longer than a block are refused, any other key gives the HMAC of RFC 2104, with SHA-1 or MD5 |
| Hmac.HmacText | sdk_src/utils/utils_hmac.c:29-127 | the same digest as lower-case hexadecimal text |
| Hmac.HexInjective | sdk_src/utils/utils_md5.c:301-305 | different digests have different texts |
| Hmac.DigestSizes | sdk_src/utils/utils_hmac.c:26-27 | the digests have twenty and sixteen bytes |
| Hmac.HmacFormula | sdk_src/utils/utils_hmac.c:42-72 | the formula of RFC 2104 with ipad 64 bytes 36 and opad 64 bytes 5C, the key filled up with zeros |
| Hmac.HexDigitLetter | sdk_src/utils/utils_md5.c:301-305 | the digits are those of 0-9a-f |
| Hmac.HexEntries | sdk_src/utils/utils_hmac.c:123-126 | byte i of the digest stands at characters 2i and 2i + 1, high half first |
| Gf.PowersDistinct | sdk_src/utils/utils_aes.c:355-359 | the powers of three below 3^255 are pairwise different |
| Gf.PowersReach | sdk_src/utils/utils_aes.c:355-359 | every non-zero byte is one of them, so the logarithm table has no hole |
| Gf.PowerSum | sdk_src/utils/utils_aes.c:342-342 | field products are sums of exponents |
| Gf.PowerWraps | sdk_src/utils/utils_aes.c:342-342 | exponents count modulo 255 |
| AesTables.PowerTables | sdk_src/utils/utils_aes.c:355-359 | the two tables hold the powers of three and an exponent for every non-zero byte, the entry of one being overwritten with 255 |
| AesTables.Mul | sdk_src/utils/utils_aes.c:342-342 | the table lookup is multiplication in GF(2^8), zero factors included |
| AesTables.CodeAffineIsAffine | sdk_src/utils/utils_aes.c:378-386 | the chain of rotations is the affine map of section 5.1.1 of FIPS 197 |
| SBoxes.SBoxInjective | sdk_src/utils/utils_aes.c:372-390 | the S-box never takes a value twice |
| SBoxes.SBoxOnto | sdk_src/utils/utils_aes.c:372-390 | and takes every value, so the reverse box is defined everywhere |
| AesTables.FillBoxes | sdk_src/utils/utils_aes.c:372-390 | the forward box is that of the standard and the reverse box undoes it |
| SBoxFigures.Figure7 | sdk_src/utils/utils_aes.c:109-123 | entry by entry, the substitution box is the one FIPS 197 prints in figure 7, which is the table compiled in where tables are not generated |
| SBoxFigures.Figure14 | sdk_src/utils/utils_aes.c:207-221 | the inverse box is that of figure 14 and the compiled-in one |
| SBoxFigures.GeneratedBoxes | sdk_src/utils/utils_aes.c:305-306 | the generated boxes are those tables, and the generated round constants the ten compiled in |
| AesTables.Tables.FillConstants | sdk_src/utils/utils_aes.c:364-367 | the round constants are the powers of x in the field |
| AesTables.Tables.FillForward | sdk_src/utils/utils_aes.c:396-406 | the forward entries are the substituted byte times the MixColumns column, rotated |
| AesTables.Tables.FillReverse | sdk_src/utils/utils_aes.c:408-417 | the reverse entries are the substituted byte times the InvMixColumns column, rotated |
| AesTables.Tables.GenTables | sdk_src/utils/utils_aes.c:346-419 | after one call all eleven tables hold what FIPS 197 needs |
| AesTables.Tables.Prepare | sdk_src/utils/utils_aes.c:496-501 | the tables are ready after every call, generated at most once |
| Columns.ForwardIsMix | sdk_src/utils/utils_aes.c:614-627 | four forward lookups xored together mix a column |
| Columns.ReverseIsInvMix | sdk_src/utils/utils_aes.c:629-642 | four reverse lookups xored together unmix a column |
| Columns.InvMixLinear | sdk_src/utils/utils_aes.c:594-599 | unmixing distributes over xor, which lets the key be unmixed instead of the state |
| Columns.InvMixMix | sdk_src/utils/utils_aes.c:594-599 | InvMixColumns undoes MixColumns |
| AesSpec.ShiftRowsEntries | sdk_src/utils/utils_aes.c:614-642 | row r of the state moves r columns to the left, and back |
| AesSpec.MixEntries | sdk_src/utils/utils_aes.c:614-627 | a column is multiplied by 3x^3 + x^2 + x + 2 modulo x^4 + 1, entry by entry |
| AesSpec.InvMixEntries | sdk_src/utils/utils_aes.c:629-642 | and by 0Bx^3 + 0Dx^2 + 09x + 0E for the inverse |
| AesSpec.InvRoundsUndo | sdk_src/utils/utils_aes.c:703-744 | after r inverse rounds the state is the substituted and shifted state before forward round nr - r |
| AesSpec.DecipherEncipher | sdk_src/utils/utils_aes.c:648-744 | the equivalent inverse cipher on the reversed and unmixed schedule restores every block, for any round keys |
| AesCode.FirstWord | sdk_src/utils/utils_aes.c:513-515 | the first word of a group: rotation, substitution and round constant as in section 5.2 of FIPS 197 |
| AesCode.Expand128 | sdk_src/utils/utils_aes.c:512-520 | the loop produces the 44 words of the standard key expansion |
| AesCode.Expand192 | sdk_src/utils/utils_aes.c:525-535 | the loop produces the standard expansion for six-word keys and stays inside the 68-word buffer |
| AesCode.Expand256 | sdk_src/utils/utils_aes.c:540-555 | the loop produces the standard expansion for eight-word keys, the extra substitution included |
| AesCode.Context.SetKeyEnc | sdk_src/utils/utils_aes.c:474-560 | invalid sizes are refused with the context unchanged; otherwise the buffer holds the key expansion and nr the rounds |
| AesCode.Context.InvertSchedule | sdk_src/utils/utils_aes.c:587-604 | forward over one buffer and backward over the other: round keys reversed, the inner ones unmixed |
| AesCode.Context.SetKeyDec | sdk_src/utils/utils_aes.c:567-610 | the buffer holds the decryption schedule of the same key |
| AesCode.Context.ForwardRound | sdk_src/utils/utils_aes.c:614-627 | one round of the standard cipher |
| AesCode.Context.ReverseRound | sdk_src/utils/utils_aes.c:629-642 | one round of the equivalent inverse cipher |
| AesCode.Context.Encrypt | sdk_src/utils/utils_aes.c:648-689 | the output is the FIPS 197 cipher of the block under the loaded schedule |
| AesCode.Context.Decrypt | sdk_src/utils/utils_aes.c:703-744 | the output is the equivalent inverse cipher of the block under the loaded schedule |
| AesCode.BlockRoundTrip | sdk_src/utils/utils_aes.c:648-744 | decrypting an encrypted block under the two schedules of one key gives the block |
| AesCode.EncryptThenDecrypt | sdk_src/utils/utils_aes.c:474-744 | for every key of 128, 192 or 256 bits and every block: key set for encryption, block encrypted, key set for decryption, block decrypted; the first result is the FIPS 197 cipher and the second the block, whether the tables were generated before or not |
| AesCode.LoadStateEntries | sdk_src/utils/utils_aes.c:655-662 | byte r + 4c of a block is row r of column c of the state, section 3.4 of FIPS 197 |
| AesCode.StoreStateEntries | sdk_src/utils/utils_aes.c:683-686 | and row r of column c is written to byte r + 4c |
| AesCode.KeyWordEntries | sdk_src/utils/utils_aes.c:505-507 | key word j is bytes 4j to 4j + 3 of the key |
| AesExample.SelfTestVector | external_libs/mbedtls/library/aes.c:1094-1145 | the definitions give the first block of the CFB128 self-test under the 256-bit key: the plaintext block plus the encrypted IV |
| Bytes.BitWeights | sdk_src/utils/utils_aes.c:508-515 | the bits of a byte used as a table index count 1, 2, 4, ... 128 |
| AesModes.AesInverts | sdk_src/utils/utils_aes.c:757-768 | AES is an invertible block cipher for the modes below |
| Streams.RunAppend | external_libs/mbedtls/library/aes.c:926-1035 | processing two pieces with the carried state is processing their concatenation, for every byte-wise mode |
| Streams.RunInverse | external_libs/mbedtls/library/aes.c:926-1035 | if the steps of two machines undo each other, whole runs do, ending in the same state |
| Modes.CryptCfb128 | external_libs/mbedtls/library/aes.c:926-967 | in place or not: output, register and offset are those of the run from the given state |
| Modes.CfbInverse | external_libs/mbedtls/library/aes.c:926-967 | CFB128 decryption from the same state restores any input, at any offset |
| Octets.XorIsBitwise | external_libs/mbedtls/library/aes.c:926-1035 | the exclusive or of the modes works on each bit of two bytes |
| Modes.CfbStandard | external_libs/mbedtls/library/aes.c:926-967 | every output byte is the input xored with the encryption of the previous ciphertext block, as in section 6.3 of SP 800-38A |
| Modes.CryptCfb8 | external_libs/mbedtls/library/aes.c:972-999 | in place or not: output and register are those of the run |
| Modes.Cfb8Inverse | external_libs/mbedtls/library/aes.c:972-999 | CFB8 decryption restores any input |
| Modes.Cfb8Standard | external_libs/mbedtls/library/aes.c:972-999 | every byte is keyed by the sixteen ciphertext bytes just before it |
| Modes.IncrementCounter | external_libs/mbedtls/library/aes.c:1022-1024 | the increment loop carries while a byte wraps |
| Modes.IncNum | external_libs/mbedtls/library/aes.c:1022-1024 | read as a big-endian number the counter goes up by one modulo 256^n |
| Modes.CountersDistinct | external_libs/mbedtls/library/aes.c:1019-1024 | no counter block repeats within 2^128 blocks |
| Modes.CryptCtr | external_libs/mbedtls/library/aes.c:1006-1035 | in place or not: output, counter, stream block and offset are those of the run |
| Modes.CtrInverse | external_libs/mbedtls/library/aes.c:1006-1035 | applying CTR twice from the same state restores any input |
| Modes.CtrStandard | external_libs/mbedtls/library/aes.c:1006-1035 | the output is the input xored with the encryptions of successive counter values |
| Modes.CryptCbc | external_libs/mbedtls/library/aes.c:860-919 | lengths that are not whole blocks are refused untouched; otherwise, in place or not, the chained encryption or decryption and the next chaining value |
| Modes.CbcAppend | external_libs/mbedtls/library/aes.c:860-919 | cutting the input on a block boundary and carrying the chaining value changes nothing |
| Modes.CbcInverse | external_libs/mbedtls/library/aes.c:860-919 | CBC decryption from the initial chaining value restores every message |
| Modes.CbcEncStandard | external_libs/mbedtls/library/aes.c:898-914 | every ciphertext block is the encryption of the message block xored with the ciphertext block before it, the IV before the first |
| Modes.CbcDecStandard | external_libs/mbedtls/library/aes.c:878-895 | every message block is the decryption of its ciphertext block xored with the ciphertext block before that |
| Modes.CbcDecBlock | sdk_src/utils/utils_aes.c:790-801 | the ciphertext is saved before it is overwritten, so decryption works in place |
| Modes.AesCbc | sdk_src/utils/utils_aes.c:818-866 | which bytes the wrapper really encrypts: it pads the output buffer but reads the input buffer |
| Modes.PaddingExact | sdk_src/utils/utils_aes.c:841-854 | the ciphertext is that of the zero-padded message if and only if the call is in place or the bytes behind the message are zero |
| Ccm.WriteFirst | external_libs/mbedtls/library/ccm.c:182-193 | the first block of section 2.2 of RFC 3610, and whether the length fits its field |
| Ccm.FirstBlockFields | external_libs/mbedtls/library/ccm.c:170-193 | read off the first block: the Adata bit exactly with additional data, (M - 2) / 2, L - 1, the nonce and the message length |
| Ccm.CounterBlockFields | external_libs/mbedtls/library/ccm.c:234-242 | read off a counter block: L - 1, the nonce and the counter |
| Ccm.PadZeros | external_libs/mbedtls/library/ccm.c:204-232 | additional data and message are filled up with zeros, by less than a block |
| Ccm.AcceptedExact | external_libs/mbedtls/library/ccm.c:155-168 | accepted are the tag lengths 4, 6, ... 16, the length fields of 2 to 8 bytes, additional data up to 0xFF00 bytes and every message whose length fits |
| Ccm.MacAdd | external_libs/mbedtls/library/ccm.c:204-232 | CBC-MAC over the additional data behind its length, padded, whatever its size |
| Ccm.AddBlocksExact | external_libs/mbedtls/library/ccm.c:155-166 | the length is encoded as RFC 3610 has it if and only if the data is shorter than 0xFF00 bytes, the largest size let through being the exception |
| Ccm.NextCounter | external_libs/mbedtls/library/ccm.c:287-289 | the increment loop moves to the next counter block |
| Ccm.CounterBlocksDistinct | external_libs/mbedtls/library/ccm.c:244-298 | the counter blocks of an accepted message are pairwise different, none is the counter of the tag, none is a first block of the MAC |
| Ccm.CcmBlock | external_libs/mbedtls/library/ccm.c:261-289 | one round authenticates the plaintext and xors the key stream, in either direction and in place |
| Ccm.CcmBlocks | external_libs/mbedtls/library/ccm.c:255-290 | the loop handles the whole message, a short last block included |
| Ccm.AuthCrypt | external_libs/mbedtls/library/ccm.c:137-302 | parameters outside the limits are refused with the output untouched; otherwise ciphertext or plaintext and the tag of RFC 3610 |
| Ccm.EncryptAndTag | external_libs/mbedtls/library/ccm.c:307-315 | ciphertext and tag of the message, or an error |
| Ccm.AuthDecrypt | external_libs/mbedtls/library/ccm.c:320-349 | the message exactly when the tag is its tag; otherwise the output is wiped and authentication fails |
| Ccm.OpenSeal | external_libs/mbedtls/library/ccm.c:307-349 | opening a sealed message gives the message |
| Ccm.OpenOnlySealed | external_libs/mbedtls/library/ccm.c:320-349 | only sealed messages can be opened |
| Ccm.SealStandard | external_libs/mbedtls/library/ccm.c:137-302 | sections 2.2 to 2.4 of RFC 3610: message byte i is keyed by counter 1 + i/16, and the tag is the head of the CBC-MAC of first block, additional data and message, keyed by counter 0 |
| DerSpec.GetLenExact | external_libs/mbedtls/library/asn1parse.c:54-110 | the parser accepts exactly the definite length forms of up to four bytes whose content is present |
| DerSpec.LenRoundTrip | external_libs/mbedtls/library/asn1write.c:42-100 | every length below 2^32 is read back, consuming just its bytes |
| DerSpec.LenBytesShortest | external_libs/mbedtls/library/asn1write.c:42-100 | no definite form of the same length is shorter, as DER asks |
| DerSpec.TlvRoundTrip | external_libs/mbedtls/library/asn1parse.c:112-125 | a written element is read back with the same content and nothing more consumed |
| DerSpec.TlvPrefixFree | external_libs/mbedtls/library/asn1parse.c:112-125 | the encoding of an element is never a prefix of another |
| DerSpec.MpiRoundTrip | external_libs/mbedtls/library/asn1write.c:128-162 | a written integer is read back as its magnitude |
| DerSpec.MpiSignExact | external_libs/mbedtls/library/asn1parse.c:171-186 | the number read back is the number written if and only if that was not negative |
| DerSpec.IntContentExact | external_libs/mbedtls/library/asn1write.c:128-162 | for every sign: the contents are the two's complement of section 8.3 of X.690, minimal, if and only if the number is positive, or zero with the top bit of the byte behind set, or the negative of a power of two whose bits fill whole bytes |
| DerSpec.SmallRoundTripExact | external_libs/mbedtls/library/asn1write.c:230-258 | write_int is read back by get_int if and only if the value lies in 0..255 |
| DerSpec.BitsRoundTrip | external_libs/mbedtls/library/asn1parse.c:189-217 | a bit string comes back with its bytes and unused bits, 0 to 7 of them |
| DerSpec.AlgRoundTrip | external_libs/mbedtls/library/asn1parse.c:291-333 | an algorithm identifier comes back with its object identifier and parameters |
| DerSpec.AlgNullRoundTrip | external_libs/mbedtls/library/asn1parse.c:335-351 | with NULL parameters it passes the stricter reader |
| DerSpec.SequenceRoundTrip | external_libs/mbedtls/library/asn1parse.c:241-289 | a sequence of elements of one tag comes back element by element |
| DerSpec.BoolRoundTrip | external_libs/mbedtls/library/asn1parse.c:127-144 | booleans come back |
| DerSpec.BoolExact | external_libs/mbedtls/library/asn1parse.c:127-144 | get_bool accepts exactly the BOOLEAN elements with one byte of contents, false being zero |
| DerSpec.IntExact | external_libs/mbedtls/library/asn1parse.c:146-168 | get_int accepts exactly the INTEGER elements of one to four bytes with a clear top bit |
| DerSpec.MpiExact | external_libs/mbedtls/library/asn1parse.c:171-186 | get_mpi accepts exactly the INTEGER elements and takes the contents for an unsigned number |
| DerSpec.BitsExact | external_libs/mbedtls/library/asn1parse.c:189-217 | get_bitstring accepts exactly the BIT STRING elements that fill the data and start with at most seven unused bits |
| DerSpec.AlgExact | external_libs/mbedtls/library/asn1parse.c:291-333 | get_alg accepts exactly the sequences of an object identifier and at most one element more |
| DerSpec.AlgNullExact | external_libs/mbedtls/library/asn1parse.c:335-351 | get_alg_null accepts of those exactly the ones whose parameters are absent, NULL, or an empty element of tag zero |
| DerSpec.SequenceExact | external_libs/mbedtls/library/asn1parse.c:241-289 | get_sequence_of accepts exactly the sequences that fill the data and hold nothing but elements of the tag |
| DerSpec.RsaEncryption | external_libs/mbedtls/library/asn1write.c:192-211 | the algorithm identifier of rsaEncryption, byte for byte |
| DerSpec.SmallElements | external_libs/mbedtls/library/asn1write.c:42-258 | small elements of five types and a length in the long form, byte for byte |
| DerWriter.Writer.WriteLen | external_libs/mbedtls/library/asn1write.c:42-100 | the length octets in front of the position, or an error when there is no room or the length does not fit four bytes |
| DerWriter.Writer.WriteTag | external_libs/mbedtls/library/asn1write.c:102-110 | one byte in front, or an error |
| DerWriter.Writer.WriteRaw | external_libs/mbedtls/library/asn1write.c:112-125 | the bytes in front, or an error and no change |
| DerWriter.Writer.WriteMpi | external_libs/mbedtls/library/asn1write.c:128-162 | the INTEGER in front and everything else unchanged, or an error exactly when there is no room for all of it |
| DerWriter.Writer.WriteNull | external_libs/mbedtls/library/asn1write.c:165-176 | the NULL element in front |
| DerWriter.Writer.WriteString | external_libs/mbedtls/library/asn1write.c:178-288 | an element of the given tag around the bytes: object identifiers, printable and IA5 strings |
| DerWriter.Writer.WriteOctetString | external_libs/mbedtls/library/asn1write.c:317-329 | the OCTET STRING around the bytes |
| DerWriter.Writer.WriteAlgorithm | external_libs/mbedtls/library/asn1write.c:192-211 | the SEQUENCE around the object identifier and NULL or the parameters already in place |
| DerWriter.Writer.WriteBool | external_libs/mbedtls/library/asn1write.c:213-228 | the BOOLEAN element in front |
| DerWriter.Writer.WriteInt | external_libs/mbedtls/library/asn1write.c:230-258 | the INTEGER around the lowest byte of the value |
| DerWriter.Writer.WriteBitString | external_libs/mbedtls/library/asn1write.c:290-315 | the BIT STRING with its count of unused bits |
| DerWriter.WroteBoth | external_libs/mbedtls/library/asn1write.c:178-190 | two successful or failing calls in a row amount to one call with the later bytes in front |
| DerReader.Reader.GetLen | external_libs/mbedtls/library/asn1parse.c:54-110 | what a definite length form gives, or the matching error |
| DerReader.Reader.GetTag | external_libs/mbedtls/library/asn1parse.c:112-125 | tag and length, or the matching error, with the position behind them |
| DerReader.Reader.GetBool | external_libs/mbedtls/library/asn1parse.c:127-144 | the boolean of a one-byte content |
| DerReader.Reader.GetInt | external_libs/mbedtls/library/asn1parse.c:146-168 | the number of a one to four byte content with clear top bit |
| DerReader.Reader.GetMpi | external_libs/mbedtls/library/asn1parse.c:171-186 | X becomes the unsigned number of the content |
| DerReader.Reader.GetBitString | external_libs/mbedtls/library/asn1parse.c:189-217 | unused bits and bytes of a bit string that ends the data |
| DerReader.Reader.GetBitStringNull | external_libs/mbedtls/library/asn1parse.c:222-234 | a bit string of at least one byte without unused bits, positioned at its content |
| DerReader.Reader.GetSequence | external_libs/mbedtls/library/asn1parse.c:241-289 | a linked list, freshly allocated behind the given first entry, that holds the elements in order and ends in null |
| DerReader.Reader.GetAlg | external_libs/mbedtls/library/asn1parse.c:291-333 | object identifier, parameter tag and parameters, absent parameters included |
| DerReader.Reader.GetAlgNull | external_libs/mbedtls/library/asn1parse.c:335-351 | the same with parameters absent or an empty NULL |
| Base64.EncMap | sdk_src/utils/utils_base64.c:25-28 | the encoding table is the alphabet of RFC 4648 |
| Base64.DecMap | sdk_src/utils/utils_base64.c:30-36 | the decoding table is its inverse, with 64 for padding and 127 for the rest |
| Base64.LetterInAlphabet | sdk_src/utils/utils_base64.c:25-28 | the alphabet as characters |
| Base64.SpecialCharacters | sdk_src/utils/utils_base64.c:107-138 | blanks are space, carriage return and line feed, padding is the equals sign |
| Base64.PublishedVectors | sdk_src/utils/utils_base64.c:40-97 | the encodings of "f", "fo" and "foo" in section 10 of RFC 4648 |
| Base64.Encode | sdk_src/utils/utils_base64.c:40-97 | the encoding and a final zero, or an error with the size needed |
| Base64.DecodedEncoded | sdk_src/utils/utils_base64.c:40-174 | decoding undoes encoding for every byte string |
| Base64.EncodedAccepted | sdk_src/utils/utils_base64.c:99-174 | the first pass accepts every encoding and drops nothing of it |
| Base64.FirstPass | sdk_src/utils/utils_base64.c:105-138 | accepts exactly the texts whose spaces and line breaks are well placed and whose other characters are letters followed by at most two paddings |
| Base64.BodyExact | sdk_src/utils/utils_base64.c:124-137 | what is left without blanks is accepted if and only if it is letters with at most two padding characters behind them |
| Base64.SpaceInside | sdk_src/utils/utils_base64.c:107-126 | a space with anything but a blank behind it is refused, wherever it stands |
| Base64.LoneReturn | sdk_src/utils/utils_base64.c:118-132 | and so is a carriage return without its line feed |
| Base64.WithinPrediction | sdk_src/utils/utils_base64.c:145-146 | the second pass never writes more bytes than the first computed, and exactly that many if and only if only padding is left over behind the whole groups |
| Base64.CanonicalExact | sdk_src/utils/utils_base64.c:99-174 | encoding the decoded bytes gives the kept text back if and only if it consists of whole groups whose unused bits are zero |
| Base64.SecondPass | sdk_src/utils/utils_base64.c:153-169 | the decoded groups of the kept characters, written within the destination |
| Base64.Decode | sdk_src/utils/utils_base64.c:99-174 | error, required size or decoded bytes, for every input |
| Base64.LineBreaksIgnored | sdk_src/utils/utils_base64.c:118-122 | line breaks may be added anywhere but inside a line break without changing acceptance or output |
| Base64.SpacesIgnored | sdk_src/utils/utils_base64.c:107-116 | spaces may be added before a line break, before other spaces and at the end, with the same effect: none |
| Base64.CharFacts | sdk_src/utils/utils_base64.c:157-168 | the 32-bit accumulator, never reset and wrapping, holds each group in its low 24 bits |
| Calendar.DateUnique | sdk_src/utils/utils_timer.c:24-66 | a day number belongs to one valid Gregorian date only |
| Calendar.DateExists | sdk_src/utils/utils_timer.c:24-66 | and every day number has one |
| Calendar.Divisions | sdk_src/utils/utils_timer.c:36-45 | what the divisions by 1461, 366 and 365 find: the year and the day in it, every fourth year leaping |
| Calendar.MonthOf | sdk_src/utils/utils_timer.c:55-61 | the month loop stops within the table at the month and day, and leaves a day before the first alone |
| Calendar.DateOfDay | sdk_src/utils/utils_timer.c:34-63 | the date is the Gregorian date of the day number if and only if the day is neither negative nor behind February 2100, division rounding toward zero as in C |
| Calendar.FirstWrong | sdk_src/utils/utils_timer.c:34-63 | the first wrong day is 1 March 2100 |
| Calendar.ZoneMinutesExact | sdk_src/utils/utils_timer.c:30-30 | the wrap-around of a negative zone cancels when the local time is not before 1970 |
| Calendar.BeforeEpoch | sdk_src/utils/utils_timer.c:28-34 | with a size_t of 32 or of 64 bits, every local time before 1970 becomes, wrapped and put in an int, a day number from 1 March 2100 on that the int additions can still take |
| Calendar.DateTime.TimestampToDate | sdk_src/utils/utils_timer.c:24-66 | for local times from 1970 on the time of day is right, and the date is right if and only if the local day is before 1 March 2100, also where the int loses bits of the day number; an earlier local time gets a day number behind that date and a year from 1970 on |
| DList.List.RPush | sdk_src/utils/utils_list.c:67-85 | the node goes behind the last one; null is refused |
| DList.List.RPop | sdk_src/utils/utils_list.c:90-107 | the last node comes off unlinked, null for the empty list |
| DList.List.LPop | sdk_src/utils/utils_list.c:112-129 | the first node comes off unlinked, null for the empty list |
| DList.List.LPush | sdk_src/utils/utils_list.c:134-152 | the node goes before the first one; null is refused |
| DList.List.Find | sdk_src/utils/utils_list.c:157-183 | the first node whose value matches, null exactly when none does |
| DList.MatchOrder | sdk_src/utils/utils_list.c:157-183 | the match function of the list gets the value sought first and the value held second |
| DList.List.At | sdk_src/utils/utils_list.c:188-214 | index i counts from the head, index ~i from the tail, null outside the list |
| DList.List.Remove | sdk_src/utils/utils_list.c:219-232 | the node is gone from the sequence and both chains are whole again |
| DList.Iterator.Next | sdk_src/utils/utils_list.c:261-268 | the next node of the walk in the direction of the iterator, null at the end |
| DList.WalksMirror | sdk_src/utils/utils_list.c:67-152 | in a valid list the prev links from the tail lead through the nodes the next links from the head lead through, in reverse, and both chains end after len nodes |
| DList.RemoveVisited | sdk_src/utils/utils_list.c:219-268 | removing the node last handed out leaves the iterator on the node it would have handed out next |
| DList.Sweep | sdk_src/utils/utils_list.c:219-268 | a walk that removes any of its nodes as it goes visits every node exactly once and leaves exactly the others, in order, from either end |
| DList.KeptExact | sdk_src/utils/utils_list.c:219-268 | what a sweep leaves are exactly the nodes not to be dropped, each once |

## Left out

- Allocation failure and the limb limit MBEDTLS_MPI_MAX_LIMBS: `MpiCore.Grow` always succeeds, so MBEDTLS_ERR_MPI_ALLOC_FAILED does not occur.
- Overflow of size_t in lengths and bit counts, among them the check of `read_string` against a quarter of the address space and the one of the Base64 encoder.
- Limb buffers are sequence fields of the number, replaced limb by limb: two numbers sharing one buffer are modelled only where the C code shares it, in the cached R^2 of the exponentiation.
- MpiMul.MulHlp: does not model the copies of its step unrolled by sixteen and eight; they are one loop here. The assembly variants of the step in `bn_mul.h` are not modelled, only the C ones.
- MpiShift.ShiftL: bitwise or of disjoint bits is written as addition, here and in the right shift, the exponent window and the text and binary readers, with the disjointness proved.
- ModInverse.InvMod: requires N other than 1, where the code does not leave its loop (`ModInverse.LoopLeavesExact`) or, A having no limb buffer, reads `TU.p[0]` through a null pointer in front of it.
- MpiMod.ModMpi: requires that R is not a positive B, where no number is ever returned (`MpiMod.RangeLeavesExact`): the last loop goes on for ever, or, the remainder being negative, the one before it goes on up to the limb limit, which is not modelled, and then reports MBEDTLS_ERR_MPI_ALLOC_FAILED.
- WordDiv.DivHalf: for a divisor that needs no shift the code shifts a limb by its full width, which C leaves undefined, and masks the result to zero; the model has zero.
- Montgomery.MontMul: T has either fewer than n + 1 limbs, which is refused, or at least 2n + 2, which every caller supplies; the sizes between would write behind the buffer.
- Montgomery.MontRed: the same requirement on T.
- ModExp.ExpMod: requires that a cache handed in holds R^2 for the same N or is empty, and is none of the other arguments; that X is neither N nor E, which the code goes on reading after it has written X; and that A and N have at least one limb, a number without a buffer being read through a null pointer.
- ModExp.ExpModOdd: the same requirements.
- MpiMod.ModInt: requires a non-empty buffer for modulus 2, where the code reads the lowest limb.
- RadixIO.WriteString: promises its text for buffers that hold it; between the size it asks for and the size needed (`RadixIO.EstimateExact`) the code writes one byte too many. Radix 2 needs a non-empty buffer, as `mod_int` does.
- Constant-time behaviour and zeroisation, `mbedtls_mpi_safe_cond_assign` and `_swap`, `mbedtls_mpi_get_bit` and `_set_bit`, shrinking and swapping.
- Prime generation, Miller-Rabin and random numbers: their guarantees are probabilistic.
- File input and output of numbers, most vectors of the self tests, hardware and assembly implementations.
- Hash.Context.Process: the block function is a field of the algorithm; `Sha1.Process` and `Md5.Process` prove that the code's block functions are that field, state and schedule being passed as values.
- Hmac.HmacRaw: null arguments and negative lengths are not modelled.
- AES tables compiled in as constants (UTILS_AES_ROM_TABLES): the generated ones are modelled; of the compiled-in ones, boxes and round constants are compared with them (`SBoxFigures.GeneratedBoxes`), the eight tables of words are not. The 32-bit packing of a column is not modelled.
- Modes.AesCbc: requires the input buffer to extend over the padding, which the code reads; the block cipher is a parameter in place of the key, whose size check is kept.
- The mbedtls copy of the AES tables and block functions: the same construction as the one modelled.
- Ccm.AuthCrypt: the block cipher cannot fail, so errors of the cipher layer do not occur; nonce and additional data are values.
- DerWriter.Writer.WriteMpi: for zero it requires a byte behind the position, which the code reads.
- DerWriter.Writer.WriteBitString: takes exactly the bytes of the bit string.
- DER lengths on a buffer of 2^31 bytes or more, where the int results would overflow; named data lists.
- DerReader.Reader.GetSequence: entries record their content as bytes in place of a pointer and a length.
- Base64.Decode: source and destination are different buffers; the size reported with an error of the first pass is not specified, as the code leaves it alone.
- Calendar.DateTime.TimestampToDate: requires the day number, once in an int, to be at most 2^31 - 367, where the additions to it do not overflow; every timestamp of a 32-bit size_t and every local time before 1970 qualifies. The conversion to int, which C leaves to the implementation, is modelled as keeping the low 32 bits.
- DList.List.RPush: requires a node that is in no list and fewer than 2^32 - 1 nodes; the `free` callback, memory release and failed allocation are not modelled, and `list_destroy` is left out.
- MQTT, CoAP, shadow, gateway and update logic, JSON scanning, ring buffer, string helpers, option parsing, ARC4, Blowfish, and the second Base64 codec of mbedtls: I/O, or easier than what is here.
