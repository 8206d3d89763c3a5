# Verified models of mwnet_mt

Dafny models of the algorithmic core of the mwnet_mt library: its multi-precision integers and
elliptic-curve scalar multiplication, its streaming ciphers, its queues and asynchronous log, its Base64
codec and its calendar. Each model follows the code branch by branch and is proved against a definition
that does not mention the algorithm. `dafny verify dfyconfig.toml` checks everything.

How the pieces fit together:

- `Arith`, `Bits`, `Limbs`, `Congruence`, `Divisors` hold the mathematics: products and quotients, bitwise
  operators on naturals, limb sequences and the number they denote (`Val`), residues, divisibility.
- `Mpis` is the class `Mpi`: a sign and a sequence of 64-bit limbs that the methods overwrite, with
  `Value()` the number it stands for. `MpiMul`, `MpiShift`, `WordDivision`, `Division`, `Modulo`,
  `Montgomery`, `ExpMod`, `GcdInverse` and `RadixString` are bignum.c on top of it, down to carries,
  quotient digits, the Montgomery window and the exponent state machine.
- `CombRecoding`, `PointGroup`, `CombTable`, `CombMul`, `CombOrder` are the comb multiplication of ecp.c over
  an arbitrary abelian group: recoding, group laws and orders, the table and its two normalisations, the
  multiplication, and when it succeeds. `BatchNormalise` is the single-inversion normalisation.
- `Chunks`, `NistReduction`, `WordFolding`, `NistPrimes`, `SpecialPrimes`, `FieldReduction` are the fast
  reductions of ecp_curves.c. The ADD/SUB/NEXT/LAST macro sequences of p224, p256 and p384 are data (a list
  of columns), run by one in-place engine; that they keep the residue follows because their columns are the
  remainder of a long division, whose quotient is given.
- `ByteStrings`, `Sequences`, `Padding`, `Cbc`, `CbcStream`, `Cmac`, `Ccm` are the modes over an abstract block cipher
  `enc` with left inverse `dec`. Each mode is defined twice: recursively, for the proofs about chunking and
  round trips, and block by block or byte by byte after its standard (`Cbc.IsCbc`, `CbcStream.Specified`,
  `Cmac.IsMac`, `Ccm.IsFormat`, `Ccm.IsTag`); the two are shown to agree.
- `BlockingQueue` is BoundedBlockingQueue and the queue of ThreadPool as one state machine; `AsyncLog` and
  `FixedBuffers` are the double-buffered log. A step is one region under the mutex, condition variables are
  sets of sleeping and woken threads, and the theorems quantify over every interleaving.
- `Base64` and `Calendar` are base64.c, Date.cc and the UTC half of TimeZone.cc.

Where a property the code seems to promise is false, the model keeps the code and states exactly when it
holds:

- `mbedtls_mpi_gcd(A, 0)` answers 0 for a nonzero A (`GcdInverse.Gcd`).
- `mbedtls_mpi_exp_mod` answers N instead of 0 for a negative base, an odd exponent and N dividing the power
  (`ExpMod.ExpResultExact`, with `(-3)^1 mod 3` as the example); it cannot for a base coprime to N > 1, and
  for a prime N it does exactly when N divides the base.
- The comb multiplication "should never" meet the neutral point, says ecp.c. For a point of exact odd order N
  success always means m*P (`CombOrder.ExactOrderResult`), and if the teeth are further apart than there are
  teeth nothing neutral turns up and it does succeed (`CombOrder.MulExactOrder`); this covers every prime order
  of at least 50 bits (`CombOrder.MulOnCurve`). In general the call is refused when a table of more than two
  slots has a neutral entry: at order 17 for every scalar (`CombOrder.Order17Refused`). A neutral entry in a
  table of two slots goes unnoticed: it is read as the point (1, 1) that `mbedtls_ecp_set_zero` leaves in X and
  Y. At N = 15, a point of order 5 and the scalar 9 that gives a wrong point with status 0 when (1, 1) is on the
  curve, that is, when A + B = 0 mod p, and has order 15 (`CombOrder.Order15Wrong`, with such a group in
  `CombOrder.Order15Group`); y^2 = x^3 + 2x + 9 over the field of 11 elements is such a curve, with P = (4, 2)
  among the points of order 5. And if the accumulator passes through the neutral point, it stays there
  (`CombMul.HornerIsMul`).
- A queue of capacity zero puts everybody to sleep (`BlockingQueue.StuckIffNoCapacity`).
- The calendar conversions invert each other exactly from 1 March -4800 on (`Calendar.DateRoundTrip`,
  `Calendar.NumberRoundTrip`); 29 February -4800 shares its number with the next day, and the day
  of the year is one too small in that year (`Calendar.UtcYearDay`).
- A log line at least as long as a buffer is silently never stored (`AsyncLog.AppendAccounts`).

Where comments and code disagree, the model follows the code: `fix_negative` works with 2^bits although its
comment says 2^(bits+32); the R of secp192k1 is 0x1000011C9, as its bytes say, although the comment says
0x0100001119; the scratch number of `mpi_montmul` needs 2n+2 limbs although the code only checks for n+1
(every caller provides enough).

Preconditions the code really has are kept in the contracts: `div_mpi` reads the operands' signs after
storing Q, so Q may replace A or B only if that operand is not negative; `mod_int` needs a divisor of at most
half a limb; `exp_mod` needs an allocated base and an X other than E and N; `write_string` needs an allocated
number; the comb needs N*P to be the neutral point, with N odd for anything but a refusal.

## Model

| member | source | states |
|---|---|---|
| `Mpis.Mpi.Grow` | mwnet_mt/crypto/bignum.c:119-144 | growing adds zero limbs on top: value and old limbs are kept |
| `Mpis.Mpi.Copy` | mwnet_mt/crypto/bignum.c:185-220 | the copy has the same magnitude and sign, also onto itself and from an unallocated number |
| `Mpis.Mpi.Lset` | mwnet_mt/crypto/bignum.c:301-314 | the number becomes exactly z, all higher limbs zero |
| `Mpis.Mpi.CmpAbs` | mwnet_mt/crypto/bignum.c:823-848 | the sign of the difference of the magnitudes, whatever leading zero limbs either side has |
| `Mpis.Mpi.CmpMpi` | mwnet_mt/crypto/bignum.c:853-881 | the sign of the difference of the signed values; the two zeros are equal |
| `Mpis.Mpi.CmpInt` | mwnet_mt/crypto/bignum.c:886-897 | comparison with a machine integer by value |
| `Mpis.Mpi.AddAbs` | mwnet_mt/crypto/bignum.c:902-953 | the limb loop and carry run give the sum of the magnitudes, with X allowed to be A, B or both |
| `Mpis.Mpi.SubHlp` | mwnet_mt/crypto/bignum.c:958-974 | the borrow loops subtract n limbs in place without losing a borrow above them |
| `Mpis.Mpi.SubAbs` | mwnet_mt/crypto/bignum.c:979-1017 | succeeds exactly when the first magnitude is at least the second, and then is the difference; X may be either operand |
| `Mpis.Mpi.AddMpi` | mwnet_mt/crypto/bignum.c:1022-1048 | signed addition for all four sign pairs and all aliasings, sign of zero included when the signs agree |
| `Mpis.Mpi.SubMpi` | mwnet_mt/crypto/bignum.c:1053-1079 | signed subtraction for all sign pairs and all aliasings |
| `Mpis.Mpi.AddInt` | mwnet_mt/crypto/bignum.c:1084-1095 | adds a machine integer to the signed value |
| `Mpis.Mpi.SubInt` | mwnet_mt/crypto/bignum.c:1100-1111 | subtracts a machine integer; a negative zero stays negative, which reading a text relies on |
| `MpiMul.MulHlp` | mwnet_mt/crypto/bignum.c:1124-1183 | d += s * b over a limb window, the final carry rippling upwards, as one equation on values |
| `MpiMul.MulMpi` | mwnet_mt/crypto/bignum.c:1188-1220 | the signed product, X allowed to be either factor |
| `MpiMul.MulInt` | mwnet_mt/crypto/bignum.c:1225-1236 | the product with one limb |
| `MpiShift.Clz` | mwnet_mt/crypto/bignum.c:373-386 | the bit length of a limb from its leading zeros |
| `MpiShift.BitLen` | mwnet_mt/crypto/bignum.c:391-405 | the bit length as defined by repeated halving |
| `MpiShift.GetBit` | mwnet_mt/crypto/bignum.c:319-325 | bit pos of the value, zero beyond the top limb |
| `MpiShift.ShiftL` | mwnet_mt/crypto/bignum.c:730-775 | multiplication by 2^count, and the exact number of limbs afterwards |
| `MpiShift.ShiftR` | mwnet_mt/crypto/bignum.c:780-818 | floor division of the magnitude by 2^count, also when everything is shifted out |
| `WordDivision.IntDivInt` | mwnet_mt/crypto/bignum.c:1242-1332 | the half-word long division returns the exact quotient and remainder of a double word, and all ones on overflow or zero |
| `Division.AtMostOneTooLarge` | mwnet_mt/crypto/bignum.c:1395-1424 | a digit that passes the two-limb test is at most one too large, so a single add-back suffices |
| `Division.CorrectDigit` | mwnet_mt/crypto/bignum.c:1395-1410 | the correction loop stops at a digit that is never below the true one and passes the two-limb test |
| `Division.DivStep` | mwnet_mt/crypto/bignum.c:1385-1424 | one digit: Z*Y + X is unchanged and X drops below Y times the next weight |
| `Division.TruncDivision` | mwnet_mt/crypto/bignum.c:1337-1447 | quotient and remainder satisfy A = Q*B + R, |R| < |B|, and R takes the sign of A |
| `Division.DivMpi` | mwnet_mt/crypto/bignum.c:1337-1447 | for every A and nonzero B, Q and R are the truncated quotient and remainder; zero is refused and changes nothing |
| `Modulo.DivInt` | mwnet_mt/crypto/bignum.c:1452-1463 | truncated division by a machine integer |
| `Modulo.ModMpi` | mwnet_mt/crypto/bignum.c:1468-1486 | the residue in [0, B); negative and zero moduli are refused |
| `Modulo.ModInt` | mwnet_mt/crypto/bignum.c:1491-1543 | the residue of the signed value for every divisor up to half a limb, with the special cases 1 and 2 |
| `Montgomery.MontgInit` | mwnet_mt/crypto/bignum.c:1548-1560 | Hensel lifting from a 4-bit seed: N[0] * mm = -1 modulo the limb base |
| `Montgomery.MontMul` | mwnet_mt/crypto/bignum.c:1565-1603 | A*B/R mod N below N: the rounds stay below 2N within the window and one conditional subtraction finishes |
| `Montgomery.FinalSubtraction` | mwnet_mt/crypto/bignum.c:1594-1600 | the subtraction happens exactly when the value is at least N; the other branch touches scratch only |
| `Montgomery.MontRed` | mwnet_mt/crypto/bignum.c:1608-1617 | A/R mod N |
| `ExpMod.WindowAdd` | mwnet_mt/crypto/bignum.c:1763-1769 | adding a bit keeps "exponent read so far = e * 2^nbits + window"; a window always starts with a one |
| `ExpMod.BuildTable` | mwnet_mt/crypto/bignum.c:1701-1723 | entries 2^(wsize-1) to 2^wsize - 1 hold their powers in Montgomery form |
| `ExpMod.ExpBits` | mwnet_mt/crypto/bignum.c:1726-1801 | the state machine over all exponent bits, tail included, ends with the full power; every entry it looks up was filled |
| `ExpMod.ExpTail` | mwnet_mt/crypto/bignum.c:1790-1801 | the left-over bits of an unfinished window are worked off one by one |
| `ExpMod.PrepareRR` | mwnet_mt/crypto/bignum.c:1670-1684 | R^2 mod N, computed or taken from a valid cache, which is then valid for the next call |
| `ExpMod.ExpMod` | mwnet_mt/crypto/bignum.c:1622-1825 | refuses exactly even or non-positive N and negative E; otherwise the result is the specified power |
| `ExpMod.ExpResultExact` | mwnet_mt/crypto/bignum.c:1808-1812 | the result is A^E mod N in [0, N) if and only if not (A has the negative sign, E is odd and N divides A^E) |
| `ExpMod.ExpResultOutOfRange` | mwnet_mt/crypto/bignum.c:1808-1812 | a concrete failing input: (-3)^1 mod 3 is answered with 3 |
| `ExpMod.FailsOnMultiples` | mwnet_mt/crypto/bignum.c:1808-1812 | for a base with the negative sign that N divides and an odd exponent the answer is N |
| `ExpMod.ExactOnCoprime` | mwnet_mt/crypto/bignum.c:1808-1812 | for a base coprime to N > 1 the answer is always the residue |
| `ExpMod.ExactForPrime` | mwnet_mt/crypto/bignum.c:1808-1812 | for a prime N the answer is the residue if and only if not (negative sign, odd exponent and N divides the base) |
| `GcdInverse.Lsb` | mwnet_mt/crypto/bignum.c:358-368 | the number of trailing zero bits, zero for zero |
| `GcdInverse.GcdLoop` | mwnet_mt/crypto/bignum.c:1850-1867 | the binary loop ends and leaves the true gcd of its arguments |
| `GcdInverse.Gcd` | mwnet_mt/crypto/bignum.c:1830-1877 | the result is the gcd by its universal property if and only if B is nonzero or both are zero; gcd(A, 0) is answered with 0 |
| `GcdInverse.MakeOdd` | mwnet_mt/crypto/bignum.c:1939-1951 | every halving is exact and keeps U1*TA + U2*TB = TU |
| `GcdInverse.InvLoop` | mwnet_mt/crypto/bignum.c:1937-1980 | the loop ends with TV = 1 and the identity V1*TA + V2*TB = 1 |
| `GcdInverse.InvMod` | mwnet_mt/crypto/bignum.c:1907-1997 | succeeds exactly when N > 1 and A is coprime to N, and then X is the inverse in [1, N); otherwise X is untouched |
| `RadixString.WriteHlp` | mwnet_mt/crypto/bignum.c:507-529 | the recursion ends and writes the shortest digit string, most significant first (its characters: DigitTable) |
| `RadixString.WriteHex` | mwnet_mt/crypto/bignum.c:567-586 | whole bytes from the top limb, leading zero bytes skipped, one byte for zero |
| `RadixString.WriteString` | mwnet_mt/crypto/bignum.c:534-605 | sign, digits as in TextIs and terminator; every write is inside the buffer whenever its length meets the estimate |
| `RadixString.EstimateCovers` | mwnet_mt/crypto/bignum.c:545-559 | the length estimate from the bit length always covers sign, digits and terminator |
| `RadixString.ReadHex` | mwnet_mt/crypto/bignum.c:449-470 | nibbles placed from the right give the value of the text; fails exactly on a non-digit |
| `RadixString.ReadString` | mwnet_mt/crypto/bignum.c:435-502 | succeeds exactly on radix 2 to 16 and digits of that radix after an optional sign; the value is the number the text denotes, digits as in DigitTable |
| `RadixString.TextRoundTrip` | mwnet_mt/crypto/bignum.c:435-605 | reading what was written returns the value, in every radix, for either sign of zero |
| `RadixString.DigitTable` | mwnet_mt/crypto/bignum.c:418-433 | digit d is written as character d of 0123456789ABCDEF, and that one and its lower-case form are read as d |
| `RadixString.NoOtherDigit` | mwnet_mt/crypto/bignum.c:418-433 | every other character is refused |
| `RadixString.TextIs` | mwnet_mt/crypto/bignum.c:507-605 | what is written: upper-case digits whose positional value is the number, no leading zero, in radix 16 whole bytes and no leading zero byte |
| `RadixString.SignedParseIs` | mwnet_mt/crypto/bignum.c:435-502 | a minus sign in front, and only there, makes the number negative; it is written for the negative sign only |
| `CombRecoding.CombAdd` | mwnet_mt/crypto/ecp.c:1206-1219 | the xor/and full adder acts on all teeth of a digit at once |
| `CombRecoding.CarryAvoidsDigit` | mwnet_mt/crypto/ecp.c:1206-1219 | carry and digit never share a tooth (carry & x[i] = 0) |
| `CombRecoding.CombFixed` | mwnet_mt/crypto/ecp.c:1193-1221 | every digit comes out odd and has no more teeth than the scalar needs, the signed comb sum is exactly m, and every partial sum from the top digit down lies in [1, m] |
| `PointGroup.MulComplement` | mwnet_mt/crypto/ecp.c:1430-1449 | m*P = -((N-m)*P) when N*P is neutral |
| `PointGroup.OddOrderDouble` | mwnet_mt/crypto/ecp.c:1316-1347 | doubling a multiple of a point of odd order does not reach the neutral point from elsewhere |
| `PointGroup.PrimeOrder` | mwnet_mt/crypto/ecp.c:1316-1347 | in a group of prime order every other point than the neutral one has that order |
| `CombTable.FillTable` | mwnet_mt/crypto/ecp.c:1261-1274 | in-place rounds yield every entry although slot 2^l is overwritten on the way |
| `CombTable.BuiltIsEntry` | mwnet_mt/crypto/ecp.c:1261-1274 | as long as nothing neutral was built, an entry is the comb multiple of its odd digit 2k+1 |
| `CombTable.NeutralAgrees` | mwnet_mt/crypto/ecp.c:1261-1276 | the additions build something neutral if and only if some comb multiple is neutral |
| `CombTable.NormalisableCoordinates` | mwnet_mt/crypto/ecp.c:802-884 | over a prime field the batch normalisation succeeds if and only if there is one point or none is neutral |
| `CombTable.PrecomputeComb` | mwnet_mt/crypto/ecp.c:1233-1281 | succeeds exactly when both normalisations do; slot k then holds the comb multiple of the odd digit 2k+1 |
| `CombTable.AcceptsIff` | mwnet_mt/crypto/ecp.c:1253-1276 | for N odd and N*P neutral, the build succeeds if and only if there are two slots or no slot is neutral |
| `CombMul.SelectComb` | mwnet_mt/crypto/ecp.c:1286-1309 | the signed slot for a digit, X and Y only: a neutral slot is read as some other point; every slot is read, one is kept |
| `CombMul.HornerIsMul` | mwnet_mt/crypto/ecp.c:1316-1347 | with a clean table, double-and-add is the weighted digit sum times P, unless it passes through the neutral point, where it then stays |
| `CombMul.CombCoreIsMul` | mwnet_mt/crypto/ecp.c:1316-1347 | the whole loop is the signed comb sum times P under the same condition, and every slot it looks up exists |
| `CombMul.NeverPasses` | mwnet_mt/crypto/ecp.c:1316-1347 | for a point of exact odd order no accumulator on the way is neutral |
| `CombMul.MulCombCore` | mwnet_mt/crypto/ecp.c:1316-1347 | the loop computes that Horner value |
| `CombMul.EcpGroup.TableFor` | mwnet_mt/crypto/ecp.c:1406-1428 | the cached generator table is always a valid table for the parameters in use; a new table is refused exactly when it has a neutral entry and more than two slots |
| `CombMul.EcpGroup.OddScalar` | mwnet_mt/crypto/ecp.c:1430-1437 | M is odd and is m or N - m |
| `CombMul.EcpGroup.MulComb` | mwnet_mt/crypto/ecp.c:1353-1467 | for every 1 <= m < N, every P with N*P = 0 and every cache state: refused exactly when N is even or a table of more than two slots has a neutral entry; the result is stated in every case, and is m*P for a clean table and an accumulator that stays off the neutral point |
| `CombMul.EcpGroup.EcpMul` | mwnet_mt/crypto/ecp.c:1677-1721 | the neutral point and scalars outside [1, N) are refused; otherwise as above |
| `CombOrder.CleanForExactOrder` | mwnet_mt/crypto/ecp.c:1365-1404 | for a point of exact order N and teeth further apart than there are teeth, no table entry is neutral |
| `CombOrder.WideEnough` | mwnet_mt/crypto/ecp.c:1365-1404 | the choice of w and d keeps the teeth that far apart for every order of at least 50 bits |
| `CombOrder.ExactOrderResult` | mwnet_mt/crypto/ecp.c:1353-1467 | for a point of exact odd order N and every table the build accepts, what the loop and the fix-up return is m*P: a neutral slot of a table of two is never asked for |
| `CombOrder.MulExactOrder` | mwnet_mt/crypto/ecp.c:1677-1721 | a point of exact odd order N: status 0 means m*P, and teeth further apart than there are teeth give status 0 for every 1 <= m < N |
| `CombOrder.MulOnCurve` | mwnet_mt/crypto/ecp.c:1677-1721 | prime order of at least 50 bits: every point but the neutral one and every 1 <= m < N give m*P |
| `CombOrder.Order17Refused` | mwnet_mt/crypto/ecp.c:1233-1281 | order 17: slot 2 stands for 17*P, so the table build fails |
| `CombOrder.Order15Wrong` | mwnet_mt/crypto/ecp.c:1286-1347 | N = 15, a point of order 5 and a group element of order 15 at (1, 1): the table is accepted and the answer for m = 9 is not 9*P |
| `CombOrder.Order15Group` | mwnet_mt/crypto/ecp.c:393-403 | a group with such elements: the multiples of (1, 1), P being the third |
| `BatchNormalise.NormalizeJac` | mwnet_mt/crypto/ecp.c:750-789 | X/Z^2 and Y/Z^3 for an invertible Z, nothing for Z = 0, an error otherwise |
| `BatchNormalise.PeelInverse` | mwnet_mt/crypto/ecp.c:839-852 | from u = 1/(Z_0...Z_i): the inverse of Z_i and the next u |
| `BatchNormalise.NormalizeJacMany` | mwnet_mt/crypto/ecp.c:802-884 | succeeds exactly when every Z is invertible and gives each point its affine coordinates; a failure changes nothing |
| `BatchNormalise.AffineUnique` | mwnet_mt/crypto/ecp.c:802-884 | affine coordinates are unique, so batch and single normalisation agree |
| `Divisors.CoprimeProduct` | mwnet_mt/crypto/ecp.c:824-837 | a product is invertible exactly when both factors are |
| `NistReduction.RunColumn` | mwnet_mt/crypto/ecp_curves.c:965-980 | ADD and SUB steps with a signed carry that stays a signed char |
| `NistReduction.LoadWithCarry` | mwnet_mt/crypto/ecp_curves.c:1000-1007 | the next word plus the signed carry of the column before |
| `NistReduction.RunColumns` | mwnet_mt/crypto/ecp_curves.c:984-1012 | stored words and final carry make up the linear form of the columns |
| `NistReduction.FixNegative` | mwnet_mt/crypto/ecp_curves.c:1018-1039 | a negative total becomes the negative number with that magnitude (c * 2^bits + N) |
| `NistReduction.RunProgram` | mwnet_mt/crypto/ecp_curves.c:984-1039 | N becomes the exact signed value of the program on its words, for every N of at most 2b bits |
| `WordFolding.TapsMultiply` | mwnet_mt/crypto/ecp_curves.c:1045-1145 | what the quotient words add back at every place is the product of the quotient and the low part of the prime |
| `WordFolding.DividedCong` | mwnet_mt/crypto/ecp_curves.c:1045-1145 | a remainder of the division by x^w minus those terms has the residue of the number divided |
| `WordFolding.ProgramKeepsResidue` | mwnet_mt/crypto/ecp_curves.c:1045-1145 | a program whose columns are the remainder of such a division keeps the residue of every input |
| `NistPrimes.Divided224` | mwnet_mt/crypto/ecp_curves.c:1045-1058 | the columns of p224 are the remainder of the division by p224, for every input |
| `NistPrimes.Divided256` | mwnet_mt/crypto/ecp_curves.c:1066-1095 | the columns of p256 are the remainder of the division by p256, for every input |
| `NistPrimes.Divided384` | mwnet_mt/crypto/ecp_curves.c:1103-1145 | the columns of p384 are the remainder of the division by p384, for every input |
| `NistPrimes.ModP224` | mwnet_mt/crypto/ecp_curves.c:1045-1058 | keeps the residue modulo p224 of every number of at most 448 bits |
| `NistPrimes.ModP256` | mwnet_mt/crypto/ecp_curves.c:1066-1095 | keeps the residue modulo p256 of every number of at most 512 bits |
| `NistPrimes.ModP384` | mwnet_mt/crypto/ecp_curves.c:1103-1145 | keeps the residue modulo p384 of every number of at most 768 bits |
| `SpecialPrimes.FoldPass` | mwnet_mt/crypto/ecp_curves.c:1363-1381 | replacing 2^e by c keeps the residue modulo 2^e - c and does not increase the number |
| `SpecialPrimes.ModMersenne` | mwnet_mt/crypto/ecp_curves.c:1176-1208 | p521: keeps the residue |
| `SpecialPrimes.ModFold` | mwnet_mt/crypto/ecp_curves.c:1225-1257 | p255: keeps the residue; refused exactly beyond eight limbs |
| `SpecialPrimes.ModGolden` | mwnet_mt/crypto/ecp_curves.c:1282-1328 | p448: keeps the residue; refused exactly beyond fourteen limbs |
| `SpecialPrimes.ModKoblitz` | mwnet_mt/crypto/ecp_curves.c:1343-1407 | two passes keep the residue, and the number does not grow in between |
| `FieldReduction.ModP192` | mwnet_mt/crypto/ecp_curves.c:893-911 | p192 in 64-bit columns keeps the residue |
| `FieldReduction.QuasiModp` | mwnet_mt/crypto/ecp.c:684-684 | whichever quasi-reduction a group has, success keeps the residue |
| `FieldReduction.IntoField` | mwnet_mt/crypto/ecp.c:686-692 | the two final loops end at N mod P |
| `FieldReduction.EcpModp` | mwnet_mt/crypto/ecp.c:670-696 | refuses exactly negative or too long numbers (and too many limbs for p255 and p448), otherwise leaves N mod P |
| `FieldReduction.PrimeBits` | mwnet_mt/crypto/ecp_curves.c:753-829 | the prime of each listed curve has exactly the bits its size test assumes |
| `FieldReduction.RoomForProducts` | mwnet_mt/crypto/ecp_curves.c:753-829 | the product of two field elements passes the size test and fits the reduction of its curve, for every listed curve |
| `FieldReduction.CurveModp` | mwnet_mt/crypto/ecp_curves.c:753-829 | for each curve with its own modp and its own prime, the fast reduction equals N mod P |
| `FieldReduction.CurvePrime` | mwnet_mt/crypto/ecp_curves.c:86-364 | the reduction installed for a curve serves the prime spelled out in the curve parameters, and no other number |
| `FieldReduction.GoldenPrime` | mwnet_mt/crypto/ecp_curves.c:1265-1281 | the curve448 prime meets what its reduction needs |
| `Padding.PaddedUnique` | mwnet_mt/crypto/cipher.c:469-581 | a block can be read as padded data in at most one way |
| `Padding.AddPadding` | mwnet_mt/crypto/cipher.c:469-556 | each add function writes exactly its padding behind the data |
| `Padding.GetPkcs` | mwnet_mt/crypto/cipher.c:479-502 | accepts exactly PKCS7-padded blocks and finds the data length, oversized length bytes included |
| `Padding.GetOneAndZeros` | mwnet_mt/crypto/cipher.c:520-541 | accepts exactly blocks ending in 0x80 and zeros |
| `Padding.GetZerosAndLen` | mwnet_mt/crypto/cipher.c:559-581 | accepts exactly blocks ending in zeros and their count |
| `Cbc.CryptCbc` | mwnet_mt/crypto/aes.c:928-987 | every block of the output is the enciphered xor of its input block and the cipher text block before it (deciphered first in the other direction), the initial value before the first; the chaining value left behind is the last cipher text block |
| `Cbc.CryptIsCbc` | mwnet_mt/crypto/aes.c:928-987 | the recursive definition of the mode is that, block by block, for every message of whole blocks |
| `Bits.BitwiseIs` | mwnet_mt/crypto/aes.c:949-975 | the modelled and, or, exclusive or agree with the truth tables in every bit |
| `ByteStrings.XorSeqBits` | mwnet_mt/crypto/aes.c:949-975 | a bit of the mixed block is set if and only if the two bits differ |
| `Cbc.CryptAppend` | mwnet_mt/crypto/aes.c:928-987 | a message cut at a block boundary is two CBC messages |
| `Cbc.CryptInverse` | mwnet_mt/crypto/aes.c:928-987 | CBC decryption undoes CBC encryption for every block cipher with an inverse |
| `CbcStream.CipherContext.Update` | mwnet_mt/crypto/cipher.c:306-412 | for every state and chunk: fed and output bytes are extended consistently, the held tail stays canonical |
| `CbcStream.CipherContext.Finish` | mwnet_mt/crypto/cipher.c:664-713 | outputs so far plus the final block are the one-shot result of everything fed, errors included |
| `CbcStream.CipherContext.Conservation` | mwnet_mt/crypto/cipher.c:306-412 | bytes in = bytes out + bytes held, after every update |
| `CbcStream.OneShotRoundTrip` | mwnet_mt/crypto/cipher.c:636-713 | decrypting an encryption under the same padding returns every message |
| `CbcStream.OneShotRoundTripPlain` | mwnet_mt/crypto/cipher.c:636-713 | without padding, exactly whole-block messages are accepted, and they come back |
| `CbcStream.Stream` | mwnet_mt/crypto/cipher.c:270-412 | for every way of cutting a message into updates, the result is what the byte-level specification asks of the whole message: CBC of the padded message, or the data whose padding the deciphered text is, or the right error |
| `CbcStream.OneShotIs` | mwnet_mt/crypto/cipher.c:636-713 | the one-shot definition meets that specification, in both directions and under every padding |
| `CbcStream.UnpadIs` | mwnet_mt/crypto/cipher.c:559-581 | removing a padding gives the data that is padded to this text byte by byte, and fails exactly if there is none |
| `CbcStream.StreamRoundTrip` | mwnet_mt/crypto/cipher.c:270-412 | encrypting under one chunking and decrypting under any other returns the message |
| `Cmac.MultiplyByU` | mwnet_mt/crypto/cmac.c:87-132 | the product with u modulo x^128 + x^7 + x^2 + x + 1 or x^64 + x^4 + x^3 + x + 1 on the big-endian number; other block sizes are refused |
| `Cmac.CmacContext.GenerateSubkeys` | mwnet_mt/crypto/cmac.c:140-168 | K1 and K2 are the doublings of E(0) |
| `Cmac.SubkeysUnique` | mwnet_mt/crypto/cmac.c:140-168 | the subkeys are determined by that description |
| `Cmac.CmacContext.LastBlock` | mwnet_mt/crypto/cmac.c:337-349 | a complete last block is masked with K1, an incomplete one padded and masked with K2 (pinned by MacIs) |
| `Cmac.MacIs` | mwnet_mt/crypto/cmac.c:314-373 | the MAC is the last block of the CBC encryption from zero of the message with its last block masked: K1 if it is whole, 1 0...0 and K2 if not |
| `Cmac.SubkeysAre` | mwnet_mt/crypto/cmac.c:140-168 | K1 is E(0) times u and K2 is K1 times u modulo those polynomials |
| `Cmac.CmacContext.Update` | mwnet_mt/crypto/cmac.c:246-312 | any number of bytes; a last block, whole or not, is always held back |
| `Cmac.CmacContext.Finish` | mwnet_mt/crypto/cmac.c:314-373 | the MAC of everything fed, and a context as good as new |
| `Cmac.CmacContext.Reset` | mwnet_mt/crypto/cmac.c:375-392 | the fresh state from any state |
| `Cmac.MacOfChunks` | mwnet_mt/crypto/cmac.c:246-373 | for every chunking, empty chunks and block boundaries included, the MAC of the concatenation, in the sense of MacIs and SubkeysAre |
| `Ccm.FormatPrefixFree` | mwnet_mt/crypto/ccm.c:171-234 | no formatted input is a prefix of another: injective in nonce, data, message and tag length |
| `Ccm.EncodedAadIs` | mwnet_mt/crypto/ccm.c:206-234 | two bytes that are the length, most significant first, then the data, then zeros to the next multiple of 16 |
| `Ccm.FormatIs` | mwnet_mt/crypto/ccm.c:171-234 | the formatted input field by field: flags, nonce, message length, additional data with its length, message, zeros |
| `Ccm.CounterBlockIs` | mwnet_mt/crypto/ccm.c:236-249 | a counter block is the byte 14 - |nonce|, the nonce, and the counter most significant byte first |
| `Ccm.CtrCryptIs` | mwnet_mt/crypto/ccm.c:251-292 | byte k of the text goes with byte k mod 16 of the enciphered counter 1 + k / 16 |
| `Ccm.TagIs` | mwnet_mt/crypto/ccm.c:294-304 | the tag is the start of the last CBC block of the formatted input xored with the enciphered counter 0 |
| `Ccm.CounterInjective` | mwnet_mt/crypto/ccm.c:236-249 | different counters give different counter blocks |
| `Ccm.LengthField` | mwnet_mt/crypto/ccm.c:191-195 | the length field and the overflow test on it |
| `Ccm.Increment` | mwnet_mt/crypto/ccm.c:285-291 | the byte-wise increment adds one to the counter field |
| `Ccm.CtrInverse` | mwnet_mt/crypto/ccm.c:129-134 | counter mode is its own inverse |
| `Ccm.CryptMessage` | mwnet_mt/crypto/ccm.c:251-292 | the loop is counter mode from 1 and CBC-MAC of the plain text |
| `Ccm.CountersApart` | mwnet_mt/crypto/ccm.c:236-292 | for a message that fits its length field, the counter blocks 0 (tag) to the last are pairwise different: no counter wraps or reaches 0 |
| `Ccm.AuthCrypt` | mwnet_mt/crypto/ccm.c:139-304 | refuses exactly unacceptable parameters; text and tag are those of CtrCryptIs and TagIs for both directions |
| `Ccm.EncryptAndTag` | mwnet_mt/crypto/ccm.c:309-317 | cipher text and tag of the message, in the same sense |
| `Ccm.AuthDecrypt` | mwnet_mt/crypto/ccm.c:322-351 | accepts exactly the pairs that encryption produces; a refused text is wiped |
| `Ccm.RoundTrip` | mwnet_mt/crypto/ccm.c:309-351 | decrypting what was encrypted succeeds and returns the message |
| `Base64.EncodeInto` | mwnet_mt/crypto/base64.c:77-139 | the encoding as in EncodeIs and a terminator, or the needed length if the buffer is short |
| `Base64.AlphabetIs` | mwnet_mt/crypto/base64.c:44-53 | the character for v is the v-th of the alphabet |
| `Base64.CharactersAre` | mwnet_mt/crypto/base64.c:55-70 | the decoder reads a letter as its place in the alphabet, = as the pad, and knows space, CR and LF |
| `Base64.EncodeIs` | mwnet_mt/crypto/base64.c:105-134 | character k is the letter for the k-th six bits of the data, most significant first, or = where they begin behind its end |
| `Base64.DecodeAt` | mwnet_mt/crypto/base64.c:208-225 | byte j of the decoded text is byte j mod 3 of the 24 bits of group j / 3, a pad counting as zero |
| `Base64.SixIs` | mwnet_mt/crypto/base64.c:208-225 | in the second pass a letter counts as its place in the alphabet and a pad as zero |
| `Base64.ScanShape` | mwnet_mt/crypto/base64.c:151-187 | what the first pass counts on accepted texts: all significant characters, and the pads among them |
| `Base64.AcceptedTexts` | mwnet_mt/crypto/base64.c:151-187 | accepted exactly: every CR precedes LF, every run of spaces ends its line or the text, and the other characters are alphabet characters, then at most two pads |
| `Base64.FirstPass` | mwnet_mt/crypto/base64.c:151-187 | the nested loops accept and count exactly like the reference scanner |
| `Base64.DecodeFits` | mwnet_mt/crypto/base64.c:195-225 | on every accepted input the second pass writes at most the announced length, and exactly it on whole groups |
| `Base64.SecondPass` | mwnet_mt/crypto/base64.c:208-225 | the shift-register loop decodes the significant characters, pads cutting the last group |
| `Base64.DecodeInto` | mwnet_mt/crypto/base64.c:144-228 | refuses exactly the texts described by AcceptedTexts as not accepted, and never writes past the announced length |
| `Base64.DecodeEncode` | mwnet_mt/crypto/base64.c:77-228 | decoding undoes encoding for every byte string |
| `Base64.BrokenRoundTrip` | mwnet_mt/crypto/base64.c:77-228 | the same with LF and CR LF inserted anywhere |
| `Base64.RoundTrip` | mwnet_mt/crypto/base64.c:77-228 | through the buffers, with a destination of exactly the data length |
| `BlockingQueue.StepKeeps` | mwnet_mt/base/BoundedBlockingQueue.h:28-52 | every put, take, retry, spurious wakeup, try and stop keeps the invariant |
| `BlockingQueue.RunKeeps` | mwnet_mt/base/BoundedBlockingQueue.h:28-52 | the invariant holds in every state of every interleaving |
| `BlockingQueue.SafeRun` | mwnet_mt/base/ThreadPool.cc:69-179 | bounded; the items handed to the puts that found room, in that order, are those the takes got and then those in the queue: first in first out, nothing lost; no sleeper without a waker or a reason, no worker asleep after stop |
| `BlockingQueue.LogsAre` | mwnet_mt/base/ThreadPool.cc:69-179 | in every run, what entered and what came out is determined by the actions: a put that waited enters with the item it was called with |
| `BlockingQueue.StuckIffNoCapacity` | mwnet_mt/base/BoundedBlockingQueue.h:28-52 | putters and takers can all be asleep if and only if the capacity is zero |
| `BlockingQueue.CapacityZeroSticks` | mwnet_mt/base/BoundedBlockingQueue.h:28-52 | the concrete run with capacity zero |
| `BlockingQueue.PutSleeps` | mwnet_mt/base/BoundedBlockingQueue.h:28-38 | a put that goes to sleep leaves no free place uncovered |
| `FixedBuffers.FixedBuffer.Append` | mwnet_mt/base/LogStream.h:34-42 | all of the text or none of it; a text as long as the free space does not fit |
| `FixedBuffers.FixedBuffer.Reset` | mwnet_mt/base/LogStream.h:52-52 | empties the buffer |
| `FixedBuffers.FixedBuffer.AppendLine` | mwnet_mt/base/LogStream.h:34-42 | the byte buffer refines the list of lines |
| `AsyncLog.AppendAccounts` | mwnet_mt/base/AsyncLogging.cc:31-53 | a line shorter than a buffer is queued in order; a longer one is never stored |
| `AsyncLog.SwapKeeps` | mwnet_mt/base/AsyncLogging.cc:72-86 | the swap moves queue and current buffer into the batch without losing a line |
| `AsyncLog.RecycleKeeps` | mwnet_mt/base/AsyncLogging.cc:106-128 | the recycling asserts never fail and two empty spare buffers are restored |
| `AsyncLog.OnlyDropLoses` | mwnet_mt/base/AsyncLogging.cc:89-98 | only cutting a batch of more than 25 buffers loses lines: exactly those of its buffers after the first two |
| `AsyncLog.StepKeeps` | mwnet_mt/base/AsyncLogging.cc:31-132 | every producer and consumer step keeps the invariant |
| `AsyncLog.AssertsHold` | mwnet_mt/base/AsyncLogging.cc:66-122 | all asserts of the thread function hold in every state of every interleaving |
| `AsyncLog.NothingLost` | mwnet_mt/base/AsyncLogging.cc:31-132 | while no batch exceeds 25 buffers, written, batch, queue and current buffer are the appended lines in order |
| `AsyncLog.LostIsCut` | mwnet_mt/base/AsyncLogging.cc:89-98 | in every run, the lines given up are exactly those of the buffers cut off, in order |
| `AsyncLog.RunAccounts` | mwnet_mt/base/AsyncLogging.cc:31-132 | in every state of every run: accepted lines = decided + queue + current in order, kept lines = written + to be written, lost lines = those of the cut buffers |
| `AsyncLog.WrittenInOrder` | mwnet_mt/base/AsyncLogging.cc:31-132 | in every run, the written lines are a prefix of the kept ones |
| `Calendar.JulianDayCounts` | mwnet_mt/base/Date.cc:18-25 | the closed formula counts days since 1 March -4800 by century, year and month |
| `Calendar.DateRoundTrip` | mwnet_mt/base/Date.cc:18-40 | a valid Gregorian date survives the round trip if and only if it is not before 1 March -4800 |
| `Calendar.NumberRoundTrip` | mwnet_mt/base/Date.cc:18-40 | a day number is read as a valid date that leads back to it if and only if it is at least -32044 |
| `Calendar.NextDayNumber` | mwnet_mt/base/Date.cc:18-25 | successive calendar days get successive numbers |
| `Calendar.EpochIs1970` | mwnet_mt/base/Date.cc:42-42 | the day number that UTC times count from is that of 1 January 1970 |
| `Calendar.NoDateBefore` | mwnet_mt/base/Date.cc:27-40 | below -32044 the day of the month comes out non-positive |
| `Calendar.CollidingDay` | mwnet_mt/base/Date.cc:18-25 | 29 February -4800 and 1 March -4800 get the same number |
| `Calendar.YearDay` | mwnet_mt/base/TimeZone.cc:337-341 | the distance to the first of January is the day of the year counted by months, except in the year -4800 |
| `Calendar.WeekDays` | mwnet_mt/base/Date.h:94-97 | from day -1 on, successive days have successive days of the week, and 1 January 1970 is a Thursday |
| `Calendar.WeekDayRange` | mwnet_mt/base/Date.h:94-97 | the day of the week is in [0, 7) if and only if the day number is at least -1 or the day is a Sunday |
| `Calendar.ToUtcTime` | mwnet_mt/base/TimeZone.cc:317-343 | truncated division corrected for negative times is floor division; the clock fields are in range and make up the second of the day |
| `Calendar.TimeZero` | mwnet_mt/base/TimeZone.cc:317-343 | time 0 is Thursday, 1 January of year 70, month 0 |
| `Calendar.UtcYearDay` | mwnet_mt/base/TimeZone.cc:337-341 | from 1 March -4800 on, tm_yday is the day of the year, in [0, 365) or [0, 366); in the year -4800 it is one less |
| `Calendar.UtcRoundTrip` | mwnet_mt/base/TimeZone.cc:317-358 | a time becomes a valid calendar time that leads back to it if and only if it is not before 1 March -4800 |
| `Calendar.UtcInverse` | mwnet_mt/base/TimeZone.cc:317-358 | a valid calendar time is what the time it stands for becomes |

## Left out

- Allocation failure, the limit on the number of limbs, NULL checks and the numeric error codes: results are
  stated for calls that get their memory.
- The 32-bit limb build: limbs are 64 bits wide throughout.
- Constant-time intent, zeroisation and random blinding of coordinates: not functional properties.
- The inline assembly behind MULADDC: modelled by what it computes, `s[k]*b + d[k] + c` split into limb and carry.
- Raw-memory sharing: unallocated buffers, `realloc` and pointers into stack arrays are sequences that grow; the
  shallow copy of the R^2 cache in exp_mod is a copy of its value.
- `mbedtls_mpi_swap`, `safe_cond_swap`, binary import and export, random numbers, Miller-Rabin and prime
  generation: easy members or probabilistic claims.
- Point formulas (`ecp_double_jac`, `ecp_add_mixed`, the Montgomery ladder) and curve equations: replaced by the
  laws of an abelian group.
- `mbedtls_ecp_check_pubkey`, and Z other than 0 and 1 in `mbedtls_ecp_mul`: points of the model are group
  elements, so of the check on Z only the refusal of the neutral point remains.
- CombTable.AddMixed: of the unset Z of a table point the model keeps that it reads as zero.
- CombMul.SelectComb: the X and Y of a neutral table entry are the group element `misread`; when (1, 1) is not on
  the curve, the code adds a point of another curve, and the model says nothing about the result.
- BatchNormalise.NormalizeJacMany: coordinates are residues rather than limb numbers, products are reduced with
  `%` (justified by `FieldReduction.CurveModp`), and the points are distinct objects, as in both callers.
- The size of the comb digit array for the largest curve: the array has exactly d + 1 digits here.
- Block ciphers themselves (tables, key schedules, assembly), GCM, CFB, CTR, ECB and stream modes of cipher.c, and the
  in-place restriction `input == output`.
- Zeros padding: not invertible by design; the streaming theorems are stated for no padding and the three others.
- CbcStream.CipherContext.Finish: like the code it leaves the context in no promised state; a new message needs a new
  context.
- `mbedtls_cipher_cmac` and the AES-CMAC-PRF-128 wrapper: compositions of the calls modelled here.
- CCM lengths beyond what a byte string can hold: `length` is the length of the input.
- Liveness of the queues (a woken thread eventually runs) and fairness: only safety and the absence of lost wakeups are
  stated.
- ThreadPool.start, joining, exceptions in tasks, and what happens to queued tasks and blocked producers after stop:
  the code promises no completion there.
- The log's timing, its file output and the text of the drop notice; draining at stop.
- 32-bit overflow in the calendar formulas and the narrowing of `time_t` to `int`: integers are unbounded, so the
  statements apply to the dates for which the code's intermediate values fit.
- Time-zone files, local time and formatting of dates.
- `size_t` overflow checks of the Base64 encoder for inputs near the address-space limit.
