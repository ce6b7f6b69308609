# A verified model of the arithmetic and filters of Crypto++

This project models parts of Crypto++ 5.6.2 in Dafny and proves what they promise. Every
statement is about all inputs, all runs or all ways to cut an input into pieces.
`dafny verify dfyconfig.toml` checks the whole of it.

**Multiplication in groups.** `AbstractGroups` is the interface `AbstractGroup` with the laws
of a commutative group, and its `Multiple` is the plain repeated addition that all fast
algorithms are measured against: signed sliding windows with buckets (`WindowSliders`,
`ScalarMultiplication`), two interleaved exponents over a sparse table
(`CascadeMultiplication`), the heap-driven cascade (`Heaps`, `GeneralCascades`) and the
precomputed fixed base (`FixedBasePrecomputations`). `Fields` and `EllipticCurves` prove the
inversion-free doubling and the batch inversion against affine `Double`, over any field of odd
characteristic whose inverse of zero is zero; `EcpMultiplication` puts them together, and `CurveLaws`
proves the formulas against the curve: the sum lies on the chord or tangent and on the curve, and
all laws of a commutative group hold but associativity, which is a hypothesis.

**Numbers.** `NumberTheory` and `FermatTheorem` give congruences and Fermat's theorem, the latter
from Lagrange's theorem for finite groups. `BlumBlumShubs` is the squaring generator with random
access, `Esign` the signature primitive.

**Polynomials over GF(2).** A polynomial is the number whose bits are its coefficients, with
`Xor`, `Mul` and `Rem` of `BinaryPolynomials` as the reference. `Gf2_32` is the field of 32-bit words,
`PolynomialMod2s` long division, product and square, `QuotientRings` the Euclidean inverse,
`WordBlocks` and `TrinomialFields` the word-level arithmetic modulo a trinomial. `GaloisProducts`,
`GaloisReflections`, `GcmTables` and `GcmHashes` are GHASH, and `GhashLaws` says what it is: a
polynomial in the hash key.

**Filters.** `BlockQueues` and `BufferedFilters` are the buffering that hands a message on as one first
part, whole blocks and one last part; `StreamFilters` is encryption and decryption with padding
through it. `AuthenticatedCiphers` is the six-state machine of authenticated ciphers.
`BitStrings`, `Sinks`, `BaseEncoders`, `Groupers`, `BaseDecoders` and `BaseCoding` are encoding to
characters and back, with targets that block.

**ASN.1.** `BerLengths` is the length codec and the queue with its open decoders,
`DerReencoding` and `BerValues` the re-encoding of BER to DER, `ObjectIdentifiers` the OID codec.

Where the source changes state, the model does: window sliders, precomputations, projective
doublings, generators, tables, the ring buffer, filters and queues are classes or arrays changed in
place. Results that the source hands out as references to shared scratch objects are values here.

Some promises do not hold for all inputs. ESIGN may accept a draw that p divides, and then
the image can be wrong (`Esign.ZeroDrawFails`, with the exact condition in `Esign.SignatureExact`).
`BlumBlumShub::Seek` goes wrong if the exponent reduces to zero and the seed is not coprime to
the modulus (exact condition in `Seek`, and `BlumBlumShubs.SeekFails` for two bytes that differ).
The inversion in `GF2_32` ends exactly for the words that are coprime to the modulus
(`Gf2_32.InversionEnds`); `Gf2_32.InversionFails` is a word for which it does not. An object
identifier whose second arc is 40 or more is not decoded to itself (exact condition in
`ObjectIdentifiers.OidRoundTrip`, an instance in `ObjectIdentifiers.LargeSecondArc`). The
elliptic-curve `SimultaneousMultiply` reads an empty cascade for a zero exponent, and only then.
`cryptlib.h` (lines 762-763) says that the value returned by a blocked call is approximately the
number of bytes left. For `Put2` of the encoding filters it is not always that: the macro in
`fltrimpl.h` subtracts the input position from the length of the refused output. `Sinks.UnsentExact`
says exactly when the two agree, and in `BaseEncoders.ReportFails` nothing is left and the
call returns 2^64 - 2.

## Model

| member | source | states |
|---|---|---|
| AbstractGroups.MultipleAdd | sources/cryptopp/algebra.cpp:15-35 | In every commutative group a base taken m and n times, added, is the base taken m + n times, for negative counts too; the reference for every multiplication below |
| AbstractGroups.MultipleOfSum | sources/cryptopp/algebra.cpp:15-35 | n times a sum is the sum of n times its terms |
| WindowSliders.WindowSlider.constructor | sources/cryptopp/algebra.cpp:208-217 | The pending value is the exponent, and the window size follows the length thresholds |
| WindowSliders.WindowSlider.FindNextWindow | sources/cryptopp/algebra.cpp:219-246 | The pending value is the signed window just found plus what is left; windows are odd, disjoint and below a fixed horizon even with the carry of a negated window, and the slider finishes exactly when nothing is pending |
| WindowSliders.WindowSlider.TakeWindow | sources/cryptopp/algebra.cpp:234-245 | Taking a window, negated with carry or plain, changes neither the sum nor the horizon |
| ScalarMultiplication.SweepIdentity | sources/cryptopp/algebra.cpp:298-312 | The two running sums of the bucket sweep add up bucket j exactly 2j + 1 times |
| ScalarMultiplication.StartSliders | sources/cryptopp/algebra.cpp:262-268 | One slider per exponent, before its first window, with empty buckets of its size |
| ScalarMultiplication.Deposit | sources/cryptopp/algebra.cpp:279-287 | At its position a window goes into its bucket, and no window position is missed |
| ScalarMultiplication.ScanPosition | sources/cryptopp/algebra.cpp:277-289 | One pass over the sliders deposits every window of this position; another pass follows exactly while a slider is unfinished, and never beyond the last position |
| ScalarMultiplication.SweepBuckets | sources/cryptopp/algebra.cpp:298-312 | The sweep returns the sum of (2j + 1) times bucket j |
| ScalarMultiplication.SimultaneousMultiply | sources/cryptopp/algebra.cpp:254-313 | For every list of non-negative exponents every slot holds exponent times base, and the scan ends |
| ScalarMultiplication.ScalarMultiply | sources/cryptopp/algebra.cpp:90-95 | Exponent times base |
| CascadeMultiplication.FillTable | sources/cryptopp/algebra.cpp:105-129 | Every entry with an odd coordinate is filled with the combination that its index names, for all three window sizes |
| CascadeMultiplication.FillOddColumns | sources/cryptopp/algebra.cpp:118-122 | The columns of odd multiples of x, with any multiple of y |
| CascadeMultiplication.FillOddRows | sources/cryptopp/algebra.cpp:124-125 | The odd multiples of y alone |
| CascadeMultiplication.FillAlongRows | sources/cryptopp/algebra.cpp:126-128 | The rows of odd multiples of y, with any multiple of x |
| CascadeMultiplication.TableEntry | sources/cryptopp/algebra.cpp:154-162 | An index with an odd coordinate is in range and reads its combination of x and y |
| CascadeMultiplication.StripZeros | sources/cryptopp/algebra.cpp:142-151 | Common zero bits become doublings after the addition; the two counts add up to the doublings that are due and neither drops below zero |
| CascadeMultiplication.EnoughSquares | sources/cryptopp/algebra.cpp:145-151 | While a zero bit can be stripped there is a doubling left to take it from |
| CascadeMultiplication.Doublings | sources/cryptopp/algebra.cpp:159-165 | So many doublings shift both coefficients |
| CascadeMultiplication.Flush | sources/cryptopp/algebra.cpp:140-167 | After a flush the result is the combination of the bits of both exponents read so far |
| CascadeMultiplication.CascadeScalarMultiply | sources/cryptopp/algebra.cpp:97-170 | e1 times x plus e2 times y for all non-negative exponents |
| Heaps.RootIsLargest | sources/cryptopp/algebra.cpp:184-189 | The front of a heap has the largest exponent |
| Heaps.PushHeap | sources/cryptopp/algebra.cpp:198 | push_heap restores the heap and rearranges the elements |
| Heaps.PopHeap | sources/cryptopp/algebra.cpp:185-199 | pop_heap moves the front to the end, keeps a heap before it and rearranges the elements |
| Heaps.MakeHeap | sources/cryptopp/algebra.cpp:184 | make_heap rearranges the elements into a heap |
| GeneralCascades.FoldRearranged | sources/cryptopp/algebra.cpp:172-204 | The sum of a cascade does not depend on the order of its terms |
| GeneralCascades.DivisionStep | sources/cryptopp/algebra.cpp:189-196 | Replacing the largest exponent by a remainder and adding quotient times base to the next keeps the total and lowers the sum of the exponents |
| GeneralCascades.FrontIsZero | sources/cryptopp/algebra.cpp:187 | With exponent zero in front, all exponents but the last are zero |
| GeneralCascades.OnlyLastLeft | sources/cryptopp/algebra.cpp:202 | A cascade with only its last exponent left is that one multiple |
| GeneralCascades.PushAndPop | sources/cryptopp/algebra.cpp:198-199 | push_heap and pop_heap bring the largest exponent to the end again |
| GeneralCascades.ReduceLargest | sources/cryptopp/algebra.cpp:187-200 | One turn of the loop keeps the total and the heap, and the sum of the exponents strictly decreases |
| GeneralCascades.GeneralCascadeMultiplication | sources/cryptopp/algebra.cpp:172-204 | The sum of exponent times base over any cascade of one or more pairs, computed in place |
| FixedBasePrecomputations.FixedBasePrecomputation.SetBase | sources/cryptopp/eprecomp.cpp:12-24 | The first base is the given one, precomputed multiples are kept exactly for an unchanged base, and every base stays its power-of-two multiple of the first |
| FixedBasePrecomputations.FixedBasePrecomputation.Precompute | sources/cryptopp/eprecomp.cpp:26-40 | The requested number of bases, each 2^windowSize times the one before, with windows that cover maxExpBits |
| FixedBasePrecomputations.DigitStep | sources/cryptopp/eprecomp.cpp:77-83 | One digit split off, plain or negated with a carry, keeps the value |
| FixedBasePrecomputations.FixedBasePrecomputation.PrepareCascade | sources/cryptopp/eprecomp.cpp:67-88 | Non-negative digits, all but the last below the exponent base, whose combination is exponent times the first base |
| FixedBasePrecomputations.FixedBasePrecomputation.Exponentiate | sources/cryptopp/eprecomp.cpp:90-96 | Exponent times base, converted out, whatever was precomputed |
| FixedBasePrecomputations.FixedBasePrecomputation.CascadeExponentiate | sources/cryptopp/eprecomp.cpp:98-108 | The combination of two fixed bases, converted out |
| EllipticCurves.CachedProduct | sources/cryptopp/ecp.cpp:316-332 | The cached product a Z^4 times 16 Y^4 of one doubling is a Z^4 of the next |
| EllipticCurves.FiniteDouble | sources/cryptopp/ecp.cpp:316-332 | The inversion-free formulas represent the affine double of the represented point |
| EllipticCurves.VanishingDouble | sources/cryptopp/ecp.cpp:316-332 | Doubling the identity or a point with y = 0 gives z = 0, and the affine double is the identity |
| EllipticCurves.ProjectiveDoubling.constructor | sources/cryptopp/ecp.cpp:299-314 | The start represents Q, with z = 0 exactly for the identity |
| EllipticCurves.ProjectiveDoubling.Double | sources/cryptopp/ecp.cpp:316-332 | After one more doubling the state represents the affine ECP::Double of the point before |
| EllipticCurves.ParallelInvert | sources/cryptopp/ecp.cpp:250-285 | Batch inversion in place equals element-wise inversion, zeros included |
| EllipticCurves.SplitInverses | sources/cryptopp/ecp.cpp:268-281 | The inverse of a product gives both inverses, or each is inverted by itself if the product is zero |
| EllipticCurves.NormalizeCorrect | sources/cryptopp/ecp.cpp:424-433 | With z inverted, the conversion gives the affine point that is represented |
| EcpMultiplication.StartRecording | sources/cryptopp/ecp.cpp:382-387 | One slider of window size 5 per exponent, and nothing recorded |
| EcpMultiplication.RecordPosition | sources/cryptopp/ecp.cpp:394-413 | One pass records every window of this position with the base that it adds at most once |
| EcpMultiplication.MakeAffine | sources/cryptopp/ecp.cpp:422-433 | Every base recorded after k doublings becomes exactly the k-fold affine double of P |
| EcpMultiplication.FinalCascadeSum | sources/cryptopp/ecp.cpp:435-456 | The final cascade sums to the signed windows at their positions, times P |
| EcpMultiplication.FinishCascades | sources/cryptopp/ecp.cpp:435-456 | One cascade per exponent over the converted bases |
| EcpMultiplication.EcpSimultaneousMultiply | sources/cryptopp/ecp.cpp:361-457 | Exponent times P for every positive exponent; a zero exponent has an empty cascade, for which the result is None |
| EcpMultiplication.EcpScalarMultiply | sources/cryptopp/ecp.cpp:351-359 | k times P for every k, small ones by the generic algorithm |
| CurveLaws.CurveEquation | sources/cryptopp/ecp.cpp:177-184 | VerifyPoint accepts exactly the points with y^2 = x^3 + a x + b |
| CurveLaws.ChordPoint | sources/cryptopp/ecp.cpp:218-233 | The mirrored sum lies on the chord, the three abscissae add up to the square of its slope, and the sum of two points of the curve is on the curve |
| CurveLaws.TangentPoint | sources/cryptopp/ecp.cpp:235-248 | The same for the double and the tangent, whose slope is (3 x^2 + a) / 2 y |
| CurveLaws.AddOnCurve | sources/cryptopp/ecp.cpp:205-248 | Sums and inverses of points of the curve are on the curve |
| CurveLaws.AddInverse | sources/cryptopp/ecp.cpp:200-223 | Infinity is the identity, and a point and its inverse add up to it |
| CurveLaws.AddCommutes | sources/cryptopp/ecp.cpp:218-233 | Addition is commutative |
| CurveLaws.CurveIsGroup | sources/cryptopp/ecp.cpp:200-248 | If addition is associative, the points of the curve form the commutative group that the multiplications ask for |
| CurveLaws.CurveScalarMultiply | sources/cryptopp/ecp.cpp:351-359 | On such a curve the result is k times P and on the curve |
| FermatTheorem.OrderAnnihilates | sources/cryptopp/blumshub.cpp:54-61 | In a finite commutative group every element taken as often as there are elements is the identity |
| FermatTheorem.FermatLittle | sources/cryptopp/blumshub.cpp:54-61 | a^(p-1) is 1 modulo a prime p that does not divide a |
| BlumBlumShubs.PublicBlumBlumShub.GenerateBit | sources/cryptopp/blumshub.cpp:16-25 | The bit at the current position of the squaring stream, and one step on |
| BlumBlumShubs.PublicBlumBlumShub.GenerateByte | sources/cryptopp/blumshub.cpp:27-33 | Eight bits of the stream, first bit highest |
| BlumBlumShubs.PublicBlumBlumShub.GenerateBlock | sources/cryptopp/blumshub.cpp:35-39 | The bytes of the stream from the current position on |
| BlumBlumShubs.StreamFromSeed | sources/cryptopp/blumshub.cpp:8-33 | Block j of the stream is the seed squared j + 2 times, its low bits highest first |
| BlumBlumShubs.ReduceExponentProduct | sources/cryptopp/blumshub.cpp:58-59 | Reducing the exponent modulo (p-1)(q-1) keeps the power modulo pq exactly if the seed is a unit or the reduced exponent is not zero |
| BlumBlumShubs.BlumPrimesSeekable | sources/cryptopp/blumshub.cpp:58 | For distinct primes congruent to 3 modulo 4 the reduced exponent is never zero, so every seed qualifies |
| BlumBlumShubs.BlumBlumShub.Seek | sources/cryptopp/blumshub.cpp:54-61 | What comes out next is what a fresh generator gives after 8 index bits if and only if the seed and index are seekable; if not, the output continues as the stream that starts from 1 |
| BlumBlumShubs.SeekFails | sources/cryptopp/blumshub.cpp:54-61 | With p = 3, q = 5 and seed 3 byte 1 is 0xAA in sequence and 0x55 after Seek |
| BlumBlumShubs.SeekThenGenerate | sources/cryptopp/blumshub.cpp:35-61 | After Seek the bytes are those that follow the first index bytes of a fresh generator, for coprime seeds or Blum primes |
| Esign.FirstOrder | sources/cryptopp/esign.cpp:164-165 | (r + d)^e keeps only its first-order term modulo d^2 |
| Esign.PowerOfPreimage | sources/cryptopp/esign.cpp:140-165 | s^e is x shifted plus w1 modulo n when p divides neither r nor e; primitive IFSP-ESIGN of IEEE P1363a |
| Esign.SignatureCorrect | sources/cryptopp/esign.cpp:43-179 | An accepted r gives s < n with ApplyFunction(s) = x, for every x below 2^k; primitives IFSP-ESIGN and IFVP-ESIGN of IEEE P1363a |
| Esign.IntervalOfImage | sources/cryptopp/esign.cpp:43-47 | ApplyFunction gives x exactly for the powers in one interval |
| Esign.SizeOfImage | sources/cryptopp/esign.h:46 | K is a third of the size of the modulus less one: 2^(3 K + 2) <= n < 2^(3 K + 5) |
| Esign.ImageRange | sources/cryptopp/esign.cpp:43-47 | Every image is below 2^K: the power of x shifted right, or 2^K - 1 if that is not below it |
| Esign.AcceptedRounding | sources/cryptopp/esign.cpp:161 | A draw is accepted exactly if the rounding added less than 2^(2 K + 1) |
| Esign.SignatureExact | sources/cryptopp/esign.cpp:140-179 | For every accepted r the image is x if and only if p divides neither r nor e, or the power of r, which is then the preimage, lies in the interval of x |
| Esign.ZeroDrawFails | sources/cryptopp/esign.cpp:148-165 | With p = 11, q = 13, e = 8, x = 2 the draw r = 0 is accepted and its image is not x |
| Esign.CalculateRandomizedInverse | sources/cryptopp/esign.cpp:140-179 | Over any sequence of draws the first accepted one gives the result, and the image of the result is x for draws and exponents not divisible by p |
| BinaryPolynomials.PolyCongUnique | sources/cryptopp/gf2n.cpp:282-305 | Two remainders of lower degree than the modulus that are congruent are equal |
| BinaryPolynomials.XorBit | sources/cryptopp/gf2n.cpp:217-239 | Coefficients are added modulo 2 |
| BinaryPolynomials.RemUnique | sources/cryptopp/gf2n.cpp:282-305 | The only polynomial of lower degree than the modulus that is congruent to a is its remainder |
| Gf2_32.TimesXCorrect | sources/cryptopp/gf2_32.cpp:9-44 | One shift with the conditional addition of the modulus word is multiplication by x |
| Gf2_32.Multiply | sources/cryptopp/gf2_32.cpp:9-44 | The product is congruent to the polynomial product modulo x^32 + m, in one word, by a table indexed with one bit of b and the top bit of the result |
| Gf2_32.ComparesDegrees | sources/cryptopp/gf2_32.cpp:46-97 | The unsigned comparisons of words and of their exclusive or decide exactly which degree is larger |
| Gf2_32.NoOverflow | sources/cryptopp/gf2_32.cpp:46-97 | Shifting the divisor and its cofactor up to the dividend loses no bit of the 32 |
| Gf2_32.EuclidReduce | sources/cryptopp/gf2_32.cpp:46-97 | One reduction keeps the cofactor equations and the coprimality, and lowers the degree |
| Gf2_32.FirstReduction | sources/cryptopp/gf2_32.cpp:52-67 | The first reduction, of the modulus with its bit beyond the word |
| Gf2_32.Align | sources/cryptopp/gf2_32.cpp:84-89 | Divisor and cofactor shifted to the degree of the dividend |
| Gf2_32.MultiplicativeInverse | sources/cryptopp/gf2_32.cpp:46-97 | Ends, by the very steps of the loop, and gives an inverse of every word coprime to the modulus; zero for zero |
| Gf2_32.CommonStep | sources/cryptopp/gf2_32.cpp:69-94 | A common factor of the two words survives every step of both loops, so that g0 never becomes 1 |
| Gf2_32.OneTurn | sources/cryptopp/gf2_32.cpp:69-94 | The steps of one turn shift the divisor to the degree of the dividend and add it |
| Gf2_32.InversionEnds | sources/cryptopp/gf2_32.cpp:52-94 | The inversion of a word other than 0 and 1 ends if and only if the word is coprime to the modulus |
| Gf2_32.InversionFails | sources/cryptopp/gf2_32.cpp:52-94 | For the modulus word 0 the inversion of x never ends |
| Gf2_32.Divide | sources/cryptopp/gf2_32.cpp:9-97 | The quotient times the divisor is the dividend, modulo x^32 + m |
| Gf2_32.InverseRoundTrip | sources/cryptopp/gf2_32.cpp:9-97 | Multiply of a and its inverse is 1 |
| PolynomialMod2s.Divide | sources/cryptopp/gf2n.cpp:282-305 | a = q d + r with deg r below deg d, which makes r the remainder; division by zero is refused |
| PolynomialMod2s.Times | sources/cryptopp/gf2n.cpp:249-260 | The product of polynomials of any degree |
| PolynomialMod2s.ShiftLeftOne | sources/cryptopp/gf2n.cpp:331-349 | The words hold twice the value, with a new word for the last carry |
| PolynomialMod2s.SquareIsSpread | sources/cryptopp/gf2n.cpp:262-280 | A square is its root with a zero between any two bits |
| PolynomialMod2s.SpreadWord | sources/cryptopp/gf2n.cpp:272-276 | Half a word spread through the nibble map, in one word |
| PolynomialMod2s.Squared | sources/cryptopp/gf2n.cpp:262-280 | The nibble table gives the words of the product of the value with itself |
| QuotientRings.Gcd | sources/cryptopp/algebra.cpp:56-68 | The divisors of the result are exactly the common divisors |
| QuotientRings.GcdOne | sources/cryptopp/algebra.cpp:87 | The gcd is one exactly for relatively prime polynomials |
| QuotientRings.MultiplicativeInverse | sources/cryptopp/algebra.cpp:70-88 | An inverse of lower degree than the modulus when the gcd is 1, and zero otherwise; the degree of the remainder falls each turn |
| WordBlocks.XorAt | sources/cryptopp/gf2n.cpp:749-801 | A word added at place i adds the word times x^(64 i) |
| WordBlocks.XorWords | sources/cryptopp/words.h:34-38 | Adding words adds the polynomials that they hold |
| WordBlocks.ShiftWordsLeftByOne | sources/cryptopp/words.h:52-65 | The words hold twice the value without the bit that leaves the top |
| WordBlocks.GetBitIsBit | sources/cryptopp/gf2n.h:118-121 | The bit of the word is the coefficient of the polynomial, zero past the last word |
| WordBlocks.WordOfValue | sources/cryptopp/gf2n.h:118-119 | Word i holds the coefficients from x^(64 i) on |
| TrinomialFields.Fold | sources/cryptopp/gf2n.cpp:759-780 | x^t0 at any place is x^t1 + 1 at that place, modulo the trinomial |
| TrinomialFields.AddShifted | sources/cryptopp/gf2n.cpp:763-779 | Two partial words or one whole word add exactly the word shifted down by t places, at indices in range |
| TrinomialFields.FoldWord | sources/cryptopp/gf2n.cpp:759-780 | Folding one whole word down keeps the residue |
| TrinomialFields.AddPartialShifted | sources/cryptopp/gf2n.cpp:790-798 | The partial word shifted down loses nothing: the piece not written below is zero, as the assertion there says |
| TrinomialFields.FoldPartialWord | sources/cryptopp/gf2n.cpp:782-799 | Folding the bits from t0 up keeps the residue and leaves fewer than t0 bits |
| TrinomialFields.ReducedSparse | sources/cryptopp/gf2n.cpp:754-801 | The word-level reduction is the remainder by long division modulo x^t0 + x^t1 + 1 |
| TrinomialFields.Reduced | sources/cryptopp/gf2n.cpp:749-801 | The remainder, also when t0 - t1 is less than a word |
| TrinomialFields.ReducedDouble | sources/cryptopp/gf2n.cpp:730-734 | A shift with carry out of bit m - 1, taken back by the words of the modulus, doubles the residue |
| TrinomialFields.Multiply | sources/cryptopp/gf2n.cpp:723-747 | The remainder of the product of the low t0 bits of both operands, whatever stands above them |
| GaloisProducts.GfMult | sources/cryptopp/gcm.cpp:25-45 | The bit-by-bit multiply is the sum of a times x^i over the bits of b; section 6.3 of NIST SP 800-38D |
| GaloisProducts.WindowSplit | sources/cryptopp/gcm.cpp:25-45 | The product with a block is the sum of the products with its parts at their places |
| GaloisProducts.WindowShift | sources/cryptopp/gcm.cpp:25-45 | A later part is the same part times a power of x |
| GaloisReflections.ProductIsPolynomialProduct | sources/cryptopp/gcm.cpp:25-45 | With bits reflected, the block product is the product of polynomials modulo x^128 + x^7 + x^2 + x + 1 |
| GcmTables.SumEntry | sources/cryptopp/gcm.cpp:213-215 | The entry at the sum of a power of two and a smaller index is the sum of their entries |
| GcmTables.FillTable | sources/cryptopp/gcm.cpp:203-216 | From the entries at powers of two every entry is filled with its multiple, and no other table is touched |
| GcmTables.BuildByteTables | sources/cryptopp/gcm.cpp:191-217 | All 16 tables of 256 multiples of the hash key |
| GcmTables.BuildNibbleTables | sources/cryptopp/gcm.cpp:235-268 | All eight tables of 16 multiples of the hash key |
| GcmTables.BitReduces | sources/cryptopp/gcm.cpp:222-227 | A bit pushed out by eight places comes back as 0x1c2 shifted |
| GcmTables.BuildReductionTable | sources/cryptopp/gcm.cpp:220-233 | Every entry, its bytes swapped, is what eight places push out |
| GcmHashes.MultiplyByBytes | sources/cryptopp/gcm.cpp:496-556 | One block through the 64K tables is the block product |
| GcmHashes.FourBytes | sources/cryptopp/gcm.cpp:462-476 | Four bytes of a word through the same tables are a Horner sum in x^8 |
| GcmHashes.CollectedWords | sources/cryptopp/gcm.cpp:478-488 | The reduction words collected in r and byte-reversed stand at their places |
| GcmHashes.DelayedReduction | sources/cryptopp/gcm.cpp:478-488 | Reducing after every byte, and collecting the reductions for the end, give the same block |
| GcmHashes.CombineWithTable | sources/cryptopp/gcm.cpp:478-489 | a + x^8 b + x^16 c + x^24 d by shifts and the reduction table |
| GcmHashes.MultiplyByNibbles | sources/cryptopp/gcm.cpp:428-489 | One block through the 2K tables is the block product |
| GcmHashes.GcmBase.SetKeyWithoutResync | sources/cryptopp/gcm.cpp:150-270 | The tables of the chosen size belong to the encryption of a zero block as hash key; the reduction table is made once |
| GcmHashes.GcmBase.AuthenticateBlocks | sources/cryptopp/gcm.cpp:419-557 | Either table form computes the GHASH fold of the whole blocks and returns the bytes left; section 6.4 of NIST SP 800-38D |
| GcmHashes.GhashConcat | sources/cryptopp/gcm.cpp:419-557 | Hashing in two calls is hashing all of it |
| GhashLaws.BlockBytes | sources/cryptopp/gcm.cpp:25-45 | Byte i of a block is byte i of the data, the first one highest |
| GhashLaws.ReflectedBit | sources/cryptopp/gcm.cpp:25-45 | The first bit of a block is the coefficient of x^0 |
| GhashLaws.ReductionPolynomial | sources/cryptopp/gcm.cpp:25-45 | x times x^127 is 1 + x + x^2 + x^7 |
| GhashLaws.UnitBlock | sources/cryptopp/gcm.cpp:25-45 | The block with the first bit alone is the unit |
| GhashLaws.HashOfUnit | sources/cryptopp/gcm.cpp:419-557 | The hash of the unit block is the hash key |
| GhashLaws.GhashIsPolynomial | sources/cryptopp/gcm.cpp:419-557 | The hash is X1 h^m + ... + Xm h, in closed form, from any state of the buffer |
| BlockQueues.RingTake | sources/cryptopp/filters.cpp:245-268 | The oldest bytes of the ring are one contiguous stretch of the buffer |
| BlockQueues.RingPut | sources/cryptopp/filters.cpp:281-290 | New bytes come after those in the ring, also around its end |
| BlockQueues.BlockQueue.ResetQueue | sources/cryptopp/filters.cpp:236-243 | An empty queue of the given capacity |
| BlockQueues.BlockQueue.GetBlock | sources/cryptopp/filters.cpp:245-257 | The oldest block, contiguous, or nothing if there is none |
| BlockQueues.BlockQueue.GetContigousBlocks | sources/cryptopp/filters.cpp:259-268 | As many of the oldest bytes as lie contiguously, up to the wanted number |
| BlockQueues.BlockQueue.GetAll | sources/cryptopp/filters.cpp:270-279 | All bytes in order, and an empty queue |
| BlockQueues.BlockQueue.Put | sources/cryptopp/filters.cpp:281-290 | First in, first out, never more than the capacity |
| BufferedFilters.Settled | sources/cryptopp/filters.cpp:328-399 | With less than a block to spare, the boundary depends on the total length only |
| BufferedFilters.FilterWithBufferedInput.PutMaybeModifiable | sources/cryptopp/filters.cpp:328-416 | Any input, in any state: the calls so far are those of the message so far, and at its end those of the whole message; non-blocking input is refused |
| BufferedFilters.FilterWithBufferedInput.PutBytes | sources/cryptopp/filters.cpp:333-399 | Everything is handed on or held, within the capacity of the ring buffer |
| BufferedFilters.FilterWithBufferedInput.BeginMessage | sources/cryptopp/filters.cpp:337-348 | With firstSize bytes there the first part is called, and the queue takes blocks |
| BufferedFilters.FilterWithBufferedInput.DeliverBytes | sources/cryptopp/filters.cpp:352-370 | Byte-wise, all but lastSize bytes go on, those in the queue first |
| BufferedFilters.FilterWithBufferedInput.DeliverBlocks | sources/cryptopp/filters.cpp:371-396 | Block-wise, only whole blocks go on and less than blockSize + lastSize bytes stay |
| BufferedFilters.FilterWithBufferedInput.DeliverQueuedBlocks | sources/cryptopp/filters.cpp:373-377 | Blocks from the queue, while blockSize + lastSize bytes are there |
| BufferedFilters.FilterWithBufferedInput.DeliverMixedBlock | sources/cryptopp/filters.cpp:379-387 | One block that begins in the queue and ends in the input |
| BufferedFilters.FilterWithBufferedInput.EndMessage | sources/cryptopp/filters.cpp:401-414 | FirstPut for an empty message without firstSize, then LastPut with what is held, and a fresh start |
| BufferedFilters.WholeMessage | sources/cryptopp/filters.cpp:328-416 | FirstPut, NextPut and LastPut reassemble the message |
| BufferedFilters.SplitDoesNotMatter | sources/cryptopp/filters.cpp:328-416 | Two runs over the same message have the same FirstPut, the same joined NextPut data and the same LastPut |
| BufferedFilters.DocumentedBoundaries | sources/cryptopp/filters.h:177-192 | The lengths documented for LastPut, and exactly when FirstPut and NextPut are called |
| BufferedFilters.DocumentedCalls | sources/cryptopp/filters.h:177-192 | FirstPut has the first firstSize bytes, and NextPut whole blocks |
| BufferedFilters.CapacityIsLeast | sources/cryptopp/filters.cpp:343 | The queue is the least number of whole blocks that holds what can be held back |
| BufferedFilters.FilterMessage | sources/cryptopp/filters.cpp:328-416 | A message in any pieces gives the calls of the whole message |
| StreamFilters.UnpadPad | sources/cryptopp/filters.cpp:661-711 | Padding is taken off again, for PKCS and for one-and-zeros; section 6.3 of RFC 5652 |
| StreamFilters.PadBytes | sources/cryptopp/filters.cpp:641-681 | n bytes of value n, or 0x80 and zeros, or zeros, behind what is left of the message |
| StreamFilters.ForwardOutput | sources/cryptopp/filters.cpp:616-688 | Encrypting transforms the whole blocks and the padded last one |
| StreamFilters.PadUnpad | sources/cryptopp/filters.cpp:688-708 | A block that unpads is the padding of what comes off it |
| StreamFilters.RemovePkcs | sources/cryptopp/filters.cpp:692-698 | Accepts exactly the blocks whose last byte n is between 1 and the block size and that end in n bytes n, and returns what stands before |
| StreamFilters.RemoveOneAndZeros | sources/cryptopp/filters.cpp:699-705 | Accepts exactly the blocks that end in 0x80 and zeros, and returns what stands before |
| StreamFilters.ProcessInverse | sources/cryptopp/filters.cpp:616-620 | Taking back block by block takes back the whole, with the same chaining state |
| StreamFilters.BackwardOutput | sources/cryptopp/filters.cpp:685-711 | Decryption of anything but one or more whole blocks is refused; otherwise the last block is unpadded |
| StreamFilters.PaddingRoundTrip | sources/cryptopp/filters.cpp:555-711 | Decryption through the filter returns what was encrypted through the filter, for every message and invertible chained cipher |
| StreamFilters.AcceptedIsEncrypted | sources/cryptopp/filters.cpp:685-711 | What decryption accepts is the encryption of what it returns |
| StreamFilters.NoPaddingRoundTrip | sources/cryptopp/filters.cpp:626-659 | Without padding exactly whole blocks are accepted, and come back |
| StreamFilters.ZerosPaddingRoundTrip | sources/cryptopp/filters.cpp:626-659 | Zeros padding comes back with its zeros |
| StreamFilters.StreamTransformationFilter.LastPut | sources/cryptopp/filters.cpp:622-715 | The last part is padded or unpadded, or refused, as each padding says |
| StreamFilters.StreamTransformationFilter.NextPutMultiple | sources/cryptopp/filters.cpp:589-614 | Whole blocks are transformed and passed on |
| StreamFilters.StreamTransformationFilter.Put2 | sources/cryptopp/filters.cpp:328-416 | At the end of a message in any pieces the output is that of the whole message |
| StreamFilters.EncryptThenDecrypt | sources/cryptopp/filters.cpp:328-715 | Encrypted in one split and decrypted in any other, the message comes back |
| AuthenticatedCiphers.CutUnique | sources/cryptopp/authenc.cpp:11-46 | Whole blocks and a residue below one block: there is one way to cut an input |
| AuthenticatedCiphers.AuthenticatedSymmetricCipher.SetKey | sources/cryptopp/authenc.cpp:48-60 | A refused key leaves none, a refused IV leaves a key without a session, and an IV given with the key opens a fresh session |
| AuthenticatedCiphers.AuthenticatedSymmetricCipher.Restart | sources/cryptopp/authenc.h:20 | An open session is given up, a missing key stays missing |
| AuthenticatedCiphers.AuthenticatedSymmetricCipher.AuthenticateData | sources/cryptopp/authenc.cpp:11-46 | The blocks authenticated so far and the buffered bytes are the input of the phase, however it was split |
| AuthenticatedCiphers.AuthenticatedSymmetricCipher.Resynchronize | sources/cryptopp/authenc.cpp:62-73 | A new session with nothing authenticated; refused before a key is set or for an invalid IV |
| AuthenticatedCiphers.AuthenticatedSymmetricCipher.Update | sources/cryptopp/authenc.cpp:75-102 | Header before the message and footer after it, the confidential hook fired between; refused without an IV |
| AuthenticatedCiphers.AuthenticatedSymmetricCipher.ProcessData | sources/cryptopp/authenc.cpp:104-134 | The message is transformed piece by piece, the plaintext or the ciphertext authenticated, the header hook fired before; exactly which calls are refused |
| AuthenticatedCiphers.AuthenticatedSymmetricCipher.TruncatedFinal | sources/cryptopp/authenc.cpp:136-174 | Every open phase is finished in order and the whole session is authenticated; refused exactly without a session or for excessive lengths |
| AuthenticatedCiphers.EachHookOnce | sources/cryptopp/authenc.cpp:75-174 | In a finished session each of the three hooks fired once, in order, and everything else is whole blocks |
| AuthenticatedCiphers.RunSession | sources/cryptopp/authenc.cpp:62-174 | A run refuses nothing if and only if a key is set, the IV is valid and header, message and footer keep to their lengths; then header, plaintext or ciphertext as the two flags agree or not, and footer are authenticated, cut into blocks and residues, whatever the pieces |
| AuthenticatedCiphers.MatchingInputs | sources/cryptopp/authenc.cpp:118-129 | Encryption and decryption of the same message authenticate the same bytes |
| AuthenticatedCiphers.SealAndOpen | sources/cryptopp/authenc.cpp:62-174 | Unless a side refuses its session, exactly as RunSession says, the message comes back in any split, and both runs authenticated the same blocks and residues: of the plaintext or of the ciphertext, as the flag says |
| BitStrings.UnitsOfUnpacked | sources/cryptopp/basecode.cpp:39-104 | Units unpacked to bits, with a shorter tail, are found again |
| BitStrings.UnpackUnits | sources/cryptopp/basecode.cpp:124-166 | Bits cut into whole units and unpacked are the same bits |
| BaseEncoders.FindOutputBlockSize | sources/cryptopp/basecode.cpp:31-34 | The loop finds a number of characters that make whole bytes, and no smaller one does |
| BaseEncoders.BaseNEncoder.EncodeByte | sources/cryptopp/basecode.cpp:48-71 | The buffer holds eight more bits, whole characters and an unfinished one, and does not overflow |
| BaseEncoders.BaseNEncoder.TakeByte | sources/cryptopp/basecode.cpp:44-80 | One byte taken: everything so far is sent, or in the buffer, or in a translated block |
| BaseEncoders.BaseNEncoder.OutputBlock | sources/cryptopp/basecode.cpp:81-83 | A block is sent once, or still waits |
| BaseEncoders.BaseNEncoder.Finish | sources/cryptopp/basecode.cpp:88-99 | What waits is the rest of the encoding of the message |
| BaseEncoders.FinalValues | sources/cryptopp/basecode.cpp:88-93 | At the end the characters are the bits of the message in units, zeros in the last |
| BaseEncoders.EncodedText | sources/cryptopp/basecode.cpp:88-99 | The padding fills up the last block, and only if there is one |
| BaseEncoders.BaseNEncoder.Put2 | sources/cryptopp/basecode.cpp:39-104 | Exactly the encoding of the message reaches the target, with every pattern of blocked outputs and repeated calls; a blocked call returns the length of the refused piece less the input position, wrapped, and at least 1 |
| Sinks.UnsentExact | sources/cryptopp/fltrimpl.h:28-34 | The value that a blocked call returns is the input left if and only if the refused piece is as long as the input, or the last byte is left and the piece is as long as what went before |
| BaseEncoders.ReportFails | sources/cryptopp/basecode.cpp:39-82 | Six bytes in base 64 whose second block is refused: nothing is left and the call returns 2^64 - 2 |
| BaseEncoders.EncodeMessage | sources/cryptopp/basecode.cpp:39-104 | The encoding of a message in any pieces |
| BaseDecoders.AcrossBytes | sources/cryptopp/basecode.cpp:138-146 | A value across two bytes leaves its high bits in one and its low bits at the top of the next |
| BaseDecoders.BaseNDecoder.DecodeValue | sources/cryptopp/basecode.cpp:138-153 | The buffer holds the bits of one more character, and does not overflow |
| BaseDecoders.FindOutputBlockSize | sources/cryptopp/basecode.cpp:116-119 | The loop finds a number of bytes that make whole characters, and no smaller one does |
| BaseDecoders.BaseNDecoder.TakeChar | sources/cryptopp/basecode.cpp:129-153 | One character taken; an unknown one changes nothing |
| BaseDecoders.BaseNDecoder.OutputLast | sources/cryptopp/basecode.cpp:161-165 | The whole bytes left are sent, an unfinished one is dropped |
| BaseDecoders.BaseNDecoder.Put2 | sources/cryptopp/basecode.cpp:124-166 | Exactly the whole bytes in the known characters reach the target, with every pattern of blocked outputs and repeated calls; a blocked call returns as for the encoder |
| BaseDecoders.DecodeMessage | sources/cryptopp/basecode.cpp:124-166 | The decoding of a text in any pieces |
| BaseCoding.InitializeDecodingLookupArray | sources/cryptopp/basecode.cpp:169-188 | Every character of the alphabet, in either case if wanted, is looked up to its index, and all others to -1 |
| BaseCoding.LookupInverts | sources/cryptopp/basecode.cpp:169-188 | Such a table inverts the alphabet and skips everything outside it |
| Groupers.Stretch | sources/cryptopp/basecode.cpp:208-224 | A stretch within a group is written as it is, after a separator if it starts a new group |
| Groupers.GroupsFromFront | sources/cryptopp/basecode.cpp:205-222 | The text is the first group, a separator and the text of the rest |
| Groupers.Grouper.PutGroups | sources/cryptopp/basecode.cpp:208-224 | All input goes out in groups, or a separator or a stretch is blocked and nothing is lost |
| Groupers.Grouper.Put2 | sources/cryptopp/basecode.cpp:205-234 | Exactly the grouped data reaches the target, with every pattern of blocked outputs and repeated calls; a blocked call returns as for the encoder |
| Groupers.GroupMessage | sources/cryptopp/basecode.cpp:205-234 | Any pieces and any pattern of blocked outputs give the groups of the data and the terminator |
| BaseCoding.GroupedValues | sources/cryptopp/basecode.cpp:124-234 | Separators outside the alphabet do not change what is decoded |
| BaseCoding.CodingRoundTrip | sources/cryptopp/basecode.cpp:39-234 | Decoding the grouped encoding returns the message, for 1 to 7 bits per character |
| BaseCoding.EncodeGroupDecode | sources/cryptopp/basecode.cpp:39-234 | The same through the three filters, each with its own input split and blocked outputs; resumption as in fltrimpl.h |
| BaseCoding.Base64RoundTrip | sources/cryptopp/base64.cpp:8-27 | Base 64 with padding and line breaks, section 4 of RFC 4648 |
| BitStrings.UnpackBit | sources/cryptopp/basecode.cpp:48-77 | Bits come out of units in order, the highest first |
| BaseCoding.EncodedBits | sources/cryptopp/basecode.cpp:39-104 | Every bit of every character number is the bit of the message in its place, zeros at the end; there are as many characters as the message needs |
| BaseCoding.EncodedShape | sources/cryptopp/basecode.cpp:79-104 | The text is those characters, and padding up to the next whole block if there is a padding character |
| BaseCoding.Base64Alphabet | sources/cryptopp/base64.cpp:8-10 | The letters, the digits, '+' and '/' |
| BaseCoding.Base64Example | sources/cryptopp/base64.cpp:8-10 | "fo" becomes "Zm8=" |
| BerLengths.DERLengthEncode | sources/cryptopp/asn.cpp:16-35 | The shortest length octets, and their number; section 8.1.3 of ITU-T X.690 |
| BerLengths.BERLengthDecode | sources/cryptopp/asn.cpp:37-73 | Reads the octets that the form has, and nothing more, through all open decoders |
| BerLengths.LengthRoundTrip | sources/cryptopp/asn.cpp:16-73 | Decoding inverts encoding for every 64-bit length, whatever follows |
| BerLengths.LongFormDecodes | sources/cryptopp/asn.cpp:55-70 | Every long form is read, leading zeros included, and the overflow guard refuses exactly the values of 2^64 or more |
| BerLengths.ShortestLength | sources/cryptopp/asn.cpp:16-35 | No other form of the same length has fewer octets |
| BerLengths.LengthForms | sources/cryptopp/asn.cpp:16-35 | One octet below 0x80, or the number of octets and the fewest that hold the length, highest first |
| BerLengths.ByteQueue.Transfer | sources/cryptopp/asn.cpp:455-480 | Each decoder on the way limits what is read and is reduced by it |
| DerReencoding.InitDecoder | sources/cryptopp/asn.cpp:388-399 | Succeeds exactly on the expected tag with a readable length, indefinite for constructed values only |
| DerReencoding.CopyContent | sources/cryptopp/asn.cpp:201-216 | Succeeds exactly if the announced content is there, which is copied |
| DerReencoding.ReencodeItems | sources/cryptopp/asn.cpp:209-213 | The parts up to the end-of-content octets are consumed and their re-encodings written |
| DerReencoding.EndReached | sources/cryptopp/asn.cpp:413-421 | Two zero octets, if two octets can be read |
| DerReencoding.EndDecoder | sources/cryptopp/asn.cpp:447-452 | The end-of-content octets are consumed |
| DerReencoding.EndEncoder | sources/cryptopp/asn.cpp:504-511 | Tag, shortest length and content are written |
| DerReencoding.NextExpected | sources/cryptopp/asn.cpp:412-421 | While parts are to come the end is not reached, and after the last it is |
| DerReencoding.DERReencode | sources/cryptopp/asn.cpp:201-216 | Accepts exactly the valid items: what it consumes is one item, what it writes is its definite encoding, and every valid item at the front is accepted |
| DerReencoding.ConstructedTags | sources/cryptopp/asn.h:43 | A tag is constructed exactly if bit 5 is set |
| DerReencoding.ReencodeSequence | sources/cryptopp/asn.cpp:201-216 | 30 80 02 01 05 00 00 becomes 30 03 02 01 05 |
| BerValues.Reencodes | sources/cryptopp/asn.cpp:201-216 | The re-encoding of a well-formed value is well-formed, of definite length, and has the same tree |
| BerValues.UniqueReading | sources/cryptopp/asn.cpp:388-453 | Octets begin with one well-formed value only; sections 8.1.3 and 8.1.5 of ITU-T X.690 |
| BerValues.ReencodeValue | sources/cryptopp/asn.cpp:201-216 | For a well-formed value followed by anything exactly the value is consumed and one definite encoding of the same tree is written |
| BerValues.SameTree | sources/cryptopp/asn.cpp:201-216 | Two encodings of one tree with definite lengths in shortest form are the same octets |
| BerValues.EveryValueEncodes | sources/cryptopp/asn.cpp:388-422 | Every content has an encoding under each low tag |
| ObjectIdentifiers.EncodeValue | sources/cryptopp/asn.cpp:218-223 | The septets of the value, highest first, all but the last marked |
| ObjectIdentifiers.ReadValue | sources/cryptopp/asn.cpp:225-242 | A terminated value is read exactly if it fits into 32 bits |
| ObjectIdentifiers.ValueRoundTrip | sources/cryptopp/asn.cpp:218-242 | Decoding inverts encoding for every 32-bit value |
| ObjectIdentifiers.ValueSeptets | sources/cryptopp/asn.cpp:218-223 | The fewest septets that hold the value, highest first, all but the last marked |
| ObjectIdentifiers.EncodeExample | sources/cryptopp/asn.cpp:244-254 | 1.2.840.113549 becomes 06 06 2a 86 48 86 f7 0d |
| ObjectIdentifiers.DecodeValue | sources/cryptopp/asn.cpp:225-242 | The value, or an error for octets that end or a value beyond 32 bits |
| ObjectIdentifiers.DEREncode | sources/cryptopp/asn.cpp:244-254 | Tag, length, the shared byte of the first two arcs and the septets of the others |
| ObjectIdentifiers.BERDecode | sources/cryptopp/asn.cpp:256-283 | The arcs, or nothing for malformed octets; after success exactly the octets of the identifier are consumed |
| ObjectIdentifiers.OidRoundTrip | sources/cryptopp/asn.cpp:244-283 | An identifier comes back if and only if its second arc is below 40 and the first two fit into one byte |
| ObjectIdentifiers.LargeSecondArc | sources/cryptopp/asn.cpp:244-283 | 2.100.3 comes back as 4.20.3 |

## Left out

- Associativity of the elliptic-curve addition is a hypothesis of `CurveLaws.CurveIsGroup`; the other group laws are proved there, and everything about doubling and inversion is proved without it. `EcpSimultaneousMultiply` and `EcpScalarMultiply` ask for a group of points, such as that curve.
- EcpMultiplication.FinishCascades: the cascade multiplies a base by a quotient with the generic `ScalarMultiply`, where the source dispatches to that of `ECP`; both give the same multiple.
- EcpMultiplication.EcpSimultaneousMultiply: for a zero exponent the source forms a cascade of no elements, which is outside the contract of the cascade; the model returns None there.
- Gf2_32.MultiplicativeInverse: requires a coprime to the modulus, since for other words the loop of the source does not end (`Gf2_32.InversionEnds`).
- QuotientRings.Gcd: for polynomials over GF(2); the library uses the template for integers as well, and it serves any Euclidean domain.
- QuotientRings.GcdOne: for polynomials over GF(2), like the algorithm.
- QuotientRings.MultiplicativeInverse: for polynomials over GF(2), the one domain that the library builds a quotient ring on, where the degree of the inverse is bounded too.
- TrinomialFields.Reduced: an empty block of words is allowed only where the source divides; the word-level loop starts from its last index.
- Negative exponents, the representation of `Integer` and its speed, Montgomery form, and the reading and writing of keys and precomputations.
- The single rotate instruction of `GF2_32::Multiply`; the model takes the portable branch.
- `PolynomialMod2::Divide` and `Times` use the polynomial as a number; the sizes of their word buffers, and shifts by more than one bit, are not modelled.
- GCM: the SSE2 and CLMUL paths, the little-endian variants of the table macros (the model is the big-endian variant, with the byte reversals of the reduction table), counter mode, and concurrent first use of the shared reduction table. The sixteen table reads of one block are a loop.
- GcmHashes.GcmBase.SetKeyWithoutResync: the keyed block cipher is a function on blocks, and its own key set-up is not part of this model.
- AuthenticatedCiphers.AuthenticatedSymmetricCipher.SetKey: whether the derived class accepts the key, and whether the IV in the parameters is one it can use, are arguments; an exception from its Resync after the checks of the IV is not modelled.
- Random numbers are arbitrary inputs: ESIGN reads its draws from a sequence and gives no result if none of them is accepted.
- `ForceNextPut`, hard flushes and re-initialisation in the middle of a message, which change the boundaries on purpose.
- Objects after an exception: the model says what a refused call returns, and for filters nothing about the object afterwards.
- StreamFilters.StreamTransformationFilter.Put2: the hooks run after the queue has been updated and not in between, which they cannot observe; the output spaces that NextPutMultiple asks for are not modelled.
- Ciphers with a minimal last block (ciphertext stealing), and the choice of the default padding.
- AuthenticatedCiphers.AuthenticatedSymmetricCipher.ProcessData: the symmetric cipher works byte by byte, as the counter modes below all derived classes do; the tag itself is what a derived class makes of the logged calls.
- Lengths of 2^64 and more of messages and headers; counters of 64 bits do not wrap here.
- BaseEncoders.BaseNEncoder.Put2: the or into zero bits is written as a sum; initialisation from parameters becomes the constructor.
- A target that takes part of a blocked output by itself; here it takes all of a piece or nothing.
- DerReencoding.DERReencode: reading from a queue of less than 2^60 bytes; the content of definite lengths is copied as the source does, so that lengths within it need not be the shortest.
- Tags of more than one octet, which the source reads as one, and `EncodedObjectFilter`.
- Benchmarks, validation drivers, files, CPU detection, and the block and stream ciphers, checksums and other modes of the library.
