# Verified model of the commonware erasure coding stack and runtime cores

This project models, in Dafny, the parts of commonware whose correctness is least visible from reading one function:

- **Erasure coding.** The 64-bit prime field, square-and-multiply over limbs, the in-place number-theoretic transform,
  the iterative vanishing polynomial, recovery from missing rows, and the ZODA scheme built on them: reckoning a
  topology, encoding, checking shards, decoding.
- **Sampling arithmetic.** The exact ceiling of a base-two logarithm, and the sample counts drawn from it.
- **Secret sharing.** Polynomials up to high zeros, the ordered map, and Lagrange recovery of a constant.
- **Runtime and utilities.** The deterministic executor's clock, alarms, queue and event loop; acknowledgement handles
  under every interleaving; canonical variable-length integers; the doubly indexed priority set; the buffered noise
  reader.

Elements of the field are integers below P, so every polynomial identity is an identity in Z/P; machine arithmetic on
wrapping 64- and 128-bit words is modelled beside it and proved to be the same.  Objects that the source updates in
place are classes, matrices are two-dimensional arrays that the transforms overwrite, and loops carry their invariants.
Concurrency is a state machine whose steps are the atomic operations, and a theorem about it is about every run.

The end of the first chain is `Zoda.Protocol`: for every configuration with at least one required shard, every byte
string, every randomness and every shuffle, any selection of shards that contains the required number of different
ones, in any order and with repetitions, passes the check and decodes to the original bytes, exactly when two
conditions hold.  The data can be encoded (`Zoda.Encodable`): the sizes are machine words, some number of samples is
enough (`Topology.Unreachable` says when none is), and the encoded data have a transform and can be allocated.  And
recovery has its transforms (`Zoda.Recoverable`), which below 2^32 rows it always does.  In every other case the source
panics.  That P is prime, that the constants are roots of unity of the stated order, that the tree of products
vanishes exactly on the missing rows and that division on the shifted domain is defined are proved here.

Its counterpart for shards that nobody vouches for is `Zoda.DecodeReceived`: whatever shards arrive, if those that pass
the check decode to some bytes, then these are the bytes of a matrix whose product with the checking matrix is the
committed checksum, however many rows were filled (`Zoda.ThroughChecked`).

Six places where the code differs from a comment, or from what the scheme promises, are stated as they are in the code.

- The sum of two field words is reduced correctly exactly when it is below 2P, not for any two words
  (`Goldilocks.AddInnerExact`, `Goldilocks.AddInnerNotReduced`).
- Reversing with width zero keeps bits beyond the width, except for zero itself (`Bits.ReverseBitsErases`).
- The vanishing polynomial, described as evaluating to w^i for a clear bit i, evaluates to zero at w^i
  (`RootProducts.VanishesAt`).
- When the first configuration is not good, extra checksum columns are said to correct for it.  If no number of samples
  is enough, the number of columns or the size of the checksum overflows a machine word, and with overflow checks, which
  every build profile turns on, encoding panics.  This happens exactly when two columns are not good either and the
  128th power of the miss exceeds a half (`Topology.UnreachableMeaning`, `Topology.ReckonedColumns`), for example with
  128 shards, all of them needed, and 1008 bytes (`Topology.NoSizesFor128`).
- Enough different shards are said to give the data back.  Over 2^32 encoded rows, recovery panics exactly when an even
  and an odd row are missing (`Zoda.Protocol`, `Zoda.ComputableRows`), so always from fewer than half of the rows
  (`Zoda.HalfNeeded`), and there is data that can be encoded and then not decoded even from all the shards: 50734301184
  bytes in 32768 shards, all of them needed, with the shuffle that moves nothing (`Zoda.NoRecoveryFor32768`).
- The sum of polynomials with scalars, described for slices of any lengths, panics exactly when there are at least two
  polynomials and no scalars (`Poly.PolyMsm`).

## Model

| member | source | states |
|---|---|---|
| `Goldilocks.MulIsMod` | math/src/fields/goldilocks.rs:175-178 | the product of the model's field is multiplication of integers modulo P |
| `Goldilocks.ReduceOnce` | math/src/fields/goldilocks.rs:129-138 | one conditional subtraction brings any 64-bit word to its residue |
| `Goldilocks.AddInnerExact` | math/src/fields/goldilocks.rs:87-114 | the wrapping addition yields the residue of a + b if and only if a + b < 2P, for any two 64-bit words |
| `Goldilocks.AddInnerNotReduced` | math/src/fields/goldilocks.rs:87-114 | two words for which the addition does not yield the residue |
| `Goldilocks.SubInnerExact` | math/src/fields/goldilocks.rs:116-127 | the wrapping subtraction is subtraction modulo P on reduced words |
| `Goldilocks.Reduce128Exact` | math/src/fields/goldilocks.rs:140-173 | folding the high words of any 128-bit number yields its residue modulo P |
| `Goldilocks.MulInnerExact` | math/src/fields/goldilocks.rs:175-178 | the widening multiplication followed by the fold is multiplication in the field |
| `Goldilocks.Div2Exact` | math/src/fields/goldilocks.rs:205-221 | twice the halved element is the element again |
| `Goldilocks.Div2Unique` | math/src/fields/goldilocks.rs:205-221 | no other element doubles to the same one |
| `Bits.ReverseBitsMeaning` | math/src/ntt.rs:12-18 | the shifted machine reversal reverses the low bits for widths 1 to 64, and the whole word for width zero |
| `Bits.ReverseBitsErases` | math/src/ntt.rs:12-18 | bits beyond the width are erased if and only if the width is positive or the number is zero |
| `Bits.ReverseBitsInRange` | math/src/ntt.rs:12-18 | reversing an index of a table of 2^w rows gives an index of that table |
| `Bits.RevRev` | math/src/ntt.rs:12-18 | reversing the bits twice gives the number back |
| `Bits.RevBits` | math/src/ntt.rs:12-18 | bit j of the reversal of n bits is bit n - 1 - j of the number |
| `Algebra.YieldedBitsValue` | math/src/algebra.rs:13-31 | the bits yielded from any limbs, which stop at the top set bit of the last limb, spell the limbs' little-endian value |
| `Algebra.MonoidPowAdd` | math/src/algebra.rs:33-59 | in any monoid, exponents add |
| `Algebra.MonoidExp` | math/src/algebra.rs:33-59 | square-and-multiply over any number of limbs is the power by their value, in any monoid |
| `FieldTheory.PIsPrime` | math/src/fields/goldilocks.rs:184-189 | the only divisor of P above one is P, so every non-zero element can be inverted |
| `FieldTheory.NoZeroDivisors` | math/src/fields/goldilocks.rs:175-178 | a product is zero only if a factor is |
| `FieldTheory.Fermat` | math/src/fields/goldilocks.rs:184-189 | every non-zero element raised to P - 1 is one |
| `FieldTheory.InvCorrect` | math/src/fields/goldilocks.rs:184-189 | the power P - 2 is the inverse of a non-zero element, and zero for zero |
| `FieldTheory.Exp` | math/src/algebra.rs:234-244 | exponentiation by limbs is the power by their value |
| `FieldTheory.Invert` | math/src/fields/goldilocks.rs:184-189 | the exponentiation used for inversion computes the inverse |
| `FieldTheory.RootOfUnity` | math/src/fields/goldilocks.rs:191-203 | none exactly above 32; otherwise the squarings yield the root of order 2^k |
| `FieldTheory.RootIsRoot` | math/src/fields/goldilocks.rs:64-69 | that root has order exactly 2^k |
| `FieldTheory.RootPowersDistinct` | math/src/fields/goldilocks.rs:64-69 | its first 2^k powers are all different |
| `FieldTheory.SkewNotRoot` | math/src/fields/goldilocks.rs:71-72 | the skew constant is not a 2^k-th root of unity for any k up to 32 |
| `FieldTheory.SkewInverse` | math/src/fields/goldilocks.rs:74-75 | the second skew constant is the inverse of the first |
| `FieldTheory.GeneratorOrigin` | math/src/fields/goldilocks.rs:443-446 | the generator is 7 to the power 133 |
| `FieldTheory.SkewOrigin` | math/src/fields/goldilocks.rs:453-456 | the skew is the generator to 2^32 |
| `FieldTheory.RootOrigin` | math/src/fields/goldilocks.rs:448-466 | the root of unity is the generator to (P - 1) / 2^32, its power 2^26 is 8, and so is the generator to (P - 1) / 64 |
| `Polynomials.Unique` | math/src/ntt.rs:833-842 | polynomials that agree on as many points as they have coefficients are equal |
| `Transform.BitReversedTwice` | math/src/ntt.rs:659-674 | storing coefficients bit-reversed is its own inverse |
| `Transform.ButterflyUndone` | math/src/ntt.rs:119-134 | the inverse butterfly undoes the forward one |
| `Transform.StageUndone` | math/src/ntt.rs:98-139 | undoing the butterflies of a stage undoes the stage, in both orders |
| `Transform.RoundTrip` | math/src/ntt.rs:24-140 | all stages down after all stages up, and up after down, give every vector back |
| `Transform.UpIsPartial` | math/src/ntt.rs:24-140 | the iterative stages are the recursive even-odd transform, level by level |
| `Transform.ForwardEvaluates` | math/src/ntt.rs:24-140 | the recursive transform evaluates the polynomial at the powers of the root |
| `Transform.UpEvaluates` | math/src/ntt.rs:24-140 | on bit-reversed coefficients the staged transform leaves f(w^i) at index i |
| `Ntt.DomainDistinct` | math/src/ntt.rs:31-50 | the points of the domain are all different |
| `Ntt.TransformEvaluates` | math/src/ntt.rs:24-140 | the forward transform of a column is the stored polynomial's values over the domain |
| `Ntt.TransformInterpolates` | math/src/ntt.rs:24-140 | the inverse transform stores a polynomial with the given values at every point of the domain |
| `Ntt.TransformRoundTrip` | math/src/ntt.rs:24-140 | inverse after forward and forward after inverse give back every column |
| `Ntt.ButterflyRows` | math/src/ntt.rs:117-134 | one butterfly on two rows, in every column, all other rows kept |
| `Ntt.BlockPass` | math/src/ntt.rs:113-136 | the inner loops apply one block of butterflies to every column of the rows, all others kept |
| `Ntt.StagePass` | math/src/ntt.rs:110-138 | the loop over blocks applies one stage |
| `Ntt.Stages` | math/src/ntt.rs:78-97 | the stages with their roots, in the order of the direction asked for |
| `Ntt.InPlace` | math/src/ntt.rs:24-140 | the whole in-place transform replaces every column by its transform, for every size up to 2^32 |
| `RootProducts.RootProductZero` | math/src/ntt.rs:358-366 | the product over the clear bits is zero at a point exactly when the point is the power of a clear bit |
| `RootProducts.VanishesAt` | math/src/ntt.rs:358-366 | a vanishing polynomial is zero at a point exactly when the point is w^i for a clear bit i |
| `RootProducts.ProductThroughDomain` | math/src/ntt.rs:545-553 | values multiplied on enough points determine the product polynomial |
| `RootProducts.VanishesProduct` | math/src/ntt.rs:370-396 | the even half times the odd half with its roots moved by w vanishes for the interleaved bits |
| `Vanishing.DivideRoots` | math/src/ntt.rs:605-620 | scaling coefficient i by factor^i replaces P(X) by P(factor X), on bit-reversed storage |
| `Vanishing.SpreadPads` | math/src/ntt.rs:502-515 | moving entry j to 2 j is padding the stored polynomial with zero coefficients |
| `Vanishing.SpreadLeft` | math/src/ntt.rs:511-515 | swapping downwards spreads the left half over the section in place |
| `Vanishing.SpreadRight` | math/src/ntt.rs:502-506 | swapping upwards spreads the right half over the section in place |
| `Vanishing.TakeRight` | math/src/ntt.rs:532-537 | the right half moves to the scratch column, spread, and leaves zeros |
| `Vanishing.MultiplySections` | math/src/ntt.rs:545-553 | transforming, multiplying value by value and transforming back gives the product's values |
| `Vanishing.CombineSections` | math/src/ntt.rs:486-555 | from polynomials that vanish for both halves, in all four cases of active halves, one that vanishes for their interleaving |
| `Vanishing.NextLevel` | math/src/ntt.rs:468-561 | one pass over the sections moves the whole table up one level of the tree; it fails exactly at the last pair of 2^32 rows when both halves have clear bits |
| `Vanishing.Leaves` | math/src/ntt.rs:433-448 | the first level holds X - 1 for clear bits and nothing for set bits, in bit-reversed order |
| `Vanishing.InverseRoots` | math/src/ntt.rs:449-465 | none exactly above 2^32 rows; otherwise the table of inverse roots, smallest order first |
| `Vanishing.Truncate` | math/src/ntt.rs:570-579 | swapping back keeps every second entry, which is the stored polynomial without its high zeros |
| `Vanishing.VanishingPolynomial` | math/src/ntt.rs:357-580 | a result exactly when some bit is set and the transforms exist, which over 2^32 rows needs a half without clear bits; it is zero at w^i exactly when bit i is clear, and its degree is the number of clear bits |
| `Combinations.EvalCombination` | math/src/ntt.rs:270-287 | evaluating a weighted sum of polynomials is the weighted sum of their values |
| `Matrices.Init` | math/src/ntt.rs:237-251 | filled row by row from the data, zero where the data ends, extra data ignored |
| `Matrices.Multiply` | math/src/ntt.rs:270-287 | every entry is the product of a row and a column |
| `Recovery.PolynomialVector.constructor` | math/src/ntt.rs:623-638 | a matrix taken as polynomials, one a column |
| `Recovery.PolynomialVector.FromCoefficients` | math/src/ntt.rs:641-674 | coefficient i of polynomial k is the datum at that place, zero where the data ends |
| `Recovery.PolynomialVector.CoefficientsUpTo` | math/src/ntt.rs:801-819 | exactly the first n coefficients of every polynomial, in order |
| `Recovery.PolynomialVector.Evaluate` | math/src/ntt.rs:676-684 | row i holds every polynomial's value at w^i, and every row is active |
| `Recovery.PolynomialVector.Divide` | math/src/ntt.rs:732-799 | at every point of the shifted domain the result is the quotient of the two values |
| `Recovery.EvaluationVector.Empty` | math/src/ntt.rs:844-852 | no active row |
| `Recovery.EvaluationVector.FillRow` | math/src/ntt.rs:854-859 | the row's prefix is filled and the row active, everything else kept |
| `Recovery.EvaluationVector.Interpolate` | math/src/ntt.rs:833-842 | the polynomials have the given values at every point of the domain |
| `Recovery.EvaluationVector.Multiply` | math/src/ntt.rs:870-884 | row i is multiplied by the polynomial's value at point i |
| `Recovery.SkewedNotZero` | math/src/ntt.rs:747-799 | the vanishing polynomial has no zero on the shifted domain, so the division is defined |
| `Recovery.DivideColumn` | math/src/ntt.rs:747-799 | scaling roots, transforming, dividing and undoing both yields the quotient on the shifted domain |
| `Recovery.RecoverColumn` | math/src/ntt.rs:886-905 | if an agreeing polynomial has at most as many coefficients as there are active rows, the quotient is that polynomial |
| `Recovery.EvaluationVector.Recover` | math/src/ntt.rs:886-905 | a result exactly when the vanishing polynomial exists; then every column becomes the one polynomial with no more coefficients than active rows and the given values there, whatever the inactive rows hold |
| `Recovery.MatchExists` | math/src/ntt.rs:886-905 | whatever the values on the active rows, such a polynomial exists |
| `Rational.Normalize` | utils/src/rational.rs:119-145 | the shifted fraction lies in [1, 2) and keeps its value with the integer part |
| `Rational.SquareStep` | utils/src/rational.rs:155-182 | squaring and halving if at least two keeps the fraction in [1, 2) and appends one binary digit |
| `Rational.Log2Ceil` | utils/src/rational.rs:110-199 | for every positive rational x and every k the numerator N satisfies 2^(N-1) < x^(2^k) <= 2^N |
| `Rational.Log2CeilUnique` | utils/src/rational.rs:43-64 | no other numerator satisfies it |
| `Rational.CeilToU128` | utils/src/rational.rs:84-100 | the least integer not below the number, zero for negative numbers, and the largest word exactly when that integer is at least as large |
| `Topology.WithColsSized` | coding/src/zoda.rs:228-242 | every shard's slice of rows fits, the required shards cover the data rows, the rows have room for all the bits of the data and no row or sample is spare, counted in bits, and the encoded rows are the least power of two |
| `Topology.TryCols` | coding/src/zoda.rs:228-242 | these sizes exactly when eight times the bytes is below 2^64 and the rows of all shards are at most 2^63, and a panic otherwise |
| `Topology.RequiredSamples` | coding/src/zoda.rs:244-259 | the count is the ceiling of the security bits over the logarithm of the miss probability, from its seven-digit ceiling |
| `Topology.RequiredUnique` | coding/src/zoda.rs:244-259 | that count is determined by the numbers of rows |
| `Topology.RequiredMeaning` | coding/src/zoda.rs:244-259 | unlimited exactly when the miss probability to the 128th exceeds a half; otherwise the fewest samples that are worth 126 bits by the rounded logarithm, between 126 and 16128, missing with probability at most 2^-126 |
| `Topology.GoodBounded` | coding/src/zoda.rs:299-310 | columns whose required samples fit are fewer than the elements, so the search ends |
| `Topology.Reckon` | coding/src/zoda.rs:272-314 | the sizes that the configuration and the data lead to, in checked 64-bit arithmetic: none exactly when a size is no machine word, or no number of samples is enough and a shard has at most two |
| `Topology.ReckonedUnique` | coding/src/zoda.rs:272-314 | those sizes are determined: the longest run of columns whose required samples fit, the samples raised to those required, and the columns of check samples |
| `Topology.ReckonedSized` | coding/src/zoda.rs:272-314 | they are consistent, the rows have room for all the bits of the data, and one row less would not, for at least one byte |
| `Topology.RunMeaning` | coding/src/zoda.rs:294-309 | with every number of columns from two up to the one taken the samples required of all shards fit the encoded rows, and with one column more they do not, or none is enough |
| `Topology.RepresentableMore` | coding/src/zoda.rs:228-242 | if the sizes for one column are machine words, so are those for any number of columns |
| `Topology.ColumnsOverflow` | coding/src/zoda.rs:261-270 | the product of the check columns overflows exactly when no number of samples is enough and a shard has one or two |
| `Topology.ColumnsReach` | coding/src/zoda.rs:261-270 | for a finite requirement the columns are the fewest that reach it, two at a time |
| `Topology.UnreachableMeaning` | coding/src/zoda.rs:244-310 | the sizes found have no finite requirement exactly when two columns are not good and the 128th power of the miss with one column exceeds a half |
| `Topology.MissInteger` | coding/src/zoda.rs:244-255 | that condition on whole numbers: twice the 128th power of the numerator exceeds that of the denominator |
| `Topology.ReckonedColumns` | coding/src/zoda.rs:261-270 | with a finite requirement the columns reach it and are few; without one, data rows times columns is no machine word |
| `Topology.NoSpareShards` | coding/src/zoda.rs:294-312 | a family of configurations without sizes: as many elements as shards, all needed, a power of two from 128 on |
| `Topology.NoSizesFor128` | coding/src/zoda.rs:294-312 | its first member: 128 shards, all needed, and 1008 bytes |
| `Topology.RequiredExists` | coding/src/zoda.rs:244-259 | for all sizes with a data row there is a number of samples required, or none is enough |
| `Topology.SizesFor32768` | coding/src/zoda.rs:273-314 | 32768 shards, all needed, and 50734301184 bytes: the sizes in full, with 2^32 encoded rows of which a quarter is in no shard |
| `Packing.Repacker.Next` | math/src/fields/goldilocks.rs:223-298 | each word emitted is the low digits of the number still pending, and the rest stays pending |
| `Packing.Repack` | math/src/fields/goldilocks.rs:223-298 | the same number in digits of the other size, exactly as many as its bits need |
| `Packing.IterU64Le` | coding/src/zoda.rs:136-174 | the words spell the same number as the bytes, and there are as many as the bytes need |
| `Packing.CollectU64Le` | coding/src/zoda.rs:176-183 | as many bytes as asked for and available, spelling the words' number modulo what they can hold |
| `Packing.StreamFromU64s` | math/src/fields/goldilocks.rs:223-258 | the 63-bit elements spell the words' number |
| `Packing.StreamToU64s` | math/src/fields/goldilocks.rs:260-298 | the words spell the number of the elements' low 63 bits, whatever the elements |
| `Packing.ElementsToBytes` | coding/src/zoda.rs:774-783 | for any elements with room for the bytes: that many bytes, spelling the number of the low 63 bits modulo what they can hold |
| `Packing.BytesRoundTrip` | coding/src/zoda.rs:136-183 | bytes to elements, padded or cut to a matrix that has room, and back are the same bytes |
| `Zoda.AsPolynomials` | math/src/ntt.rs:253-268 | none exactly when rows would be discarded; otherwise every column is the polynomial with those coefficients, padded with zeros |
| `Zoda.EncodeColumns` | coding/src/zoda.rs:526-530 | every column's values over the domain of the encoded rows |
| `Zoda.EncodeData` | coding/src/zoda.rs:637-642 | encoded row i holds the data polynomials' values at point i |
| `Zoda.MakeShards` | coding/src/zoda.rs:683-706 | shard i holds the encoded rows of its slice of the shuffled indices |
| `Zoda.ShuffledAt` | coding/src/zoda.rs:683-706 | row j of shard i is the encoded row that the shuffle has at i times the samples plus j |
| `Zoda.EncodeWith` | coding/src/zoda.rs:631-706 | for any consistent sizes and any checking matrix, honest shards of one encoding and their checksum |
| `Zoda.Encode` | coding/src/zoda.rs:623-708 | a result exactly when the sizes are machine words, some number of samples is enough, and the encoded data have a transform and can be allocated; then shards are honest rows of one encoding, and the checksum is the data times the checking matrix, drawn with the reckoned number of columns |
| `Zoda.FitsWhen` | math/src/ntt.rs:228-235 | the matrices of encoding and checking can be allocated exactly when some number of samples is enough and the encoded data can; otherwise the size of the checksum overflows |
| `Zoda.ReckonChecking` | coding/src/zoda.rs:497-540 | every case: overflow, a commitment that does not match, a checking matrix that cannot be allocated, a checksum of the wrong shape, no transform; otherwise checking data with the matrix drawn anew and the encoded checksum |
| `Zoda.CheckingData.Check` | coding/src/zoda.rs:542-577 | accepted exactly when index, shape, inclusion and every row's product with the checking matrix are right; otherwise the error the source names |
| `Zoda.ChecksumCommutes` | coding/src/zoda.rs:526-531 | encoding the checksum is the encoded data times the checking matrix, at every point |
| `Zoda.HonestPasses` | coding/src/zoda.rs:542-577 | every honest shard passes the check |
| `Zoda.CoveredSize` | coding/src/zoda.rs:760-773 | the rows filled number the samples times the different shards: repeated shards never raise the count |
| `Zoda.EnoughShards` | coding/src/zoda.rs:760-773 | the required number of different shards fills enough rows |
| `Zoda.FillShards` | coding/src/zoda.rs:760-767 | exactly the rows of the listed shards are filled, each with the values that some listed shard has for it |
| `Zoda.RecoverData` | coding/src/zoda.rs:774-783 | a result exactly when the vanishing polynomial of the missing rows exists; then the bytes that the coefficients of the shortest polynomials through the filled rows spell, whatever was filled |
| `Zoda.ComputableRows` | math/src/ntt.rs:886-905 | recovery has its transforms exactly when there are fewer than 2^32 rows, or no even row or no odd row is missing |
| `Zoda.Decode` | coding/src/zoda.rs:741-784 | the two errors exactly in their cases, a panic exactly when the rows cannot be allocated, or of 2^32 rows an even and an odd one are missing; otherwise polynomials through the shards' rows spell the bytes: honest shards in any order and with repetitions give the original bytes, and shards that pass the check give a matrix with the committed checksum |
| `Zoda.SamePolynomial` | math/src/ntt.rs:886-905 | polynomials with no more coefficients than there are rows, and equal values there, are equal |
| `Zoda.ThroughHonest` | coding/src/zoda.rs:760-783 | polynomials through the rows of honest shards are the encoded ones |
| `Zoda.ThroughChecked` | coding/src/zoda.rs:542-577 | polynomials through the rows of any shards that pass the check have coefficients whose product with the checking matrix is the checksum |
| `Zoda.CheckReceived` | coding/src/zoda.rs:542-577 | of any received shards exactly those that pass are kept, in order |
| `Zoda.DecodeReceived` | coding/src/zoda.rs:497-784 | whatever shards are received, decoded bytes are those of a matrix whose product with the drawn checking matrix is the committed checksum |
| `Zoda.HalfNeeded` | coding/src/zoda.rs:741-784 | over 2^32 rows, shards with fewer than half of the rows never decode, whatever the shuffle |
| `Zoda.SpareRowsNeeded` | coding/src/zoda.rs:741-784 | over 2^32 rows of which the shards leave out the last two, the shuffle that moves nothing never decodes, even from all shards |
| `Zoda.NoRecoveryFor32768` | coding/src/zoda.rs:741-784 | a configuration that encodes and then never decodes: 32768 shards, all needed, and 50734301184 bytes, unshuffled |
| `Zoda.RoundTrip` | coding/src/zoda.rs:542-784 | for any consistent sizes, every selection with enough different honest shards passes the check and decodes to the data, exactly when the rows can be allocated and recovery has its transforms |
| `Zoda.Protocol` | coding/src/zoda.rs:497-784 | from a configuration through encoding, checking and decoding: the data exactly when they can be encoded and recovery has its transforms, and a panic otherwise |
| `Ordered.SortKeeps` | utils/src/ordered.rs:309-310 | the stable sort keeps the first value of every key |
| `Ordered.FromIterDedup` | utils/src/ordered.rs:303-325 | ascending keys, exactly those supplied, each with its first value |
| `Ordered.FirstValueMeaning` | utils/src/ordered.rs:303-325 | the value of a key is that of the item with no earlier item of the same key, and there is none exactly when no item has the key |
| `Ordered.AscendingUnique` | utils/src/ordered.rs:303-325 | the key vector depends only on the set of keys, not on their order |
| `Ordered.Position` | utils/src/ordered.rs:83-88 | a position exactly when the item is present, and its position |
| `Ordered.GetValue` | utils/src/ordered.rs:376-381 | the first value supplied for the key, or none |
| `Poly.MsmNaive` | math/src/algebra.rs:215-221 | the sum of products over the shorter of the two slices |
| `Poly.PolyMsm` | math/src/poly.rs:322-369 | at every point the value is the weighted sum of the values; a panic exactly for two or more polynomials and no scalars |
| `Poly.SameMeaning` | math/src/poly.rs:207-222 | equal coefficients up to high zeros is the same as equal values everywhere |
| `Poly.Polynomial.EvalAt` | math/src/poly.rs:103-123 | Horner's rule is evaluation |
| `Poly.Polynomial.EvalMsm` | math/src/poly.rs:130-147 | the sum over powers is evaluation |
| `Poly.Polynomial.Equals` | math/src/poly.rs:207-222 | true exactly when both are the same function |
| `Poly.Polynomial.MergeWith` | math/src/poly.rs:226-234 | every coefficient becomes the combination of both, with zeros beyond either end |
| `Poly.Polynomial.AddAssign` | math/src/poly.rs:256-260 | values add at every point |
| `Poly.Polynomial.SubAssign` | math/src/poly.rs:271-275 | values subtract at every point |
| `Poly.Polynomial.DegreeExact` | math/src/poly.rs:236-249 | the highest non-zero coefficient, or zero |
| `Poly.DegreeOfFunction` | math/src/poly.rs:50-60 | polynomials considered equal have the same exact degree |
| `Interpolation.WeightOf` | math/src/poly.rs:465-476 | the Lagrange weight at zero of a point among the others |
| `Interpolation.New` | math/src/poly.rs:461-484 | the keys of the points, each with its Lagrange weight among the de-duplicated points |
| `Interpolation.Interpolate` | math/src/poly.rs:446-451 | none exactly when the keys differ, otherwise the weighted sum |
| `Interpolation.InterpolantAgrees` | math/src/poly.rs:461-484 | the combination of basis polynomials takes the given value at every point |
| `Interpolation.LagrangeAtZero` | math/src/poly.rs:408-413 | with at least as many different points as coefficients, the weighted values sum to the constant |
| `Interpolation.RecoverConstant` | math/src/poly.rs:408-484 | from lists of points and shares in any order: none exactly when the indices differ, otherwise the constant |
| `Varint.Write` | codec/src/varint.rs:353-369 | the bytes appended are the encoding of the value |
| `Varint.SizeIsLength` | codec/src/varint.rs:387-393 | the size computed from the leading zeros is the length written |
| `Varint.EncodeDigits` | codec/src/varint.rs:353-369 | byte i holds bits 7 i to 7 i + 6 of the value, and every byte but the last has its top bit set |
| `Varint.EncodeRange` | codec/src/varint.rs:353-369 | the bytes have room for the value, and one byte less would not |
| `Varint.EncodeJoin` | codec/src/varint.rs:353-369 | continued bytes before an encoding are the encoding of the joined value |
| `Varint.EncodeSplit` | codec/src/varint.rs:353-369 | whatever an encoding starts with are its low digits, and the rest encodes what remains |
| `Varint.PrefixFree` | codec/src/varint.rs:105-111 | no encoding starts another: every value has one valid encoding |
| `Varint.Decoder.constructor` | codec/src/varint.rs:86-93 | nothing read |
| `Varint.Decoder.Feed` | codec/src/varint.rs:102-138 | a byte is accepted exactly when some value of the width has an encoding that starts with the bytes so far; completion yields that value, and the bit count never exceeds the width |
| `Varint.DataFits` | codec/src/varint.rs:121-130 | the shifted data bits lose nothing to the width and the or adds them |
| `Varint.TooLarge` | codec/src/varint.rs:113-127 | a last byte with bits beyond the width belongs to no value of the width |
| `Varint.Read` | codec/src/varint.rs:371-385 | a value exactly when the buffer starts with its encoding, the rest untouched; end of buffer exactly when the buffer is an unfinished encoding; otherwise invalid |
| `Varint.RoundTrip` | codec/src/varint.rs:353-393 | written values are read back whatever follows, in as many bytes as the size says |
| `Varint.ZigzagOrder` | codec/src/varint.rs:221-230 | the bitwise form maps 0, -1, 1, -2 to 0, 1, 2, 3 and so on, within the width |
| `Varint.UnZigzagOrder` | codec/src/varint.rs:231-239 | and back |
| `Varint.ZigzagBijection` | codec/src/varint.rs:216-240 | the two are inverse on all signed and unsigned values of the width |
| `Varint.ReadSigned` | codec/src/varint.rs:400-403 | a signed value exactly when its encoding starts the buffer; the end of the buffer is reported exactly when the buffer starts the encoding of some value without holding one, and the error is otherwise that of the width |
| `Varint.WriteSigned` | codec/src/varint.rs:395-398 | the bytes appended are the encoding of the zigzag value |
| `Varint.RoundTripSigned` | codec/src/varint.rs:395-408 | written signed values are read back whatever follows, in as many bytes as the signed size says |
| `Acknowledgement.InvariantHolds` | utils/src/acknowledgement.rs:54-168 | the invariant of count, flag and waker holds at every point of every run |
| `Acknowledgement.Conservation` | utils/src/acknowledgement.rs:137-162 | the count is the handles live or dropped unacknowledged, and no subtraction underflows |
| `Acknowledgement.CompletedMeansAll` | utils/src/acknowledgement.rs:110-127 | success is returned only when every handle ever made has been acknowledged, then and ever after |
| `Acknowledgement.CanceledMeansDropped` | utils/src/acknowledgement.rs:71-81 | cancellation is returned only after a handle was dropped unacknowledged |
| `Acknowledgement.OutcomesExclude` | utils/src/acknowledgement.rs:110-127 | no run returns both, however often it polls |
| `Acknowledgement.NoLostWake` | utils/src/acknowledgement.rs:147-168 | a pending waiter of a resolved acknowledgement has been woken, unless a handle is still about to wake it |
| `Acknowledgement.WakeReaches` | utils/src/acknowledgement.rs:147-168 | the wake to come does reach a pending waiter |
| `Acknowledgement.ResolvedPollEnds` | utils/src/acknowledgement.rs:112-126 | a poll begun after resolution returns an outcome whatever runs between its steps |
| `Acknowledgement.PollEnds` | utils/src/acknowledgement.rs:112-126 | every poll, whatever runs between its steps, returns an outcome that holds, or is pending with its waker in place or already woken; it is pending if the acknowledgement was not resolved meanwhile |
| `Acknowledgement.WaiterWoken` | utils/src/acknowledgement.rs:112-168 | a poll that did not return an outcome waits, and once the acknowledgement is resolved and the wakes owed are made, it has been woken |
| `Acknowledgement.OwedWake` | utils/src/acknowledgement.rs:147-168 | a wake that is owed can be made at once, reaches a registered waker and pays the debt |
| `Acknowledgement.CanWait` | utils/src/acknowledgement.rs:112-126 | from every point of every run, a poll of an acknowledgement that is not resolved can run to waiting |
| `Acknowledgement.WokenByAcknowledgement` | utils/src/acknowledgement.rs:112-155 | a run in which a poll waits, the last acknowledgement wakes it, and the next poll completes |
| `Acknowledgement.WokenByDrop` | utils/src/acknowledgement.rs:71-168 | a run in which a poll waits, dropping the handle wakes it, and the next poll is canceled |
| `Acknowledgement.WokenResolved` | utils/src/acknowledgement.rs:147-168 | no wake is for nothing: whoever was woken finds the acknowledgement resolved |
| `Acknowledgement.WakerTaken` | utils/src/acknowledgement.rs:112-168 | no waker before the first poll, and a waker is taken when it is woken, at every point of every run |
| `Acknowledgement.DroppedStays` | utils/src/acknowledgement.rs:102-109 | a dropped waiter is never polled again and returns nothing more |
| `Acknowledgement.CanDrop` | utils/src/acknowledgement.rs:104-109 | between polls, at the end of every run, the waiter can be dropped |
| `Executor.Executor.constructor` | runtime/src/deterministic.rs:446-450 | the tasks spawned before the root future exists come first, then the root, all queued; nothing sleeps |
| `Executor.Executor.RegisterWork` | runtime/src/deterministic.rs:708-736 | a fresh id is running and queued |
| `Executor.Executor.Drain` | runtime/src/deterministic.rs:738-743 | the whole queue is taken and left empty |
| `Executor.Executor.AdvanceTime` | runtime/src/deterministic.rs:290-301 | the clock moves one cycle |
| `Executor.Executor.SkipIdleTime` | runtime/src/deterministic.rs:307-329 | exactly when nothing is ready and there are alarms, all of them later, the clock jumps to the first of them; otherwise it stays |
| `Executor.Executor.WakeReadySleepers` | runtime/src/deterministic.rs:332-342 | exactly the due alarms fire, first deadline first, each queueing its task |
| `Executor.Executor.PollSleeper` | runtime/src/deterministic.rs:1158-1177 | ready exactly from the deadline on; the first pending poll sets one alarm, later ones none |
| `Executor.Executor.PollTask` | runtime/src/deterministic.rs:502-539 | over the effects themselves: the counter grows by the number of spawns, spawned ids are the next ones in order, the ids queued are those of the tasks spawned and woken and no others, in order and as many as there are spawns and wakes of existing tasks, every sleeper polled early is registered and a new one gets one alarm for the polling task; no task leaves |
| `Executor.Executor.Visit` | runtime/src/deterministic.rs:488-540 | a task not yet complete is polled once with the next result of the script, all the effects of which are performed as stated for a poll, and removed if it completes; a complete one is skipped without effect, and only the root ends the run |
| `Executor.Executor.RunBatch` | runtime/src/deterministic.rs:486-549 | the ids of the batch are visited in order, each once, until the root completes; the polls made are exactly those of the visited ids that had not completed, and together their effects, in order, account for every change of the counter, the queue, the sleepers and the alarms |
| `Executor.Executor.RunReady` | runtime/src/deterministic.rs:468-549 | the batch is all that was ready, shuffled if more than one, and is run as stated |
| `Executor.Executor.Settle` | runtime/src/deterministic.rs:551-557 | time moves by exactly one cycle, or to the first alarm if nothing is ready and all alarms are later than that; due alarms fire, and a stall is reported exactly when neither a ready id nor an alarm was left |
| `Executor.Executor.Turn` | runtime/src/deterministic.rs:454-561 | one turn: the timeout exactly at the deadline, the batch all that was queued, shuffled if more than one, all of it visited with its polls unless the root completes, the effects of the polls accounted for in what is left ready and asleep, the clock moved exactly, the stall exact |
| `Executor.Executor.Start` | runtime/src/deterministic.rs:434-561 | so many turns are taken unless the loop ends before, each moving the clock by a cycle or more; exactly the alarms whose deadline passed have fired, each as often as it was set; the polls have the results of the script in order, and the run is complete exactly when the last poll completed the root |
| `Executor.BatchPolls` | runtime/src/deterministic.rs:486-544 | a visit to a task not yet complete extends the account of the batch by exactly its poll |
| `Executor.OnTime` | runtime/src/deterministic.rs:551-557 | an alarm fires at a time t with deadline <= t < deadline + cycle, also when idle time is skipped |
| `Executor.StallExact` | runtime/src/deterministic.rs:347-353 | nothing is ready after the wake exactly when nothing was ready and nothing slept before it |
| `Executor.DueExactly` | runtime/src/deterministic.rs:332-342 | between turns, fired alarms are exactly the due ones |
| `Executor.CompletedMeaning` | runtime/src/deterministic.rs:528-536 | completed are the tasks that were, and those other than the root that one of the polls completed |
| `Executor.VisitMeaning` | runtime/src/deterministic.rs:486-544 | every id visited is polled unless its task has completed, and no other id is |
| `Effects.AccountsThen` | runtime/src/deterministic.rs:655-736 | accounts of consecutive acts compose to an account of all of them |
| `Effects.Tallied` | runtime/src/deterministic.rs:708-736 | one poll takes as many ids as it spawns, in order, and queues as many as it spawns and wakes existing tasks |
| `Effects.AccountLeaves` | runtime/src/deterministic.rs:655-736 | every task spawned or woken by some polls is queued and no other, and every sleeper polled early is registered, with an alarm for a task that polled it if it is new, and no other |
| `PrioritySet.SameSize` | utils/src/priority_set.rs:151-154 | both halves have the same number of items |
| `PrioritySet.PrioritySet.constructor` | utils/src/priority_set.rs:37-44 | empty, in step |
| `PrioritySet.PrioritySet.Put` | utils/src/priority_set.rs:46-67 | the item has the new priority only, everything else kept, both halves in step |
| `PrioritySet.PrioritySet.Get` | utils/src/priority_set.rs:69-72 | the priority of the item's entry, or none if it has no entry |
| `PrioritySet.PrioritySet.Remove` | utils/src/priority_set.rs:74-86 | true exactly when present, and the item gone from both halves |
| `PrioritySet.PrioritySet.Reconcile` | utils/src/priority_set.rs:88-109 | exactly the items to keep remain, old ones with their priority and new ones with the default |
| `PrioritySet.PrioritySet.Retain` | utils/src/priority_set.rs:111-115 | exactly the items satisfying the predicate remain, with their priorities |
| `PrioritySet.PrioritySet.Contains` | utils/src/priority_set.rs:117-120 | true exactly when the item has an entry |
| `PrioritySet.PrioritySet.Peek` | utils/src/priority_set.rs:122-128 | none exactly when empty, otherwise an entry such that every other has a higher priority, or the same priority and a larger item |
| `PrioritySet.PrioritySet.Pop` | utils/src/priority_set.rs:130-136 | that entry, removed from both halves: all that remain have a higher priority, or the same and a larger item |
| `PrioritySet.PrioritySet.Clear` | utils/src/priority_set.rs:138-142 | empty, in step |
| `PrioritySet.PrioritySet.Len` | utils/src/priority_set.rs:151-154 | the number of items of the index |
| `PrioritySet.PrioritySet.PopAll` | utils/src/priority_set.rs:130-149 | popping until empty lists every item once, priorities ascending and items ascending within a priority |
| `Noise.Rng.constructor` | cryptography/src/transcript.rs:30-38 | nothing handed out |
| `Noise.Rng.FillBytes` | cryptography/src/transcript.rs:49-74 | the next bytes of the stream, whatever the length and whatever is buffered |
| `Noise.FillMany` | cryptography/src/transcript.rs:49-74 | however requests are cut, together they are the stream, nothing lost and nothing repeated |

## Left out

- Zoda.Encode: the transcript, the row digests and the Merkle mountain range are parameters; the checking matrix and the shuffle are arbitrary, and whether an inclusion proof or a commitment verifies is a given truth value.
- Zoda.CheckingData.Check: a shard index is any natural number, while the source's has 16 bits, so shards beyond the first 65536 exist here and cannot be named there.
- Topology.Reckon: machine words have 64 bits; running out of memory below the limit of a vector is not modelled, and the sum of the two numbers of shards is taken as exact.
- Topology.RequiredMeaning: states the arithmetic bound on the miss probability, not a statement about sampled shards.
- Executor.Executor.Start: the clock is unbounded, so the overflow panic is not modelled; random choice is an arbitrary shuffle, polls are arbitrary scripts, and every alarm holds the waker of the task that set it.
- Acknowledgement.InvariantHolds: atomics are interleaved one operation at a time, so weaker orderings of unrelated memory are not modelled, nor is a count beyond the machine word.
- Varint.Write: the buffer is a sequence of bytes returned anew instead of a cursor that is advanced.
- Ordered.FromIterDedup: keys are integers standing for any totally ordered type; the library sort is a stable insertion.
- PrioritySet.PrioritySet.Peek: items and priorities are integers standing for any totally ordered types; the tree set and the hash map are a set and a map.
- Noise.Rng.FillBytes: the hash output is an arbitrary endless stream of bytes.
- Poly.PolyMsm: the thread pool and the `concurrency` argument, which split the same per-row sums, are not part of the model; coefficients are field elements instead of any space over the field.
- The binary encoding of matrices, shards, polynomials and field elements, and reading field elements without reduction.
- The test-only naive evaluation, row removal and formatting in math/src/ntt.rs.
- The `external` build of the runtime, caught panics, metrics, tracing, storage, network and the end of a run after the root completes.
- Group polynomials and commitments in math/src/poly.rs, which need groups that are not part of this model.
- Consensus, networking, storage, signatures, key exchange, broadcast, deployment and command line crates.
