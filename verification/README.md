# Proofs for the runtime and codec code of the SDK

The SDK's headers are interfaces; its difficult logic is in the runtime and codec sources it carries. This project
models that code in Dafny and proves what it is for. Words are natural numbers reduced modulo a power of two, and every
arithmetic part is proved for any word width, not for one.

**Software arithmetic.** `Powers` and `Words` hold the arithmetic of powers of two, scaled reals and wrapped words.
`Ieee754` says over the reals what an encoding of a binary format means and what rounding to nearest, ties to even, is
(IEEE 754-2008, sections 3.4 and 4.3.1); it knows nothing of the code. `Rounding` shows that a sticky shift is rounding to odd and survives a second
rounding. `SoftFloat`, `FloatAdd`, `WideMultiply`, `FloatTail`, `FloatMulDiv`, `FloatSubnormal` and `FloatConvert` are the soft-float
routines over a mutable `FpNumber`, each ending in a theorem about the real value of its result. Addition and
subtraction are correct on all inputs. Multiplication and division are correct when the exact result is in the normal
range; below it the bits under the guard bits never reach the last rounding, and the result is correct exactly when a
condition on those bits, `LosesTail`, does not hold; otherwise it is off by one unit, and `Misrounding` says which way.
`FloatSubnormal` states that condition on the operands' exponents and fractions.
`FloatMisrounded` has single-precision operands for each of these cases.
`WordDivision`, `SignedDivision`, `UnsignedFromSigned` and `CheckedMultiply` are the double-word routines of libgcc2.c;
`FixedPoint`, `FixedMultiply` and `FixedDivide` the helpers of fixed-bit.c, both the path with a double-width integer
and the one without.

**Runtime state machines.** `Emutls` is a transition system: any number of threads, one shared access a step, any
schedule. Its theorems are about every run, and those of `EmutlsCalls` about the calls a schedule makes and what each of
them gets. `Morestack` is a heap of `Segment`, `Block` and `Thread` objects with the
source's pointers; each method states the whole new chain and all of its block lists, and `MorestackRuns` is about any
sequence of calls, up to and including the thread's exit.

**WAV codec.** `ImaDecoder` is the IMA ADPCM decoder as a machine that yields one frame at a time; `ImaReader` is the
source's code over a memory stream, with its cache and buffer, proved to be that machine, and the theorems about runs of reads and
seeks. `ImaSamples` says, knowing nothing of either, which samples the bytes of a file's blocks stand for, and `ImaReads`
that those are what a read delivers. `WavFormat`, `WavWriter`, `WavParser`, `WavReader` and `WavRoundTrip` are the container: the growing memory
stream, the writer with its back-patched header, the parse as a function of the file's bytes, the reader that seeks and
reads, and the round trip; `WavWalk` is about when the walk over the chunks ends.
`WavHeader` reads a finished file's header at fixed offsets. `WavPieces` and `WavOpens` are files of any chunks, whoever
wrote them, and what opening them finds; `ImaOpens` shows that the frame count found for IMA ADPCM is the one its blocks
hold. `WavMetadata`, `WavMetadataWriter` and `WavMetadataChunks` are the metadata chunks: one
routine that writes or counts, and what a walk over its output visits; `WavMetadataReader` and `WavMetadataRoundTrip` are
the reader of metadata and what comes back of every field.

`dafny verify dfyconfig.toml` checks the whole project.

Where code and comments disagree the model follows the code: the comment at plugin-libc/libgcc/libgcc2.c:536 gives the
high word as `2*b1 - 1`, while it is `d - 1`, which is `2*b1` for the odd divisors that reach the branch.

## Model

| member | source | states |
|---|---|---|
| `FloatAdd.Add` | plugin-libc/libgcc/fp-bit.c:708-726 | For every pair of encodings: NaNs propagate quieted, opposite infinities give the default NaN, zeros keep the sign rule, and a non-zero exact real sum is rounded once to nearest, ties to even, subnormal and overflowing results included; an exact zero sum of numbers is +0 |
| `FloatAdd.Sub` | plugin-libc/libgcc/fp-bit.c:728-748 | The same for the sum with the second operand's sign flipped, and outright: the exact real difference of two finite operands, rounded once, whenever it is not zero |
| `FloatAdd.AddParts` | plugin-libc/libgcc/fp-bit.c:568-706 | The special operands in the source's order, and for two numbers fields that pack to the rounding of their exact sum |
| `FloatAdd.AddNumbers` | plugin-libc/libgcc/fp-bit.c:615-705 | Align, combine, renormalize: the fields left in `tmp` stand for a fraction that rounds as the exact sum does |
| `FloatAdd.Align` | plugin-libc/libgcc/fp-bit.c:617-658 | Both operands are brought to the larger exponent, the smaller one rounded to odd by the sticky shift, or dropped when it lies a whole word below |
| `FloatAdd.AlignedSum` | plugin-libc/libgcc/fp-bit.c:617-680 | After alignment the integer sum or difference is the exact one or its rounding to odd, with bits to spare for the renormalization |
| `FloatAdd.Combine` | plugin-libc/libgcc/fp-bit.c:660-704 | Sign and magnitude of the aligned sum, with at most one renormalizing shift down or any number of shifts up that lose nothing |
| `FloatAdd.PackedSum` | plugin-libc/libgcc/fp-bit.c:197-397 | Packing what `_fpadd_parts` returns is the sum of the two encodings, class by class |
| `Rounding.StickyShiftIsOdd` | plugin-libc/libgcc/fp-bit.h:290-291 | `LSHIFT` is rounding to odd, also of a value that was already rounded to odd |
| `Rounding.RoundAfterSticky` | plugin-libc/libgcc/fp-bit.h:290-291 | Rounding away guard bits after a sticky shift is a single rounding of the whole shift |
| `Rounding.PackedRounds` | plugin-libc/libgcc/fp-bit.c:238-314 | Any fraction that compares like the exact real with every half-way point packs to the real rounded once: normal, subnormal and overflowing results, and carries into the next binade |
| `Rounding.PackedRoundsNear` | plugin-libc/libgcc/fp-bit.c:286-314 | A fraction whose guard bits are clear packs correctly for every real within half a guard unit of it |
| `SoftFloat.Unpack` | plugin-libc/libgcc/fp-bit.c:421-564 | The decoded class, sign, payload and exact value of every encoding |
| `SoftFloat.UnpackSubnormal` | plugin-libc/libgcc/fp-bit.c:496-523 | The normalizing loop ends with the leading one in place and the value unchanged |
| `SoftFloat.Pack` | plugin-libc/libgcc/fp-bit.c:196-397 | The encoding with the fields' sign and the magnitude `PackedMagnitude` defines for their class |
| `SoftFloat.PackSubnormal` | plugin-libc/libgcc/fp-bit.c:240-285 | The branch below the normal range: exponent field and fraction spell the rounded magnitude, also when rounding reaches the smallest normal number |
| `SoftFloat.PackNormal` | plugin-libc/libgcc/fp-bit.c:291-313 | The branch in the normal range: the same, also when rounding carries into the next binade or to infinity |
| `SoftFloat.PackUndoesUnpack` | plugin-libc/libgcc/fp-bit.c:196-564 | `pack_d` after `unpack_d` is the identity on every encoding that is not a NaN, and on a NaN sets the quiet bit and keeps sign and payload |
| `SoftFloat.QuietNanIs` | plugin-libc/libgcc/fp-bit.c:208-230 | A NaN made for a sign and a payload has them, and its quiet bit is set |
| `SoftFloat.QuietStays` | plugin-libc/libgcc/fp-bit.c:208-230 | A NaN that is quiet already is not changed |
| `Ieee754.RoundingIsUnique` | plugin-libc/libgcc/fp-bit.c:286-314 | A real has at most one round-to-nearest-even magnitude, so the results above are determined |
| `Ieee754.GridRounds` | plugin-libc/libgcc/fp-bit.c:286-314 | Rounding on the integer grid of a binade is rounding among all magnitudes of the format, overflow included |
| `FloatMulDiv.Multiply` | plugin-libc/libgcc/fp-bit.c:914-932 | For every pair of encodings and each of the three multipliers: the special cases; the exact product rounded once when it has magnitude 2^NORMAL_EXPMIN or more; below that, the correct magnitude but for the one unit a lost tail costs, up or down |
| `FloatMulDiv.MultiplyNumbers` | plugin-libc/libgcc/fp-bit.c:797-911 | Sign, exponent and fraction of the product: the double-width mantissa product cut at the word boundary, rounded by the tail step |
| `FloatMulDiv.MultiplyParts` | plugin-libc/libgcc/fp-bit.c:751-912 | Special operands come back with their sign overwritten by the product's, numbers as the rounded product |
| `FloatMulDiv.MultiplyMantissas` | plugin-libc/libgcc/fp-bit.c:797-861 | Every variant gives the exact double-width product of the two mantissas |
| `WideMultiply.MultiplyBits` | plugin-libc/libgcc/fp-bit.c:800-825 | The bit-serial loop gives the exact double-word product |
| `WideMultiply.MultiplyHalves` | plugin-libc/libgcc/fp-bit.c:834-859 | The four half-word products and two carries give the exact double-word product |
| `FloatMulDiv.NormalizeProduct` | plugin-libc/libgcc/fp-bit.c:866-884 | Both loops: for a high word below 2^(FRACBITS+NGARDS+1), as every product of two fractions has, the leading one is put in place with the value unchanged; for a larger one, the high word is shifted down by whole bits and the low word is not zero if and only if it was not or a one bit was shifted out |
| `FloatMulDiv.MantissaProduct` | plugin-libc/libgcc/fp-bit.c:797-861 | The product of two fractions stays below the bound at which the first of those loops would start |
| `FloatTail.TailRoundsNormal` | plugin-libc/libgcc/fp-bit.c:886-909 | In the normal range the early rounding step and `pack_d` together round exactly once |
| `FloatTail.TailRoundsSubnormal` | plugin-libc/libgcc/fp-bit.c:886-909 | Below the normal range the packed magnitude is the correct one plus `Misrounding`: 0, or -1 or 1 for the two patterns of low bits in which a deciding tail is lost |
| `FloatMulDiv.SubnormalResult` | plugin-libc/libgcc/fp-bit.c:886-909 | The same for a subnormal product or quotient as a whole, which is therefore correctly rounded if and only if its integer fraction, and whether bits follow, show no lost tail |
| `FloatSubnormal.ProductCorrect` | plugin-libc/libgcc/fp-bit.c:797-911 | The product of any two finite numbers other than zero is correctly rounded if and only if its exponent is in the normal range or the product of the two fractions, cut below its leading bits, shows no lost tail: a condition on the operands alone |
| `FloatSubnormal.QuotientCorrect` | plugin-libc/libgcc/fp-bit.c:975-1029 | The quotient of any two finite numbers other than zero is correctly rounded if and only if its exponent is in the normal range or the integer quotient and remainder of the two fractions show no lost tail |
| `FloatSubnormal.ProductForm` | plugin-libc/libgcc/fp-bit.c:862-884 | The exact product is the product of the fractions, scaled to have its leading one in place, at the exponent the operands give |
| `FloatSubnormal.QuotientForm` | plugin-libc/libgcc/fp-bit.c:980-1004 | The same for the quotient, the dividend's fraction doubled when it is below the divisor's |
| `FloatMisrounded.SubnormalProductMisrounds` | plugin-libc/libgcc/fp-bit.c:886-909 | Two single-precision operands whose product comes out one unit too low: zero where the least subnormal is correct |
| `FloatMisrounded.SubnormalQuotientTooLow` | plugin-libc/libgcc/fp-bit.c:1006-1026 | Two whose quotient comes out one unit too low: 208 units where 209 is correct |
| `FloatMisrounded.SubnormalQuotientTooHigh` | plugin-libc/libgcc/fp-bit.c:1006-1026 | Two whose quotient comes out one unit too high: 4799654 units where 4799653 is correct |
| `FloatMulDiv.Divide` | plugin-libc/libgcc/fp-bit.c:1032-1050 | For every pair of encodings: the special cases, and for a non-zero divisor the exact quotient rounded once when it has magnitude 2^NORMAL_EXPMIN or more; below that, the correct magnitude but for the one unit a lost tail costs, up or down |
| `FloatMulDiv.DivideParts` | plugin-libc/libgcc/fp-bit.c:934-1031 | Special operands, and the rounded quotient written over the dividend |
| `FloatMulDiv.DivideNumbers` | plugin-libc/libgcc/fp-bit.c:975-1029 | Sign, exponent and fraction of the quotient of two numbers |
| `FloatMulDiv.DivideMantissas` | plugin-libc/libgcc/fp-bit.c:992-1004 | The quotient-bit loop keeps numerator < 2 * denominator, fills exactly the fraction's bits, and quotient and remainder rebuild the scaled numerator |
| `FloatConvert.Extend` | plugin-libc/libgcc/fp-bit.c:1481-1493 | `sf_to_df` is exact on every finite value, infinity and zero, and keeps a NaN's sign and payload |
| `FloatConvert.Truncate` | plugin-libc/libgcc/fp-bit.c:1532-1551 | `df_to_sf` is the double's real value rounded once to nearest even over the whole range, single subnormals and overflow included; a NaN keeps the high bits of its payload |
| `FloatConvert.TruncateExtend` | plugin-libc/libgcc/fp-bit.c:1481-1551 | Narrowing what was widened gives back every encoding that is not a NaN |
| `FloatConvert.ThroughDouble` | plugin-libc/libgcc/fp-bit.c:1481-1551 | So for the source's own single and double formats: every single but a NaN survives `sf_to_df` and `df_to_sf` |
| `WordDivision.UdivModNormalizing` | plugin-libc/libgcc/libgcc2.c:867-1049 | n = q * d + r and r < d for every dividend and every divisor other than zero, on all branches, for any word width |
| `WordDivision.DivideWords` | plugin-libc/libgcc/libgcc2.c:885-1026 | The contract of `udiv_qrnnd`: divisor with its top bit set, high word below the divisor |
| `WordDivision.DivideOneDigit` | plugin-libc/libgcc/libgcc2.c:911-927 | Divisor of one word above the high word: every primitive's precondition holds after normalization |
| `WordDivision.DivideTwoDigits` | plugin-libc/libgcc/libgcc2.c:929-971 | Divisor of one word at most the high word: two digits, with the case where the divisor is already normalized |
| `WordDivision.DivideByPair` | plugin-libc/libgcc/libgcc2.c:975-1045 | Divisor of two words: one digit, with the case where the divisor's top bit is already set |
| `WordDivision.EstimateBound` | plugin-libc/libgcc/libgcc2.c:1026-1032 | The digit estimated from the divisor's high word alone takes off too much by no more than one divisor, also when the shift is the largest possible |
| `WordDivision.CorrectEstimate` | plugin-libc/libgcc/libgcc2.c:1026-1042 | Multiplying back and correcting at most once gives the quotient digit and the remainder, through the wrap-around of the double-word subtractions |
| `WordDivision.UdivModShifting` | plugin-libc/libgcc/libgcc2.c:805-859 | The shift-subtract variant meets the same specification for every dividend and divisor other than zero |
| `WordDivision.ShiftSubtract` | plugin-libc/libgcc/libgcc2.c:834-848 | The loop's state is the true partial remainder above the quotient bits collected so far |
| `WordDivision.ShiftSubtractStep` | plugin-libc/libgcc/libgcc2.c:840-846 | The quotient bits held in the low end of the remainder never affect its comparison with the divisor |
| `WordDivision.DivModIsUnique` | plugin-libc/libgcc/libgcc2.c:805-1049 | Quotient and remainder are unique, so the two variants agree on all inputs |
| `SignedDivision.DivMod` | plugin-libc/libgcc/libgcc2.c:1094-1114 | Truncated quotient and remainder with the dividend's sign, if and only if the input is not the least number by -1, where the quotient wraps around |
| `SignedDivision.Div` | plugin-libc/libgcc/libgcc2.c:1054-1070 | The truncated quotient under the same condition, in both directions |
| `SignedDivision.Mod` | plugin-libc/libgcc/libgcc2.c:1074-1090 | The truncated remainder on every input, the least number by -1 included |
| `UnsignedFromSigned.UdivWithSdiv` | plugin-libc/libgcc/libgcc2.c:475-549 | The unsigned quotient and remainder for every high word below the divisor, though each inner signed division only sees quotients below half the range |
| `UnsignedFromSigned.DivideSigned` | plugin-libc/libgcc/libgcc2.c:480-517 | The contract of `sdiv_qrnnd` as it is used: quotient below half the range |
| `UnsignedFromSigned.SmallDivisor` | plugin-libc/libgcc/libgcc2.c:479-490 | Divisor with its top bit clear: directly, or with the top quotient bit taken out first |
| `UnsignedFromSigned.LargeDivisor` | plugin-libc/libgcc/libgcc2.c:491-545 | Divisor with its top bit set: halving, the complement path, and the case where the halved high word equals the halved divisor |
| `UnsignedFromSigned.FixOddDivisor` | plugin-libc/libgcc/libgcc2.c:500-533 | Adding back the bit of an odd divisor costs the quotient 0, 1 or 2 |
| `CheckedMultiply.MultiplyChecked` | plugin-libc/libgcc/libgcc2.c:228-323 | The exact product when it fits in a signed double word, and an abort exactly when it does not |
| `CheckedMultiply.MultiplyByWords` | plugin-libc/libgcc/libgcc2.c:234-322 | The case split on which factors fit in a word covers every pair of factors |
| `CheckedMultiply.WordTimesDouble` | plugin-libc/libgcc/libgcc2.c:240-274 | One factor fits in a word, the other does not: exact or abort |
| `CheckedMultiply.BothLarge` | plugin-libc/libgcc/libgcc2.c:277-284 | Both factors out of a word's range and not negative |
| `CheckedMultiply.LargeBySmall` | plugin-libc/libgcc/libgcc2.c:285-304 | One factor above a word's range, one below it |
| `CheckedMultiply.BothSmall` | plugin-libc/libgcc/libgcc2.c:305-316 | Both factors below a word's range |
| `FixedMultiply.MultiplyNarrow` | plugin-libc/libgcc/fixed-bit.c:278-370 | The path built from half-words: floor((x * y + 2^(FBITS-1)) / 2^FBITS), clamped when saturating, brought into the format; for all operands, signed or unsigned, with or without padding |
| `FixedMultiply.MultiplyWide` | plugin-libc/libgcc/fixed-bit.c:256-276 | The path with a double-width integer meets the same specification |
| `FixedMultiply.AccumulateProduct` | plugin-libc/libgcc/fixed-bit.c:290-329 | Four half-word products with their carries are the exact double-word product |
| `FixedMultiply.FixSigns` | plugin-libc/libgcc/fixed-bit.c:331-338 | The two subtractions for negative operands turn the unsigned double-word product into the signed one |
| `FixedMultiply.AddRounding` | plugin-libc/libgcc/fixed-bit.c:340-345 | The rounding bit added with the source's carry test |
| `FixedMultiply.ShiftDown` | plugin-libc/libgcc/fixed-bit.c:347-358 | The two-word arithmetic shift right, including a shift by the whole word |
| `FixedPoint.Saturate1` | plugin-libc/libgcc/fixed-bit.c:193-210 | Clamping of a double-width integer to the format's range |
| `FixedPoint.Saturate2` | plugin-libc/libgcc/fixed-bit.c:213-246 | Clamping of the same integer held in two words |
| `FixedPoint.Narrow` | plugin-libc/libgcc/fixed-bit.c:363-367 | Dropping the padding bits keeps the value modulo 2^NONPADDING_BITS and lands in range |
| `FixedPoint.NarrowedIsUnique` | plugin-libc/libgcc/fixed-bit.c:265-367 | The stored value is determined by the exact one, so both paths of multiplication, and of division, agree |
| `FixedPoint.SaturatedIsClamped` | plugin-libc/libgcc/fixed-bit.c:360-367 | A saturated result is the clamped exact value |
| `FixedDivide.DivideNarrow` | plugin-libc/libgcc/fixed-bit.c:424-508 | The path built from words stores the truncated quotient, clamped when saturating, for every divisor if and only if the dividend is not the least signed integer or the divisor meets `LeastDivides`; otherwise the quotient of the dividend it shifted instead, wrapped to two words |
| `FixedDivide.DivideWide` | plugin-libc/libgcc/fixed-bit.c:406-422 | The path with a double-width integer stores the truncated quotient for every operand pair with a divisor other than zero |
| `FixedDivide.QuotientWords` | plugin-libc/libgcc/fixed-bit.c:437-487 | The two quotient words are floor(|x| * 2^FBITS / |y|) if and only if the dividend is not the least signed integer |
| `FixedDivide.LeastStored` | plugin-libc/libgcc/fixed-bit.c:437-508 | At the least dividend: saturating, right for exactly the divisors from 2 to 2^(FBITS + PADDING_BITS) and those from -2 down with -y * Max <= 2^FBITS * Half; not saturating, exactly when the quotients of the right and the wrong dividend agree in the bits kept, which `LeastByPower` solves for powers of two |
| `FixedDivide.LeastByPower` | plugin-libc/libgcc/fixed-bit.c:437-508 | Not saturating, for a divisor 2^k or -2^k in any format: the stored quotient of the least dividend is right if and only if k <= FBITS + PADDING_BITS |
| `FixedDivide.LeastClamped` | plugin-libc/libgcc/fixed-bit.c:452-500 | What is formed from the least dividend saturates to the smallest value for divisors above 1 and for -1, and to the largest for 1 and divisors below -1 |
| `FixedDivide.DivideLoop` | plugin-libc/libgcc/fixed-bit.c:462-487 | The shift-subtract loop divides a double word, also when the remainder's top bit is shifted out |
| `FixedDivide.NegateWords` | plugin-libc/libgcc/fixed-bit.c:489-498 | Two-word negation with the source's complement |
| `FixedDivide.TruncatedIsDivision` | plugin-libc/libgcc/fixed-bit.c:413-413 | What truncated division means: quotient and remainder with the dividend's sign |
| `FixedDivide.LeastDividendFails` | plugin-libc/libgcc/fixed-bit.c:437-508 | A concrete operand pair at the least dividend whose saturated result is the wrong end of the range |
| `Emutls.NoRunFaults` | plugin-libc/libgcc/emutls.c:139-201 | Under every schedule: no access outside a table, no use of a key before it exists, no double free; offsets are at least 1, at most `emutls_size`, distinct for distinct objects, and every number below `emutls_size` is some object's offset |
| `EmutlsCalls.SameBlock` | plugin-libc/libgcc/emutls.c:129-200 | Under every schedule: call i of thread t and call j of thread u, once they came back, gave the same block if and only if the thread is the same and the object called for is the same |
| `EmutlsCalls.CallsReturn` | plugin-libc/libgcc/emutls.c:129-200 | What a thread got back is, in order, what it called for while it was outside a call: all of those calls, or all but the last, which is still under way |
| `EmutlsCalls.CallsMatch` | plugin-libc/libgcc/emutls.c:129-200 | The same with the object of the call under way, and with the thread's exit |
| `EmutlsCalls.StepMatches` | plugin-libc/libgcc/emutls.c:129-200 | Every step of every thread keeps that account |
| `Emutls.SameOwner` | plugin-libc/libgcc/emutls.c:129-200 | Two returns recorded by the machine have the same block if and only if they have the same object and thread |
| `Emutls.LiveUntilExit` | plugin-libc/libgcc/emutls.c:74-88 | A block handed out is live exactly until its thread exits |
| `Emutls.OffsetNeverChanges` | plugin-libc/libgcc/emutls.c:152-167 | An offset once published never changes, whatever happens next |
| `Emutls.Progress` | plugin-libc/libgcc/emutls.c:139-201 | A thread inside a call can come closer to its end, or else the holder of the mutex can |
| `Emutls.NextKeeps` | plugin-libc/libgcc/emutls.c:139-201 | Every step of every thread keeps the invariant |
| `Emutls.RunKeeps` | plugin-libc/libgcc/emutls.c:139-201 | So does every run |
| `Emutls.PublishKeeps` | plugin-libc/libgcc/emutls.c:158-164 | Publishing a fresh offset gives no object a second one and touches no table slot in use |
| `Emutls.RoomMade` | plugin-libc/libgcc/emutls.c:169-192 | Allocating or growing a table stays in bounds, makes room for the offset, keeps old entries and clears new ones |
| `Emutls.AllocateKeeps` | plugin-libc/libgcc/emutls.c:194-199 | A newly allocated block is the thread's only one for the object |
| `Emutls.ExitFrees` | plugin-libc/libgcc/emutls.c:74-88 | A thread's exit frees its own blocks, all of them and no others |
| `Emutls.Destroyed` | plugin-libc/libgcc/emutls.c:74-88 | The loop over a table frees each block once |
| `Emutls.PlacedInside` | plugin-libc/libgcc/emutls.c:101-133 | The block is aligned, lies inside the memory obtained, and leaves room before it for the pointer that is freed later |
| `Morestack.Thread.Morestack` | plugin-libc/libgcc/generic-morestack.c:585-650 | The chain stays doubly linked and acyclic with the current segment on it; the next segment is used again exactly when it is large enough, otherwise the tail is released and one new segment holds all its blocks; the multiset of dynamic blocks is conserved and none is freed |
| `Morestack.Thread.ReleaseStack` | plugin-libc/libgcc/generic-morestack.c:662-705 | Back to the previous segment with the stack pointer saved by the matching call |
| `Morestack.Thread.FindStack` | plugin-libc/libgcc/generic-morestack.c:813-854 | The innermost segment in use that holds the address becomes current; if none does, nothing changes |
| `Morestack.Thread.AllocateStackSpace` | plugin-libc/libgcc/generic-morestack.c:746-807 | First-fit over the heads of the free lists, those before it freed, the block pushed on the current segment's list |
| `Morestack.Thread.ReleaseSegments` | plugin-libc/libgcc/generic-morestack.c:485-527 | Exactly the tail's segments are unmapped, each once; their blocks are all freed or all come back on one list; what stays is still a well-linked chain with its lists, also when segments in use are released, as at a thread's exit |
| `Morestack.MergeDynamicBlocks` | plugin-libc/libgcc/generic-morestack.c:466-480 | Two disjoint lists are appended in place |
| `Morestack.CollectBlocks` | plugin-libc/libgcc/generic-morestack.c:500-513 | A released segment's two lists join those collected so far, in the source's order |
| `Morestack.Thread.ReleaseLoop` | plugin-libc/libgcc/generic-morestack.c:491-526 | The loop releases every segment of the tail once |
| `Morestack.Thread.Replace` | plugin-libc/libgcc/generic-morestack.c:598-624 | The tail replaced by one new segment |
| `Morestack.CollectedConserves` | plugin-libc/libgcc/generic-morestack.c:466-520 | Collecting loses no block and duplicates none |
| `Morestack.ReplacedConserves` | plugin-libc/libgcc/generic-morestack.c:598-624 | Moving the released blocks to one free list conserves the multiset of all blocks |
| `Morestack.SpaceConserves` | plugin-libc/libgcc/generic-morestack.c:746-807 | Allocation conserves every block's count: kept, freed, or handed out on the initial stack; only a new block adds to it |
| `Morestack.CountIsAll` | plugin-libc/libgcc/generic-morestack.c:746-807 | That count is the number of occurrences in all lists |
| `MorestackRuns.RunCalls` | plugin-libc/libgcc/generic-morestack.c:466-854 | Any sequence of calls that grow, return, unwind and allocate keeps the chain and the lists well-formed and accounts for every block (listed, freed, or handed out on the initial stack) and every segment (on the chain or unmapped); when it ends with the thread's exit, every block not handed out was freed and every segment unmapped, each exactly once; without allocation no block is made, freed or lost before that |
| `MorestackRuns.Perform` | plugin-libc/libgcc/generic-morestack.c:466-854 | The same for one call of any of the five kinds |
| `MorestackRuns.PerformExit` | plugin-libc/libgcc/generic-morestack-thread.c:74-88 | The thread's exit, at any depth, leaves no segment and no list: all blocks freed, all segments unmapped, none twice |
| `ImaReader.Wav.Read` | core-interface/wav/dr_wav.h:6336-6492 | A read delivers exactly as many of the frames asked for as the decoder can, writes their samples to the buffer and nothing behind them, and leaves exactly the state after them, or the one `Left` gives when it stops short; `ImaSamples` and `ImaReads` say which samples those frames have |
| `ImaReader.Wav.Seek` | core-interface/wav/dr_wav.h:5905-5943 | A seek decodes forward to its target, from the first frame when the target lies behind, and fails exactly when the decoder cannot get there, in the state in which that decode is stuck |
| `ImaReader.Wav.SeekToFirstFrame` | core-interface/wav/dr_wav.h:5851-5876 | The decoder as it is right after opening |
| `ImaReader.Wav.ReadRound` | core-interface/wav/dr_wav.h:6363-6489 | One round of the outer loop: block header, cached frames, next group |
| `ImaReader.Wav.LoadNewBlock` | core-interface/wav/dr_wav.h:6366-6409 | The header of a mono or stereo block, and rejection of a step index outside the table |
| `ImaReader.Wav.LoadMoreFrames` | core-interface/wav/dr_wav.h:6439-6487 | Eight frames a channel into the cache |
| `ImaReader.Wav.DecodeNibble` | core-interface/wav/dr_wav.h:6457-6484 | One nibble: difference, clamped predictor and step index, cache slot |
| `ImaReader.ReadsCompose` | core-interface/wav/dr_wav.h:6336-6492 | Reading n frames and then m is reading n + m whenever the first is complete: same samples and count, and the same final state, but for what the longer read has loaded ahead when the first ended with the file's last frame |
| `ImaReader.AheadUnseen` | core-interface/wav/dr_wav.h:6431-6487 | What is loaded ahead at the end of the file is never seen: no read delivers anything from there, and a seek back gives the same state |
| `ImaReader.RunOnTrack` | core-interface/wav/dr_wav.h:5878-5943 | After any run of complete reads and successful seeks the state is that of a straight decode, or the end of the file |
| `ImaReader.SeekThenRead` | core-interface/wav/dr_wav.h:5905-5943 | After any run of complete reads and successful seeks, a seek to frame t and a read of k frames give frames t to t + k of one straight decode from the start |
| `ImaReader.SeekBackHeals` | core-interface/wav/dr_wav.h:5911-5916 | After a failed read, a seek to any earlier frame t succeeds, and a read of k frames from there, up to the frame the failure came at, delivers all k: frames t to t + k of the straight decode, whatever state the failure left |
| `ImaReader.SeekForwardLost` | core-interface/wav/dr_wav.h:5918-5943 | After a failed read no seek forward gets back to the straight decode, which does not reach the target; it succeeds exactly when frames can be decoded from the state left, which they cannot at the end of the data |
| `ImaDecoder.AfterAdd` | core-interface/wav/dr_wav.h:6363-6489 | The state after n + m frames is that after m frames from the state after n |
| `ImaDecoder.SamplesAdd` | core-interface/wav/dr_wav.h:6363-6489 | The samples of n + m frames are those of n followed by those of m |
| `ImaDecoder.PutNibble` | core-interface/wav/dr_wav.h:6457-6484 | Predictor and step index stay in range for every input, so the tables and the cache are indexed in bounds |
| `ImaSamples.SamplesDecoded` | core-interface/wav/dr_wav.h:6336-6492 | Frame i of a straight decode has in every channel the sample the bytes of its block say: the header's signed number, moved nibble by nibble, low half first, eight frames and four bytes a channel at a time |
| `ImaSamples.AllStand` | core-interface/wav/dr_wav.h:6336-6492 | The first n frames can be decoded if and only if their bytes are all there and their blocks' step indexes are in the table |
| `ImaSamples.NextDecodes` | core-interface/wav/dr_wav.h:6363-6489 | The decoder delivers the next frame if and only if its bytes are there, with the samples they say |
| `ImaSamples.DistanceBounds` | core-interface/wav/dr_wav.h:6457-6462 | A nibble with the low bits m moves a sample by (2m+1)/8 of the step, less what the divisions lose |
| `ImaSamples.PutMoves` | core-interface/wav/dr_wav.h:6454-6484 | One nibble moves its channel by that distance, down where bit 3 is set, clamped, and in the table by -1 or by 2(m-3); it fills one slot of the cache and leaves the other channel alone |
| `ImaSamples.StepsGrow` | core-interface/wav/dr_wav.h:6346-6356 | The step table goes from 7 to 32767, each step a tenth larger than the one before, rounded |
| `ImaSamples.BlockLoads` | core-interface/wav/dr_wav.h:6366-6409 | A block's header puts its channels at the header's samples and step indexes |
| `ImaSamples.GroupLoads` | core-interface/wav/dr_wav.h:6439-6487 | Eight bytes, or four, give the next eight frames of every channel |
| `ImaReads.BufferDecoded` | core-interface/wav/dr_wav.h:6336-6492 | After any run of reads and seeks, what a read puts into the buffer is, frame by frame and channel by channel, the sample the bytes of the file's blocks say |
| `ImaReads.ReadDecodes` | core-interface/wav/dr_wav.h:6336-6492 | The same for any state on the straight decode |
| `ImaReads.ReadStops` | core-interface/wav/dr_wav.h:6360-6492 | A read stops early only at the end of the file or at a frame whose bytes are not there |
| `ImaReads.BadBlockSkipped` | core-interface/wav/dr_wav.h:6375-6379 | A block with a step index outside the table ends the read that comes to it, and the next read goes on with the block after it |
| `ImaOpens.OpenedFramesDecode` | core-interface/wav/dr_wav.h:3729-3773 | Opening any file of IMA ADPCM blocks, whole ones and perhaps a shorter last one, gives exactly the number of frames they hold: decoding that many succeeds and ends where the data does |
| `ImaOpens.DecodesAll` | core-interface/wav/dr_wav.h:6336-6492 | Decoding as many frames as the blocks hold uses up the data |
| `ImaOpens.AllThere` | core-interface/wav/dr_wav.h:6336-6492 | Every one of those frames can be decoded, and no further one when the data ends with the blocks |
| `WavRoundTrip.WriteThenRead` | core-interface/wav/dr_wav.h:4449-4562 | Write whole frames by any number of calls, finish, open, read by any number of calls: container, format and frame count come back, each read gets exactly the bytes of the frames it is due, and reads that ask for as many frames as were written get every byte; for RIFF, W64 and RF64 with any metadata of whole skippable chunks, as long as a RIFF file's data starts below 2^31 |
| `WavRoundTrip.PortionsJoin` | core-interface/wav/dr_wav.h:5743-5783 | What the reads are due is, joined, the data up to the cursor after the last of them |
| `WavRoundTrip.WrittenSize` | core-interface/wav/dr_wav.h:6037-6073 | The bytes of all the calls that write frames make as many whole frames as were asked for |
| `WavRoundTrip.ParseImage` | core-interface/wav/dr_wav.h:3007-3773 | Opening a finished file of any size finds the header written, the data where it was written, and the sizes and position `Expected` states |
| `WavRoundTrip.AllDataFound` | core-interface/wav/dr_wav.h:3685-3700 | All frames are found, from the first, if and only if the file is not a RIFF file of 0xFFFFFFFF data bytes or more |
| `WavRoundTrip.WalkArrives` | core-interface/wav/dr_wav.h:3226-3606 | The walk over the chunks of a finished file ends at the data, past all metadata |
| `WavRoundTrip.WalkSkips` | core-interface/wav/dr_wav.h:3589-3606 | The walk passes over any sequence of whole chunks it has no interest in |
| `WavRoundTrip.ImageLaid` | core-interface/wav/dr_wav.h:4449-4562 | Which field of a finished file stands where, in each container |
| `WavHeader.SizesTold` | core-interface/wav/dr_wav.h:4362-4402 | A finished file read at fixed offsets: RIFF and RF64 headers give what follows their size field as far as 32 bits go, a W64 header the whole file; the data's size is given without padding, and the file's length is that of its parts |
| `WavHeader.FormatTold` | core-interface/wav/dr_wav.h:4524-4529 | The "fmt " chunk read at fixed offsets: the format asked for, the bytes of a frame, and the bytes of a second, which are the rate times those |
| `WavWriter.InitWrite` | core-interface/wav/dr_wav.h:4408-4500 | A writer comes back exactly for the formats and containers that can be written |
| `WavWriter.Writer.constructor` | core-interface/wav/dr_wav.h:4449-4562 | The header written in order is the file's header with its initial sizes |
| `WavWriter.Writer.WriteFrames` | core-interface/wav/dr_wav.h:6037-6073 | The frames' bytes go to the end of the data, and the count returned is the frames they amount to |
| `WavWriter.Writer.WriteRaw` | core-interface/wav/dr_wav.h:6023-6035 | Bytes appended to the data |
| `WavWriter.Writer.Uninit` | core-interface/wav/dr_wav.h:5577-5650 | The finished file: padding, and both sizes patched into the header without touching anything else, where the offsets of the size fields fit an `int` |
| `WavWriter.Writer.PatchSizes` | core-interface/wav/dr_wav.h:5604-5650 | The two seeks, by `int` offsets, and writes replace exactly the two size fields |
| `WavWriter.AllFramesWritten` | core-interface/wav/dr_wav.h:6037-6073 | With samples of whole bytes every frame is counted |
| `WavWriter.MemoryStreamWrite.OnWrite` | core-interface/wav/dr_wav.h:5424-5463 | The growing memory stream overwrites at the position and extends the data |
| `WavWriter.MemoryStreamWrite.OnSeek` | core-interface/wav/dr_wav.h:5465-5491 | The position after a seek from the start by any `int` offset, a negative one included, and after one from the current position, where a target outside the data becomes its nearest end |
| `WavWriter.FieldFound` | core-interface/wav/dr_wav.h:5610-5633 | The offset computed for a size field finds it if and only if the data starts below 2^31, and from there to 2^32 leads out of the buffer, as long as its computation does not overflow |
| `WavReader.Reader.Open` | core-interface/wav/dr_wav.h:3007-3809 | The seeking and reading parser does what the parse of the file's bytes says, and is given up only where the source would never end |
| `WavOpens.Opens` | core-interface/wav/dr_wav.h:3007-3809 | A file of any sequence of chunks, in any of the four containers and either byte order, opens if and only if its chunks give a plausible format whose frames have a size; then at its data, with what the chunks say |
| `WavPieces.FrontParsed` | core-interface/wav/dr_wav.h:3007-3606 | Whatever a file goes on with, parsing it comes to its data with what its header and chunks say |
| `WavPieces.PieceRead` | core-interface/wav/dr_wav.h:3226-3606 | Reading a chunk finds what was put into it and ends where it ends, padding included |
| `WavPieces.HeadRead` | core-interface/wav/dr_wav.h:3036-3205 | The header of each container is recognised, and the sizes of an RF64 file are those written |
| `WavPieces.TailRead` | core-interface/wav/dr_wav.h:3286-3340 | The rest of a "fmt " chunk of more than 16 bytes, extensible or not, is read or skipped to its end |
| `WavOpens.ExtensibleOpens` | core-interface/wav/dr_wav.h:3294-3312 | A file whose last "fmt " chunk is extensible opens with the sub-format that stands at offset 24 of its body |
| `WavOpens.CountOpens` | core-interface/wav/dr_wav.h:3366-3405 | The count of a W64 file's last "fact" chunk, or of an RF64 header, is the number of frames |
| `WavOpens.LastFmt` | core-interface/wav/dr_wav.h:3258-3345 | The format is that of the last "fmt " chunk |
| `WavOpens.LastFact` | core-interface/wav/dr_wav.h:3366-3405 | The number of samples is that of the last "fact" chunk of a W64 file, and of no other container's |
| `WavOpens.PcmCounted` | core-interface/wav/dr_wav.h:3715-3742 | Data of samples of whole bytes has as many frames as channels times bytes a sample go into it, and the rest is left off |
| `WavOpens.ImaCounted` | core-interface/wav/dr_wav.h:3757-3773 | IMA ADPCM data has one frame for each block's header and eight for every group |
| `WavOpens.AdpcmCounted` | core-interface/wav/dr_wav.h:3744-3756 | MS ADPCM blocks have two frames in their header and two for every byte of a channel after it |
| `WavOpens.LawSupported` | core-interface/wav/dr_wav.h:2951-2975 | A-law and mu-law files open if and only if their samples have eight bits |
| `WavOpens.NoDataRejected` | core-interface/wav/dr_wav.h:3226-3606 | A file that ends without a data chunk does not open |
| `WavOpens.WrongExtensionRejected` | core-interface/wav/dr_wav.h:3295-3301 | An extensible format whose extension is not of 22 bytes is rejected |
| `WavWalk.UnfinishedIsForever` | core-interface/wav/dr_wav.h:3226-3606 | A file is given up if and only if no number of chunks ends the walk over it, and only when a fmt chunk claims 2^31 bytes or more |
| `WavWalk.WalkDecided` | core-interface/wav/dr_wav.h:3226-3606 | Looking at one chunk more than the file has bytes decides the walk: any larger number gives the same outcome |
| `WavWalk.WalkEnds` | core-interface/wav/dr_wav.h:3226-3606 | When no fmt chunk claims 2^31 bytes or more, every chunk moves the walk on and it ends |
| `WavWalk.SameChunk` | core-interface/wav/dr_wav.h:3226-3606 | What a chunk leads to depends on its position alone |
| `WavReader.Reader.Complete` | core-interface/wav/dr_wav.h:3608-3788 | What follows the walk: validation, frame count, rounding to whole frames |
| `WavReader.ParseChunks` | core-interface/wav/dr_wav.h:3226-3606 | The loop over the chunks follows the walk, chunk by chunk |
| `WavReader.ReadChunkHeader` | core-interface/wav/dr_wav.h:1922-1958 | Identifier, size, padding and body of a chunk in each container, or none at the end |
| `WavReader.SeekForward` | core-interface/wav/dr_wav.h:1960-1978 | Moving on in pieces of at most 2^31 - 1 bytes reaches the target exactly when it is in the file |
| `WavReader.SeekFromStart` | core-interface/wav/dr_wav.h:1980-2005 | The same from the start |
| `WavReader.Reader.ReadFrames` | core-interface/wav/dr_wav.h:5743-5783 | The bytes due (no more than the frames left, the chunk and the stream have), and as many frames as they make; where the data is all there, every frame asked for that is left, byte by byte, and the cursor at the next |
| `WavReader.Reader.ReadRaw` | core-interface/wav/dr_wav.h:5677-5739 | The bytes asked for, as far as the chunk and the stream reach, into a buffer or skipped by seeking and then reading |
| `WavFormat.FmtRoundTrip` | core-interface/wav/dr_wav.h:4524-4529 | The reader's fields of a "fmt " chunk are those the writer wrote |
| `WavFormat.LittleRoundTrip` | core-interface/wav/dr_wav.h:3862-3896 | Reading a little-endian number back |
| `WavMetadataWriter.WriteOrCount` | core-interface/wav/dr_wav.h:3996-4358 | The counting pass and the writing pass return the same number, and it is the number of bytes the writing pass appends |
| `WavMetadataWriter.Sink.PutTopLevel` | core-interface/wav/dr_wav.h:4007-4156 | One chunk of the first pass, with its padding |
| `WavMetadataWriter.Sink.PutInfoList` | core-interface/wav/dr_wav.h:4159-4224 | The INFO list under the size counted for it |
| `WavMetadataWriter.Sink.PutAdtlList` | core-interface/wav/dr_wav.h:4226-4351 | The "adtl" list under the size counted for it |
| `WavMetadataChunks.MetadataVisited` | core-interface/wav/dr_wav.h:1922-1958 | Walking over the emitted metadata visits exactly the emitted top-level chunks, whatever their identifiers, and ends at the last byte, when sizes fit and no list entry is empty |
| `WavMetadataChunks.WalkReadsHeaders` | core-interface/wav/dr_wav.h:1922-1958 | That walk goes by the header `drwav__read_chunk_header` reads, its size and its padding |
| `WavMetadataChunks.MetadataSkipped` | core-interface/wav/dr_wav.h:3589-3606 | The reader steps over all of the emitted metadata, piece by piece, if and only if no unknown chunk has the identifier of one it acts on |
| `WavMetadataChunks.PiecesWhole` | core-interface/wav/dr_wav.h:4159-4351 | Every emitted top-level chunk ends where its header says if and only if no list has an entry with an empty text, or an unknown INFO entry without data |
| `WavMetadataChunks.InfoSizeExact` | core-interface/wav/dr_wav.h:4159-4224 | The INFO list's counted size is that of its entries if and only if none of them is empty |
| `WavMetadataChunks.AdtlSizeExact` | core-interface/wav/dr_wav.h:4226-4351 | The "adtl" list's counted size is that of its entries if and only if no label or note is empty |
| `WavMetadataChunks.TotalEven` | core-interface/wav/dr_wav.h:4354-4355 | The total is even, as the source asserts |
| `WavMetadataRoundTrip.MetadataRoundTrip` | core-interface/wav/dr_wav.h:2690-2947 | Metadata that is written and read comes back with all its fields: the items of the first pass, then those of the INFO list, then those of the "adtl" list; only a "smpl" item with 24 or more bytes of sampler-specific data is lost, and the strings of a "bext" item are cut to their fields and at zero bytes |
| `WavMetadataRoundTrip.WriteThenReadMetadata` | core-interface/wav/dr_wav.h:3996-4358 | The same for the routine that writes |
| `WavMetadataRoundTrip.PieceRead` | core-interface/wav/dr_wav.h:2690-2877 | Reading the chunk of one item gives the item back |
| `WavMetadataRoundTrip.SmplRead` | core-interface/wav/dr_wav.h:2151-2213 | A sampler chunk, header and loops, comes back if and only if it has less than 24 bytes of sampler-specific data, which the reader takes for loops that are not there |
| `WavMetadataRoundTrip.SmplLost` | core-interface/wav/dr_wav.h:2178-2182 | Data of 24 bytes with which the item is lost |
| `WavMetadataRoundTrip.CueRead` | core-interface/wav/dr_wav.h:2215-2267 | All cue points come back |
| `WavMetadataRoundTrip.AcidRead` | core-interface/wav/dr_wav.h:2296-2326 | All fields of an "acid" chunk come back |
| `WavMetadataRoundTrip.BextRead` | core-interface/wav/dr_wav.h:2484-2544 | All fields of a "bext" chunk come back, both halves of the time reference included; its strings as far as they fit and up to a zero byte |
| `WavMetadataRoundTrip.LabelRead` | core-interface/wav/dr_wav.h:2546-2574 | A label or note comes back |
| `WavMetadataRoundTrip.RegionRead` | core-interface/wav/dr_wav.h:2576-2613 | A labelled region comes back |
| `WavMetadataRoundTrip.TextsEnd` | core-interface/wav/dr_wav.h:4181-4325 | Every text that is written is followed by a zero byte |
| `WavMetadataRoundTrip.InfoEntriesRead` | core-interface/wav/dr_wav.h:2879-2947 | The INFO list is read entry by entry, texts and unknown chunks alike |
| `WavMetadataRoundTrip.AdtlEntriesRead` | core-interface/wav/dr_wav.h:2818-2947 | So is the "adtl" list |
| `WavMetadataChunks.WriteTaggedThenRead` | core-interface/wav/dr_wav.h:4533-4535 | A file written with such metadata reads back, written and read in any pieces: container, format, frame count and every byte |

## Left out

Weaker than the source's purpose, or bounded:

- DivideNarrow: at the least signed dividend the word-built path of FIXED_DIVHELPER divides a wrong dividend. Which divisors are served all the same is stated exactly; without saturation the condition is a congruence of two quotients, solved by `LeastByPower` for divisors that are powers of two.
- WriteThenRead: requires metadata that is a sequence of whole chunks other than "fmt ", "data" and "fact", which `MetadataSkipped` decides for the emitted metadata; a RIFF file of 0xFFFFFFFF data bytes or more is not recovered, as `AllDataFound` states, and one whose data starts at 2^31 or later is not finished, as `FieldFound` states.
- Uninit: requires a data chunk that starts below 2^31 in RIFF and W64 files: beyond that the source's write position leaves the buffer, which its own assertion forbids. `size_t` has 64 bits.
- PatchSizes: requires the same as Uninit.
- MetadataVisited: requires sizes that fit in 32 bits and no empty list entry; with one, `PiecesWhole` shows that a chunk's size is wrong.
- SamplesDecoded: requires blocks made of a header and whole groups. In blocks of another size the source's count of remaining bytes wraps around and the next header is not found.
- MetadataRoundTrip: requires numbers that fit their fields, sizes that fit in 32 bits, no empty list entry, and unknown chunks whose identifiers the reader does not take for something else.
- BextRead: a coding history is taken to be followed by a zero byte, which the source does not set.
- Opens: is about chunks that are whole and fit their sizes; `NoDataRejected` and `WrongExtensionRejected` are about files that are not.
- OpenedFramesDecode: requires blocks of whole groups, and, in a W64 or RF64 file, no count of samples given apart from the data.
- SeekThenRead: is about runs in which reads are complete or reach the end and seeks succeed; `SeekBackHeals` and `SeekForwardLost` are about seeking after a failed read.
- ReleaseStack: the space left that the source reports is not computed.
- FindStack: the space left that the source returns is not computed.
- Morestack: the address of the returned stack and the copy of the parameters onto it are not modelled.
- RunCalls: the thread's exit, if it comes, is the last call; the source leaves its current-segment variable as it is then, since nothing runs on the thread any more.
- Open: the chunk callback and AIFF files are not modelled, and metadata is read apart from it, by `ReadChunks`.
- constructor: the writer's constructor models writing that is not sequential; see below.

Soft float (fp-bit.c):

- The quad format's double-double packing, `NO_DENORMALS`, `QUIET_NAN_NEGATED` and the word-order variants; the quad format is covered by its parameters.
- Exponents are unbounded integers; the shift `FRACBITS | EXPBITS` is modelled as the sum, which it equals in every format modelled.
- Comparisons, conversions to and from integers and negation.

Double words and fixed point (libgcc2.c, fixed-bit.c):

- The longlong.h primitives are modelled by their contracts, with a body that computes the value directly; longlong.h is not part of this model.
- Negation of the least number is modelled as wrap-around, as are signed shifts and additions that C leaves undefined.
- Division by zero; complex arithmetic, `powi`, bit counts and the conversions that use hardware floats.
- FIXED_ASHLHELPER, whose shift by 0 or by the width or more is undefined without a double-width type; addition, subtraction, negation, comparison and conversions.

Emulated thread-local storage (emutls.c):

- Memory is sequentially consistent; the acquire and release orders of the atomic accesses are not distinguished.
- Pointer-size fields do not wrap around. The paths without threads, without thread support, and `__emutls_register_common` are left out, as are the initial contents of blocks.

Split stacks (generic-morestack.c):

- Mapping, unmapping and freeing are recorded, not modelled; their failure, signal masks, guards, the size computed for a new segment and the space left reported by `__generic_releasestack` and `__generic_findstack` are left out. A new segment's size and address are parameters.
- The context functions (`__splitstack_*`).

WAV (dr_wav.h):

- AIFF, stdio, wide characters, allocation callbacks and allocation failure, `onChunk`, big-endian reading, sample conversions to float and 32 bits, MS-ADPCM decoding, and seeks in uncompressed files.
- Sequential writing, whose sizes come from a sample count given in advance.
- Reading metadata is modelled on values, for chunks that are all there and do not claim more than they have; the first of its two stages, which only counts, and the memory the second fills are not modelled.
- The frame count a RIFF file's "fact" chunk gives is never used by the source, which tests the format tag before setting it; the model ignores it too.
- A RIFF data size of 0xFFFFFFFF makes the source read to the end of the stream and leave it there; the model does so too, and says so in `Expected`.
- IMA decoding is modelled for streams whose data starts below 2^31, the reach of the source's first seek.
- Metadata strings and arrays are values, so null pointers are empty ones; the count of a list is that of its sequence; numbers that are floats in the source are their bits.
