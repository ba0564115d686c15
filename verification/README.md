# Multi-precision arithmetic, streams and small protocols of MLdonkey

This project models and proves the parts of the repository that are hardest to get right by eye: the word-array
integers and the stream classes of the bundled Crypto++ subset, the FastTrack keystream cipher, the hashing thread
with its tree hash, the UTF-8 validator and the WinMX codec. `dafny verify dfyconfig.toml` checks everything.

## Word arrays

A `word *` of the program is an offset into one memory `array<Word>` (`Words.dfy`), so overlap of operands is a
statement about offsets, and every method says which words it may change. `Num(s, p, n)` is the number whose `n`
words start at offset `p` of a snapshot. The word width is a constant about which only "at least 8" is known; double
words are numbers below BASE^2, and every wrap-around of the source is written out. `WordArithmetic`,
`Shifts`, `SmallMultiply` and `ColumnMultiply` are the primitives; `Karatsuba`, `HalfProducts`,
`Squaring` and `AsymmetricProducts` the products; `Division` and `LongDivision` the division; `Montgomery`, `MontgomeryArithmetic`,
`AlmostInverses` and `ModularInverse` the modular arithmetic. `Groups` and `WindowExponent` treat exponentiation over
any group whose operations are given as functions; where inversion is not claimed to be fast only the laws of a
monoid are asked for, so the results hold for multiplication modulo any number.

The comment at `RecursiveInverseModPower2` (src/utils/lib/CryptoPP.cc:3539) asks for 3N/2 scratch words; for N = 2 the
code writes a fourth, as `Montgomery.FourthScratchWord` shows. The model follows the code (`Montgomery.InverseScratch`).

## Streams

`BlockQueues` and `BlockFilter` are the buffered-input filter, `ByteQueues` the linked-node queue with its lazy
string, `Cfb` cipher feedback, `BaseN` the encoder and decoder, `IteratedHash` the hash front end. Each object is a
class with the fields of the original, its methods are proved against a specification on byte strings, and the
specification is proved independent of how the input is cut into calls. The virtual functions a derived filter
supplies, the block cipher, and the compression function are parameters or recorded calls.

## Protocols and recognisers

`FastTrack` gives the cipher as a step function on a state and as a class with the arrays of the original; the pad
mixers and MD5 are parameters. `TreeHash` reads a file through a descriptor whose reads may be short or fail as the
system pleases; Tiger is a parameter. `HasherHandoff` is a transition system in which every access to a shared
variable by the client or by the worker is a separate step, and the theorems are about all schedules. `Utf8` proves
the recogniser against the printer of RFC 3629 and against its byte ranges. `WinMx` proves the codec and the exact lengths
on which it is one.

Where a method is proved against a specification function, a law beside it states the same thing without that function,
in numbers and index by index: `FastTrack.StepPad`, `KeystreamRun` and `InitialisedStarts`, `IteratedHash.HashIsDigest`,
`WinMx.EncodedRounds` and `DecodedRounds`, `Utf8.EncodingsAreCharacters`, `TreeHash.RootSplits`, `Cfb.NistByte`, `BaseN.Base64Groups`.

The comment above the filter's callbacks (src/utils/lib/CryptoPP.h:4571-4586) and the code agree for messages that are
never forced (`BlockFilter.DocumentedSizes`). After `ForceNextPut` the documented lower bound on the last part can fail:
`BlockFilter.ShortLastPart` is such a message and `BlockFilter.LowerBoundExactly` the exact condition.

## Model

| member | source | states |
|---|---|---|
| Words.NumInjective | src/utils/lib/CryptoPP.cc:1757-1766 | a number determines its words, so equality of word arrays of one length is equality of numbers |
| WordArithmetic.Compare | src/utils/lib/CryptoPP.cc:1757-1766 | returns the sign of the difference of the two numbers |
| WordArithmetic.Add | src/utils/lib/CryptoPP.cc:2128-2141 | sum plus the returned carry at weight BASE^N is the exact sum, also when the result overlaps an operand from below |
| WordArithmetic.Subtract | src/utils/lib/CryptoPP.cc:2143-2156 | difference minus the returned borrow at weight BASE^N is the exact difference |
| WordArithmetic.Increment | src/utils/lib/CryptoPP.cc:1768-1779 | the carry tells exactly when adding a word leaves the N words |
| WordArithmetic.Decrement | src/utils/lib/CryptoPP.cc:1781-1792 | the borrow tells exactly when subtracting a word leaves the N words |
| WordArithmetic.TwosComplement | src/utils/lib/CryptoPP.cc:1794-1799 | negation modulo BASE^N, zero staying zero |
| WordArithmetic.LinearMultiply | src/utils/lib/CryptoPP.cc:3468-3478 | N words and the returned word are the exact product with a single word |
| WordArithmetic.CopyWords | src/utils/lib/CryptoPP.cc:776-780 | copies the number, also onto an overlapping lower region |
| Shifts.ShiftWordsLeftByBits | src/utils/lib/CryptoPP.cc:794-806 | words and outgoing bits together are the number times 2^k |
| Shifts.ShiftWordsRightByBits | src/utils/lib/CryptoPP.cc:808-820 | words are the number divided by 2^k; the bits dropped come back left-aligned |
| Shifts.ShiftWordsLeftByWords | src/utils/lib/CryptoPP.cc:822-831 | every word moves up by the shift, zeros come in, a shift beyond N clears everything |
| Shifts.ShiftWordsRightByWords | src/utils/lib/CryptoPP.cc:833-842 | every word moves down by the shift, zeros come in |
| Shifts.BitPrecision | src/utils/lib/CryptoPP.h:1875-1893 | the binary search finds the h with 2^(h-1) <= value < 2^h, and 0 for 0 |
| SmallMultiply.Multiply2 | src/utils/lib/CryptoPP.cc:2158-2180 | the comparison-free four-way selection of operand differences yields the full four-word product |
| SmallMultiply.Multiply2Bottom | src/utils/lib/CryptoPP.cc:2182-2187 | the two low words of the product |
| SmallMultiply.Multiply2Add | src/utils/lib/CryptoPP.cc:2189-2214 | adds a two-by-two product to four words, the carry being exact |
| ColumnMultiply.MultiplyUnrolled | src/utils/lib/CryptoPP.cc:2258-2291 | column sums in a three-word accumulator give the full product, for four words as for the eight of lines 2349-2438; the accumulator never overflows |
| ColumnMultiply.MultiplyBottomUnrolled | src/utils/lib/CryptoPP.cc:2440-2507 | the columns below N, the last one without its carries, are the product modulo BASE^N |
| ColumnMultiply.RowsAreProduct | src/utils/lib/CryptoPP.cc:2258-2291 | the column terms of a square array of word products add up to the product of the two numbers |
| Karatsuba.RecursiveMultiply | src/utils/lib/CryptoPP.cc:3240-3303 | for every power-of-two N the result is the 2N-word product; nothing but R and 2N scratch words changes |
| Karatsuba.CrossProduct | src/utils/lib/CryptoPP.cc:3245-3285 | in all nine cases of the two comparisons, wrapped differences and the correction by one operand leave (A1-A0)*(B0-B1), a carry of -1 or 0 included |
| Karatsuba.KaratsubaIdentity | src/utils/lib/CryptoPP.cc:3240-3303 | the cross product and the two half products make up the full product |
| Karatsuba.CombineProducts | src/utils/lib/CryptoPP.cc:3287-3303 | the four additions leave the carry 0, 1 or 2, and the last increment never leaves the result |
| HalfProducts.RecursiveMultiplyBottom | src/utils/lib/CryptoPP.cc:3337-3356 | the product modulo BASE^N from one full and two lower half products |
| HalfProducts.RecursiveMultiplyTop | src/utils/lib/CryptoPP.cc:3364-3436 | given the low N words of the product, exactly its high N words, without the product of the low halves being formed |
| HalfProducts.RecoverMiddle | src/utils/lib/CryptoPP.cc:3405-3424 | the missing words are recovered from the known lower half by three subtractions whose borrows add up |
| HalfProducts.TopIdentity | src/utils/lib/CryptoPP.cc:3405-3434 | the recovered digit, the comparison bit and the running carry are the upper half; the total stays below three times the half scale, so the carry is 0, 1 or 2 |
| AsymmetricProducts.AsymmetricMultiply | src/utils/lib/CryptoPP.cc:3485-3536 | product of operands of different lengths, by interleaved even and odd blocks added once; the short operands 0, 1 and one word included |
| AsymmetricProducts.BlocksAreNumber | src/utils/lib/CryptoPP.cc:3526-3534 | even and odd blocks at their weights are the whole longer operand |
| Squaring.SquareUnrolled | src/utils/lib/CryptoPP.cc:2293-2342 | products of unequal words formed once and added twice, column by column, give the square of two or four words |
| Squaring.ColumnMirrored | src/utils/lib/CryptoPP.cc:2293-2342 | the last terms of a column of a square are its first ones in reverse |
| Squaring.SquareColumn | src/utils/lib/CryptoPP.cc:2293-2342 | a column is twice the terms below the diagonal plus, when even, the one on it |
| Squaring.RecursiveSquare | src/utils/lib/CryptoPP.cc:3305-3328 | for every power-of-two N the 2N-word square, from two half squares and their product added twice; both carries go to the top words |
| Division.DivideThreeWordsByTwo | src/utils/lib/CryptoPP.cc:2016-2052 | quotient word and remainder of three words by two, remainder below the divisor, at most two corrections |
| Division.DivideFourWordsByTwo | src/utils/lib/CryptoPP.cc:2054-2069 | the exact floor of four words by two, where a divisor 0 stands for BASE^2 |
| Division.QuotientProduct | src/utils/lib/CryptoPP.cc:3667-3679 | the estimate times the divisor, built from two-word products |
| Division.CorrectQuotientEstimate | src/utils/lib/CryptoPP.cc:3663-3692 | an underestimate becomes the quotient: no subtraction borrows, the loop ends, remainder below the divisor |
| LongDivision.EstimateDivisor | src/utils/lib/CryptoPP.cc:3733-3738 | the top two divisor words plus one, represented as 0 when that is BASE^2 |
| LongDivision.EstimateRange | src/utils/lib/CryptoPP.cc:3740-3745 | dividing by the top two words plus one never overshoots, and undershoots by less than twice the scale of the window |
| LongDivision.SubtractOnce | src/utils/lib/CryptoPP.cc:3720-3726 | one subtraction of the initial loop keeps dividend and quotient balanced and makes the top part smaller |
| LongDivision.DivideStep | src/utils/lib/CryptoPP.cc:3740-3745 | each two-word step keeps quotient times divisor plus remaining dividend equal to the scaled dividend |
| LongDivision.Divide | src/utils/lib/CryptoPP.cc:3700-3753 | for even NA >= NB and a divisor with one of its two top words nonzero, A = Q*B + R with 0 <= R < B |
| Montgomery.AtomicInverseModPower2 | src/utils/lib/CryptoPP.cc:1801-1812 | the inverse of an odd word modulo BASE, by doubling the number of correct bits from three |
| Montgomery.DoublesPrecision | src/utils/lib/CryptoPP.cc:1805-1810 | one Newton step on wrapped words turns a congruence modulo 2^i into one modulo 2^(2i) |
| Montgomery.RecursiveInverseModPower2 | src/utils/lib/CryptoPP.cc:3542-3565 | U*A = 1 modulo BASE^N for every odd A and power-of-two N |
| Montgomery.FourthScratchWord | src/utils/lib/CryptoPP.cc:3538-3551 | for N = 2 a fourth scratch word is written, one more than the documented 3N/2 |
| Montgomery.MontgomeryReduce | src/utils/lib/CryptoPP.cc:3573-3582 | for X < M*BASE^N the result lies in [0,M) and times BASE^N is congruent to X |
| Montgomery.ReducedUnique | src/utils/lib/CryptoPP.cc:3573-3582 | there is only one such value |
| Montgomery.MontgomeryRoundTrip | src/utils/lib/CryptoPP.h:3743-3746 | converting in, multiplying with reduction and converting out is multiplication modulo M |
| MontgomeryArithmetic.MontgomeryRepresentation.constructor | src/utils/lib/CryptoPP.cc:5279-5288 | computes the inverse of an odd modulus that every operation relies on |
| MontgomeryArithmetic.MontgomeryRepresentation.Create | src/utils/lib/CryptoPP.cc:5279-5288 | an even modulus, and only that, is refused, memory unchanged |
| MontgomeryArithmetic.MontgomeryRepresentation.Multiply | src/utils/lib/CryptoPP.cc:5290-5301 | reduced product of operands of possibly different lengths, one of which may be the previous result |
| MontgomeryArithmetic.MontgomeryRepresentation.ConvertOut | src/utils/lib/CryptoPP.cc:5316-5327 | the reduction of a zero-extended operand |
| MontgomeryArithmetic.MontgomeryRepresentation.MultiplicativeInverse | src/utils/lib/CryptoPP.cc:5329-5350 | r*a is congruent to BASE^(2N), or r is 0 exactly when a and M share a divisor, whatever exponent the almost inverse stopped at |
| MontgomeryArithmetic.MontgomeryRepresentation.Square | src/utils/lib/CryptoPP.cc:5303-5314 | reduced square of an operand below the modulus |
| MontgomeryArithmetic.MontgomeryRepresentation.ModularProduct | src/utils/lib/CryptoPP.cc:5290-5327 | converting two numbers in, multiplying in the ring and converting out leaves exactly x*y mod M |
| MontgomeryArithmetic.MontgomeryRepresentation.ModularReciprocal | src/utils/lib/CryptoPP.cc:5316-5350 | converting in, inverting and converting out leaves the inverse modulo M, or 0 exactly when there is a common divisor |
| MontgomeryArithmetic.RepresentationDivisors | src/utils/lib/CryptoPP.cc:5329-5350 | a number shares a divisor with the odd modulus exactly when its representation does |
| MontgomeryArithmetic.ReciprocalOut | src/utils/lib/CryptoPP.cc:5329-5350 | the ring inverse of a representation, converted out, is the inverse |
| MontgomeryArithmetic.ConvertInRepresents | src/utils/lib/CryptoPP.h:3743-3744 | converting in gives the representation of the residue |
| MontgomeryArithmetic.ReducedProduct | src/utils/lib/CryptoPP.cc:5290-5301 | reduced products of representations represent products |
| MontgomeryArithmetic.ReducedRepresentation | src/utils/lib/CryptoPP.cc:5316-5327 | converting out undoes converting in |
| MontgomeryArithmetic.ScaledInverseRepresents | src/utils/lib/CryptoPP.cc:5329-5350 | the ring inverse of a representation represents the inverse |
| MontgomeryArithmetic.PowersMeet | src/utils/lib/CryptoPP.cc:5345-5348 | dividing by 2^(k-goal) or multiplying by 2^(goal-k) both end at the wanted power of two |
| AlmostInverses.StartKept | src/utils/lib/CryptoPP.cc:3768-3786 | the starting values satisfy the invariant of the loop |
| AlmostInverses.HalvedKept | src/utils/lib/CryptoPP.cc:3808-3820 | taking 2^i off f onto c and k keeps b*g + c*f = M and the congruences with (-1)^s * f * 2^k |
| AlmostInverses.SwappedKept | src/utils/lib/CryptoPP.cc:3834-3839 | exchanging the pairs and flipping s keeps it |
| AlmostInverses.SubtractedKept | src/utils/lib/CryptoPP.cc:3841-3845 | f - g and b + c keep it |
| AlmostInverses.CofactorsBounded | src/utils/lib/CryptoPP.cc:3768-3848 | b and c never exceed the modulus, so they stay within N words |
| AlmostInverses.VanishedKept | src/utils/lib/CryptoPP.cc:3791-3799 | when f vanishes, g divides both numbers |
| AlmostInverses.RoomToGrow | src/utils/lib/CryptoPP.cc:3801-3805 | the cofactor has room whenever its length is about to grow |
| AlmostInverses.AlmostInverse | src/utils/lib/CryptoPP.cc:3768-3848 | ends; the result times A is congruent to 2^k modulo the odd M, or it is 0 with k = 0 and a common divisor is exhibited |
| ModularInverse.DivideByPower2Mod | src/utils/lib/CryptoPP.cc:3854-3869 | the result times 2^k is congruent to the input and below the modulus, the carry of the addition becoming the top bit |
| ModularInverse.MultiplyByPower2Mod | src/utils/lib/CryptoPP.cc:3875-3882 | the input times 2^k modulo the modulus, by doubling and at most one subtraction each time |
| ModularInverse.InverseMod | src/utils/lib/CryptoPP.cc:5077-5100 | for any modulus > 0, odd or even, and any integer: the inverse, or 0 exactly when there is a common divisor above 1; division by zero only for modulus 0 |
| ModularInverse.FromSwapped | src/utils/lib/CryptoPP.cc:5089-5095 | for an even modulus the inverse of M modulo A yields the inverse of A modulo M |
| WindowExponent.WindowSlider.constructor | src/utils/lib/CryptoPP.cc:5509-5519 | starts with the whole exponent as what is left, and the window size for its length |
| WindowExponent.SizeByLength | src/utils/lib/CryptoPP.cc:5512-5516 | the default window size is 1 below 2^17, then one more at 2^17, 2^24, 2^70, 2^197, 2^539 and 2^1434 |
| WindowExponent.WindowSlider.FindNextWindow | src/utils/lib/CryptoPP.cc:5521-5547 | the next odd signed digit and what is left beyond it add up to what was left before; it lies above every earlier window; finished exactly when nothing was left |
| WindowExponent.TakeWindow | src/utils/lib/CryptoPP.cc:5578-5588 | adding the current power or its inverse to the bucket of the window keeps buckets, pending digit and rest equal to the exponent |
| WindowExponent.TakeWindows | src/utils/lib/CryptoPP.cc:5574-5591 | one pass at a bit position; some window is left only below the limit, so the loop ends |
| WindowExponent.SweepIsWeighted | src/utils/lib/CryptoPP.cc:5604-5611 | doubling the sum of the later suffix sums and adding the whole sum weighs bucket j by 2j+1 |
| WindowExponent.SweepBuckets | src/utils/lib/CryptoPP.cc:5600-5613 | the sweep returns the base times the weighted sum of the buckets, a single bucket included |
| WindowExponent.SimultaneousMultiply | src/utils/lib/CryptoPP.cc:5556-5614 | for any list of non-negative exponents, including 0, every result is the base combined that many times; inverses are used only where the group says they are fast |
| Groups.TimesSum | src/utils/lib/CryptoPP.h:3430-3452 | multiples of one element add, with inverses for negative multiples |
| Groups.TimesInverse | src/utils/lib/CryptoPP.h:3430-3452 | the inverse of a multiple is the negative multiple |
| Groups.TimesOnce | src/utils/lib/CryptoPP.h:3430-3452 | the first multiple is the element itself, the second its double, multiple -1 its inverse |
| TreeHash.TreeHasher.ReadLeaf | src/daemon/common/commonHasher_c.c:90-108 | short reads are continued until the leaf is complete; the bytes are those of the file in order; failure only at the end of the file or on an error |
| TreeHash.TreeHasher.TigerTreeFd | src/daemon/common/commonHasher_c.c:87-123 | reads exactly min(block_size, len - pos) bytes, each once and in order, and writes the digest of that segment only where told |
| TreeHash.TreeHasher.HashFile | src/daemon/common/commonHasher_c.c:343-347 | the digest of a file range is the root of its tree; an unfailing descriptor with enough data never fails |
| TreeHash.MergePairs | src/daemon/common/commonHasher_c.c:109-122 | pairing neighbours first does not change what the recursion computes |
| TreeHash.TreeIsRoot | src/daemon/common/commonHasher_c.c:87-123 | the recursive digest is the root built level by level with unpaired nodes promoted (section 2.2 of the THEX draft) |
| TreeHash.BlockSizeIndependent | src/daemon/common/commonHasher_c.c:109-122 | any two admissible starting block sizes give the same digest |
| TreeHash.RootSplits | src/daemon/common/commonHasher_c.c:87-123 | in one piece: up to 1024 bytes h(0, s); beyond, h(1, roots of the first 1024 * 2^k bytes and of the rest), with as many in the first part as leave some over; 24 bytes |
| TreeHash.OneOrTwoLeaves | src/daemon/common/commonHasher_c.c:87-123 | up to 1024 bytes h(0, s); up to 2048 bytes h(1, h(0, first 1024) + h(0, rest)) |
| TreeHash.TigerBlockSize | src/utils/lib/tiger.c:817-822 | the smallest block size 1024*2^k that holds the file |
| HasherHandoff.StepKeeps | src/daemon/common/commonHasher_c.c:291-405 | every step of client or worker, one shared access at a time, keeps mutex, flag, parameters, arguments, result and history consistent |
| HasherHandoff.EveryDeliveryIsCorrect | src/daemon/common/commonHasher_c.c:291-405 | in every interleaving in which a job starts only after the previous one was delivered, deliveries come in order, each with the digest of its own job, each job hashed once, and the worker never exits |
| HasherHandoff.WorkerNeverStuck | src/daemon/common/commonHasher_c.c:317-365 | while a job is pending the worker can move, if only because its timed wait ends |
| HasherHandoff.PendingProgress | src/daemon/common/commonHasher_c.c:317-365 | each move of the worker brings the pending job nearer to its end; polling changes nothing |
| HasherHandoff.PendingJobFinishes | src/daemon/common/commonHasher_c.c:317-365 | any schedule with 35 moves of the worker finishes a pending job on the way, whatever happened to the signal |
| HasherHandoff.OnlyFirstJobWaits | src/daemon/common/commonHasher_c.c:317-405 | in every run a pending job finds the worker waiting, so that only the time-out helps, at most when it is the first job |
| HasherHandoff.LaterJobsNeedNoTimeOut | src/daemon/common/commonHasher_c.c:317-405 | in every run the worker can move by itself while a later job is pending, and is not in its timed wait |
| HasherHandoff.SignalCanBeLost | src/daemon/common/commonHasher_c.c:367-405 | and for the first job it happens: the signal can arrive before the worker waits; then only the time-out lets it find the job |
| HasherHandoff.KnownKinds | src/daemon/common/commonHasher_c.c:328-405 | exactly the kinds 1, 3, 5 and 7 can be started; digests have 16, 16, 20 and 24 bytes |
| BlockQueues.BlockQueue.Put | src/utils/lib/CryptoPP.cc:6601-6610 | appends to the ring, around its end if need be |
| BlockQueues.BlockQueue.GetBlock | src/utils/lib/CryptoPP.cc:6565-6577 | the first block, as one contiguous run of the buffer, or nothing when fewer bytes are held |
| BlockQueues.BlockQueue.GetContigousBlocks | src/utils/lib/CryptoPP.cc:6579-6588 | the longest contiguous run at the front up to the given count, and the exact count |
| BlockQueues.BlockQueue.GetAll | src/utils/lib/CryptoPP.cc:6590-6599 | all bytes in order, from both pieces of the ring |
| BlockQueues.AppendAround | src/utils/lib/CryptoPP.cc:6601-6610 | two copies around the end of the buffer append to the ring |
| BlockFilter.CapacitySuffices | src/utils/lib/CryptoPP.cc:6668 | the ring of (2b+last-2)/b blocks holds b+last-1 bytes, and one block |
| BlockFilter.FilterWithBufferedInput.PutFirst | src/utils/lib/CryptoPP.cc:6657-6673 | the first part has exactly firstSize bytes, and the count passed by reference comes back unchanged |
| BlockFilter.FilterWithBufferedInput.Put | src/utils/lib/CryptoPP.cc:6648-6719 | whatever its length, a piece keeps: bytes handed on plus bytes held are the message so far, middle parts are whole blocks, fewer than blockSize+lastSize bytes are held, at least lastSize once a middle part went out since output was last forced |
| BlockFilter.FilterWithBufferedInput.PutMaybeModifiable | src/utils/lib/CryptoPP.cc:6648-6736 | at the end of a message the calls made for it are complete, and the filter is ready for the next message |
| BlockFilter.FilterWithBufferedInput.EndMessage | src/utils/lib/CryptoPP.cc:6721-6734 | the last part is exactly what was held; the calls made are complete for the message and for where it was last forced |
| BlockFilter.FilterWithBufferedInput.ForceNextPut | src/utils/lib/CryptoPP.cc:6738-6754 | hands on every whole block and loses nothing: what stays held is the message after its first part modulo the block size; before the first part it does nothing |
| BlockFilter.DocumentedSizes | src/utils/lib/CryptoPP.h:4571-4586 | the documented conditions for FirstPut, NextPut and the length given to LastPut, from the total length alone, for messages that were never forced |
| BlockFilter.PartsDetermined | src/utils/lib/CryptoPP.cc:6648-6754 | first part, joined middle parts and last part are functions of the message and of its length when output was last forced, not of how it was cut |
| BlockFilter.LowerBoundExactly | src/utils/lib/CryptoPP.h:4582-4585 | whatever was forced, the last part has at least lastSize bytes exactly when (P - firstSize) mod blockSize + (n - P) >= lastSize, for length n and length P at the last forced output |
| BlockFilter.MiddleExactly | src/utils/lib/CryptoPP.h:4574 | a middle part is handed on exactly when the last part is shorter than what follows the first part |
| BlockFilter.ShortLastPart | src/utils/lib/CryptoPP.h:4561-4563 | 20 bytes and a hard flush, with blocks of 16 and 16 bytes kept back, leave 4 bytes for the last part |
| BlockFilter.Process | src/utils/lib/CryptoPP.cc:6636-6754 | a whole message through a new filter, cut and hard-flushed anywhere |
| ByteQueues.ByteQueue.Put2 | src/utils/lib/CryptoPP.cc:5855-5876 | appends the string, finalizing lazy bytes first; space handed out before is taken over without copying |
| ByteQueues.ByteQueue.LazyPut | src/utils/lib/CryptoPP.cc:5891-5904 | appends the string without copying it, or commits it in place |
| ByteQueues.ByteQueue.LazyPutModifiable | src/utils/lib/CryptoPP.cc:5906-5913 | appends the string without copying it |
| ByteQueues.ByteQueue.UndoLazyPut | src/utils/lib/CryptoPP.cc:5915-5921 | takes that many bytes off the end, or refuses exactly when more than the lazy bytes are asked for |
| ByteQueues.ByteQueue.FinalizeLazyPut | src/utils/lib/CryptoPP.cc:5923-5929 | copies the lazy bytes, the contents staying the same |
| ByteQueues.ByteQueue.Get | src/utils/lib/CryptoPP.cc:5931-5947 | delivers the first byte, or nothing exactly when the queue is empty |
| ByteQueues.ByteQueue.CleanupUsedNodes | src/utils/lib/CryptoPP.cc:5878-5889 | removes used-up front nodes and resets an emptied last one, the contents staying the same |
| ByteQueues.ByteQueue.FrontOnly | src/utils/lib/CryptoPP.cc:5931-5947 | an empty front node means that no node holds anything |
| ByteQueues.ByteQueue.TransferTo2 | src/utils/lib/CryptoPP.cc:5974-5996 | the blocking transfer hands over the front in order, counts it exactly and keeps the rest |
| ByteQueues.ByteQueue.Unget | src/utils/lib/CryptoPP.cc:6021-6035 | puts the string in front, split between the room before the front node and a new node |
| ByteQueues.ByteQueue.Clear | src/utils/lib/CryptoPP.cc:5841-5853 | empties the queue, keeping its first node |
| ByteQueues.ByteQueue.CurrentSize | src/utils/lib/CryptoPP.cc:5826-5834 | the number of bytes in nodes and lazy string |
| ByteQueues.ByteQueue.IsEmpty | src/utils/lib/CryptoPP.cc:5836-5839 | looks at one node only and is right about the whole queue |
| ByteQueues.ByteQueue.Spy | src/utils/lib/CryptoPP.cc:6037-6047 | a prefix of the contents, empty only when the queue is |
| ByteQueues.ByteQueue.CreatePutSpace | src/utils/lib/CryptoPP.cc:6049-6062 | positive room at the end, the contents unchanged |
| ByteQueues.Perform | src/utils/lib/CryptoPP.cc:5841-6035 | each operation refines the same operation on a plain byte sequence |
| ByteQueues.PerformAll | src/utils/lib/CryptoPP.cc:5841-6035 | any list of operations delivers and keeps what the plain sequence does |
| FastTrack.FSTCipher.Init | src/networks/fasttrack/fst_crypt.c:99-189 | success exactly when the pad mixer supports the type; first byte of an all-even pad changed, position from the next seed, the pad sorted and modified index by index, table exchanged 256 times with consecutive seeds or the identity, second pad from twenty seeds |
| FastTrack.FSTCipher.Clock | src/networks/fasttrack/fst_crypt.c:313-406 | in the fields before the call: the sum modulo 256 with the previous byte, the table entry it selects, the pad with that sum, sorted and modified at position 7, mixed at the wrap, and all counters |
| FastTrack.StepOutput | src/networks/fasttrack/fst_crypt.c:320-330 | position and keystream byte of a clock in numbers |
| FastTrack.StepPad | src/networks/fasttrack/fst_crypt.c:320-390 | the pad after a clock: one sum; at position 7 with bits 4 to 6 of it clear, five bytes in ascending order and every third one complemented, its index added, odd; at the wrap six bytes mixed and one bit set |
| FastTrack.StepCounters | src/networks/fasttrack/fst_crypt.c:367-402 | wrap count, table offset and second pad change only at the wrap, as the flags say |
| FastTrack.PadTotals | src/networks/fasttrack/fst_crypt.c:320-327 | up to the next wrap or mangling each byte becomes the sum modulo 256 from the last byte before the run to itself |
| FastTrack.KeystreamRun | src/networks/fasttrack/fst_crypt.c:320-405 | up to the next wrap or mangling byte n of the output is exclusive-ored with the table entry at offset plus that sum |
| FastTrack.FSTCipher.Crypt | src/networks/fasttrack/fst_crypt.c:88-94 | in place, the buffer exclusive-ored with as many keystream bytes |
| FastTrack.SortSorts | src/networks/fasttrack/fst_crypt.c:443-455 | sorting by the comparison routine gives an ascending arrangement |
| FastTrack.SortedUnique | src/networks/fasttrack/fst_crypt.c:443-455 | the comparison routine orders bytes totally, so any sort leaves the same five bytes |
| FastTrack.ClocksCount | src/networks/fasttrack/fst_crypt.c:367-373 | after n clocks position and wrap count are the digits of start + n in base 63, the count modulo 2^32; the table is unchanged |
| FastTrack.LookupOffset | src/networks/fasttrack/fst_crypt.c:375-378 | the table offset equals the wrap count where the type asks for it and stays 0 otherwise |
| FastTrack.ShuffleIsPermutation | src/networks/fasttrack/fst_crypt.c:134-156 | every exchange of the shuffle stays inside the table, which remains a permutation of 0..255 |
| FastTrack.InitialisedStarts | src/networks/fasttrack/fst_crypt.c:99-189 | the start state in numbers, from the pad and the seed the mixers leave |
| FastTrack.IsShuffledTable | src/networks/fasttrack/fst_crypt.c:134-156 | the table is the end of 256 exchanges of entry i with entry i + high half of the next seed * (256 - i) / 65536 |
| FastTrack.FirstEntry | src/networks/fasttrack/fst_crypt.c:145-156 | its first entry is the high byte of the first seed |
| FastTrack.EntryOf0x10000 | src/networks/fasttrack/fst_crypt.c:145-156 | 13 for the word 0x10000 |
| FastTrack.SortKeyIsXor | src/networks/fasttrack/fst_crypt.c:443-455 | the comparison key is the byte with bit 5 inverted |
| FastTrack.InitialisedRun | src/networks/fasttrack/fst_crypt.c:99-189 | whole runs from a successful initialisation: position, wraps, offset and permutation |
| FastTrack.CryptPiecesJoined | src/networks/fasttrack/fst_crypt.c:88-94 | the output does not depend on how the stream is cut into calls |
| FastTrack.DecryptsAnySplitting | src/networks/fasttrack/fst_crypt.c:88-94 | equal ciphers undo each other under any two cuttings |
| FastTrack.AlikeCrypt | src/networks/fasttrack/fst_crypt.c:380-402 | words of the second pad left over from earlier use have no influence when the type does not use them |
| FastTrack.InitialisedPair | src/networks/fasttrack/fst_crypt.c:88-189 | two ciphers initialised with the same seed and type decrypt each other, whatever was left in them before |
| FastTrack.InitThenCrypt | src/networks/fasttrack/fst_crypt.c:88-189 | two cipher objects, whatever was left in them: the type is refused for both or the second gives back what the first was sent, under any two cuttings |
| FastTrack.MangleTwice | src/networks/fasttrack/fst_crypt.c:194-211 | mangling the encryption type twice with the same seed restores it |
| FastTrack.FstCipherMangleEncType | src/networks/fasttrack/fst_crypt.c:194-211 | every bit of the type exclusive-ored with that bit of the eighth of twenty mixed seeds |
| Cfb.CfbCipher.constructor | src/utils/lib/CryptoPP.cc:8689-8699 | key and initial value give the start state; feedback size 0 stands for the block size |
| Cfb.CfbCipher.Create | src/utils/lib/CryptoPP.cc:8938-8943 | a feedback size beyond the block size, and only that, is refused; size 0 stands for the block size; the cipher is in its start state |
| Cfb.CfbCipher.TransformRegister | src/utils/lib/CryptoPP.cc:8919-8924 | the register shifts by the feedback size and takes in encrypted bytes |
| Cfb.CfbCipher.CombineMessageAndShiftRegister | src/utils/lib/CryptoPP.cc:8811-8828 | output and feedback for encryption and decryption, also when the output overwrites the input |
| Cfb.CfbCipher.ProcessData | src/utils/lib/CryptoPP.cc:8757-8809 | a call of any length continues the byte machine exactly where the last one stopped |
| Cfb.OutputIsNist | src/utils/lib/CryptoPP.cc:8757-8828 | the byte machine computes the segments of section 6.3 of NIST SP 800-38A |
| Cfb.NistByte | src/utils/lib/CryptoPP.cc:8757-8828 | each output byte in one piece: the message byte exclusive-ored with its byte of the encryption of the last block of initial value and ciphertext segments before it |
| Cfb.PiecesAreNist | src/utils/lib/CryptoPP.cc:8757-8828 | any cutting of the message gives the result of the standard |
| Cfb.DecryptsBytes | src/utils/lib/CryptoPP.cc:8811-8828 | encrypting and decrypting registers are equal after equal byte counts |
| Cfb.DecryptsAnySplitting | src/utils/lib/CryptoPP.cc:8757-8828 | decryption inverts encryption for any two cuttings |
| Cfb.EncryptThenDecrypt | src/utils/lib/CryptoPP.cc:8689-8828 | two cipher objects: what is sent is the ciphertext of the standard, and the message comes back, under any two cuttings |
| BaseN.OutputBlockSize | src/utils/lib/CryptoPP.cc:8076-8079 | the loop finds the least common multiple of the two group sizes |
| BaseN.BaseNEncoder.AddBits | src/utils/lib/CryptoPP.cc:8092-8112 | one pass of the inner loop moves bits from the source byte to the current character without changing the bit string |
| BaseN.BaseNEncoder.Put | src/utils/lib/CryptoPP.cc:8079-8130 | characters so far and the unfinished one hold exactly the bits of the bytes so far |
| BaseN.BaseNEncoder.MessageEnd | src/utils/lib/CryptoPP.cc:8131-8149 | the text is the groups of the message, the last filled with zero bits, padded to a block where padding is set |
| BaseN.BaseNDecoder.Put | src/utils/lib/CryptoPP.cc:8171-8206 | values of alphabet characters are collected bit by bit, all other characters skipped |
| BaseN.BaseNDecoder.MessageEnd | src/utils/lib/CryptoPP.cc:8207-8213 | the whole bytes among the bits; fewer than eight bits are dropped |
| BaseN.DecodingLookup | src/utils/lib/CryptoPP.cc:8215-8233 | each alphabet character, and its other case where case does not count, maps to its value, everything else to -1 |
| BaseN.LookupInverts | src/utils/lib/CryptoPP.cc:8215-8233 | such a table inverts the alphabet |
| BaseN.SameCharacter | src/utils/lib/CryptoPP.cc:8219-8232 | two characters are the same when equal, or where case does not count when 32 apart inside the ASCII letters |
| BaseN.EncodingUnique | src/utils/lib/CryptoPP.cc:8079-8149 | the groups are determined by the bytes |
| BaseN.Base64Groups | src/utils/lib/CryptoPP.cc:8079-8149 | the groups of three bytes in base 64, in numbers, from the most significant bit on (section 4 of RFC 4648) |
| BaseN.DecodesEncoded | src/utils/lib/CryptoPP.cc:8171-8213 | for every group size from 1 to 7 the groups of an encoding decode to the bytes |
| BaseN.RoundTrip | src/utils/lib/CryptoPP.cc:8171-8213 | any text with the encoder output characters in order, padding and other non-alphabet characters in between, decodes to the original (section 4 of RFC 4648 for Base64) |
| BaseN.EncodeThenDecode | src/utils/lib/CryptoPP.cc:8058-8233 | encoder, any channel that delivers the characters of the alphabet in order, decoding table and decoder: the message comes back, however either side is cut |
| BaseN.OnlyAlphabetCounts | src/utils/lib/CryptoPP.cc:8171-8181 | characters outside the alphabet change nothing |
| BaseN.EncodeAll | src/utils/lib/CryptoPP.cc:8079-8149 | any cutting of the message gives its encoded text |
| BaseN.DecodeAll | src/utils/lib/CryptoPP.cc:8171-8213 | any cutting of the text gives its decoding |
| IteratedHash.Hasher.Update | src/utils/lib/CryptoPP.cc:7048-7102 | compressed blocks, left-over bytes and both counters stay those of the message so far |
| IteratedHash.Hasher.PadLastBlock | src/utils/lib/CryptoPP.cc:7125-7138 | marker and zeros up to the length field, in one block or two |
| IteratedHash.Hasher.TruncatedFinal | src/utils/lib/CryptoPP.h:5611-5626 | the digest after compressing the message, 0x80, fewer zeros than a block, and the bit length in two words of the byte order of the hash, in whole blocks; the hasher starts again |
| IteratedHash.HashIsDigest | src/utils/lib/CryptoPP.h:5611-5626 | the hash is the digest of the compressed message, marker, zeros and length field, each byte of the field in numbers |
| IteratedHash.CompletionUnique | src/utils/lib/CryptoPP.h:5611-5626 | zeros and length field are determined by the length of the message |
| IteratedHash.CompressedInOrder | src/utils/lib/CryptoPP.cc:7048-7102 | blocks are compressed in order, each into the state the ones before it left |
| IteratedHash.CountUp | src/utils/lib/CryptoPP.cc:7050-7053 | the carry found by comparison, and the shifted length, keep the pair of counters the byte count modulo the square of the word modulus |
| IteratedHash.BitCount | src/utils/lib/CryptoPP.h:5540-5541 | the two expressions are the words of the bit count |
| IteratedHash.LengthFromWords | src/utils/lib/CryptoPP.h:5618-5619 | the two words in the byte order of the hash are the length field (section 4 of RFC 3174; section 3.2 of RFC 1320) |
| IteratedHash.PaddedLength | src/utils/lib/CryptoPP.cc:7125-7138 | padding fills whole blocks |
| IteratedHash.HashPieces | src/utils/lib/CryptoPP.cc:7048-7102 | any cutting of a message gives the digest of the message completed in this way |
| Utf8.DecodedIsEncoding | src/utils/lib/charsetstubs.c:104-163 | what the macros accept is the encoding of a valid code point: no overlong, surrogate, noncharacter or five- and six-byte form passes |
| Utf8.UnicodeValid | src/utils/lib/charsetstubs.c:159-163 | exactly the code points up to 0x10FFFF without 0xD800-0xDFFF, 0xFDD0-0xFDEF and those ending in FFFE or FFFF |
| Utf8.EncodingsAreCharacters | src/utils/lib/charsetstubs.c:104-163 | the encodings are exactly the strings that split into the byte ranges of section 4 of RFC 3629 without NUL and noncharacters |
| Utf8.EncodingIsDecoded | src/utils/lib/charsetstubs.c:104-163 | every encoding is accepted, whatever follows |
| Utf8.GetCodePoint | src/utils/lib/charsetstubs.c:143-155 | gathers the payload bits, which never reach the value that marks a failure |
| Utf8.EncodeAllInjective | src/utils/lib/charsetstubs.c:176-236 | the code points of a string are unique |
| Utf8.StopsAtLongest | src/utils/lib/charsetstubs.c:190-222 | where the loop stops, no longer prefix is an encoding |
| Utf8.Utf8Validate | src/utils/lib/charsetstubs.c:176-236 | true exactly when the string splits into the byte ranges of section 4 of RFC 3629 without NUL and noncharacters, which are the encodings of valid code points; the end marks the longest such prefix; NULL is refused |
| WinMx.WinmxEncode | src/networks/opennap/winmx_xor_c.c:5-18 | five strings in turn, in place: first byte exclusive-ored with the last one, in the first round with the length, every other byte with the new one before it |
| WinMx.WinmxDecode | src/networks/opennap/winmx_xor_c.c:21-37 | five strings in turn, in place: every byte but the first exclusive-ored with the old one before it, the first with the new last byte, in the last round with the length |
| WinMx.EncodedRounds | src/networks/opennap/winmx_xor_c.c:10-17 | the encoding is reached through five strings, each round stated index by index, counters 4 down to 0 |
| WinMx.DecodedRounds | src/networks/opennap/winmx_xor_c.c:27-34 | the decoding is reached through five strings, counters 0 up to 4 |
| WinMx.RoundsInvert | src/networks/opennap/winmx_xor_c.c:10-34 | each decoding round inverts its encoding round and the reverse, for two bytes or more |
| WinMx.RoundTripExactly | src/networks/opennap/winmx_xor_c.c:10-34 | the codec gives a buffer back exactly when it has at least two bytes, or one byte of one particular value |
| WinMx.OneByte | src/networks/opennap/winmx_xor_c.c:10-34 | a single byte is always encoded to 0 and decoded to 1 |
| WinMx.ThreeBytes | src/networks/opennap/winmx_xor_c.c:5-37 | the bytes 1, 2, 3 become 2, 3, 2 and back |
| Bytes.XorAt | src/networks/opennap/winmx_xor_c.c:12-15 | bit i of an exclusive or of bytes is set when it is set in exactly one of them |
| Bytes.OrAt | src/networks/fasttrack/fst_crypt.c:121 | bit i of an inclusive or of bytes is set when it is set in one of them |

## Left out

- Squaring.SquareUnrolled: `Square2` and `Square4` as one loop over columns, with the first and last columns ordinary ones; `Square8` has no portable version.
- HalfMontgomeryReduce and the assembly and SSE2 variants of the word primitives: the portable code is modelled.
- ColumnMultiply.MultiplyUnrolled: models the unrolled column code of `Multiply4` and `Multiply8` as one loop over columns for up to eight words; the first and last columns, which the source writes without an accumulator step, are ordinary columns here.
- DWord arithmetic: the class of two half-word products on 64-bit platforms; a double word is a number below BASE^2 with explicit wrap-around.
- Separate allocations: all word operands lie in one memory, so results also cover overlapping operands the original never passes; operands in different allocations are disjoint regions.
- ModularInverse.InverseMod: an Integer is its value; sign-magnitude registers, their growth and word counts are not modelled, only the rounding of register sizes to an even number of words.
- MontgomeryArithmetic.MontgomeryRepresentation.Multiply: asks that one of the operands be below the modulus and that register sizes be powers of two, which is what ring elements and register rounding guarantee.
- WindowExponent.SimultaneousMultiply: elements are values and group operations functions; the original returns references to a result object that the next call overwrites. `CascadeScalarMultiply` is not modelled.
- TreeHash.TreeHasher.TigerTreeFd: lengths are unbounded integers; 64-bit and size_t wrap-around of lengths near the type's limit is not modelled.
- HasherHandoff: one shared access per step in program order; reordering of volatile accesses by hardware is not modelled, a failing file read in the worker ends the program there and is not modelled, and the file contents of a job are taken as fixed.
- BlockFilter: non-blocking calls, which throw, the signals after a message, and writing by the derived filter into modifiable input.
- BlockFilter.FilterWithBufferedInput.Put: input is a value, so the bytes a modifiable put may change are not represented.
- ByteQueues.ByteQueue.TransferTo2: the blocking transfer only; targets do not write into the memory handed to them. Walker, copying and comparison of queues are left out.
- ByteQueues.ByteQueue.Put2: node sizes are positive; `Initialize` with node size 0 on an automatically growing queue is excluded.
- FastTrack: the pad mixers, their integer helper and MD5 are functions given from outside; byte order reversal on big-endian machines is part of them.
- Cfb: policies that iterate over several blocks at once, keys and parameters.
- Cfb.CfbCipher.ProcessData: output may be the input itself or another buffer, not a shifted overlap.
- BaseN: the non-blocking resume points of the filter, `Grouper`, and parameter parsing.
- IteratedHash.Hasher.Update: lengths are unbounded integers, so sums of unsigned lengths do not wrap; writing through `CreateUpdateSpace` is not modelled.
- IteratedHash.Hasher.TruncatedFinal: a size above the digest size, which throws, is excluded.
- Utf8.Utf8Validate: the test `max_len < 0` of the source is never true for its unsigned type, so strings without a length are not modelled.
- WinMx.WinmxEncode: an empty buffer is excluded; the source would index before it.
- Object lifetimes, allocators, exceptions as control flow, operating system calls, OCaml marshalling and the user interface.
