# A verified model of the vendored compression, checksum and random-number code

The game server carries bzip2, zlib and the PCG generators under `dep/`. This project models
their algorithms in Dafny and proves what they are for. Operations that update state in place
are classes and methods over arrays; each is proved against a specification function, and the
laws are lemmas about those functions.

**bzip2.** One block goes through a run-length stage, the Burrows-Wheeler sort, move-to-front
with coded runs, and Huffman codes, and back.

- The sort by both algorithms. `BzFallbackSort` is the exponential radix sort, with the
  three-way quicksort of `BzQSort3`. The main sort is `BzMainCompare` (comparison with cached
  ranks), `BzMainSimple` and `BzMainQSort3` (string quicksort), `BzMainBuckets` (two-byte
  radix), `BzMainScan` and `BzMainCopy` (pointer scan) and `BzMainSort`. Both end with a
  permutation in the order of the rotations, periodic blocks included.
- `BzInverseBwt` and `BzTVector`: the inverse transform for every sorted order, and its two
  memory layouts.
- `BzMtf`, `BzMtfEncode`, `BzMtfTable`, `BzMtfDecode`: move-to-front, the run digits, the
  in-place encoder over shared memory, the floating table of the decoder.
- `BzKraft`, `BzHuffmanOptimal`, `BzHuffmanLengths`, `BzHuffmanCodes`: code lengths by joining the two
  lightest trees, which no lengths that fit together undercut, the Fibonacci depth bound, canonical
  codes, decoding tables.
- `BzBitStream`, `BzFormat`, `BzChoose`, `BzSend`, `BzReceive`, `BzBlock`: the choice of the coding
  tables by cost, and the bits of a block, written and read back. The reader takes its input in pieces, one for each
  call; that the source finds its variables as it left them is taken for granted.
- `BzRunLength`, `BzCompressor`, `BzUnRle`: the run-length stage as a resumable machine, and
  the two output loops of the decoder. `BzRoundTrip` puts the parts together: compressed, cut
  into any pieces, decompressed by either layout and expanded into any output space.

**zlib.** `DeflateHash`, `DeflateChains`, `DeflateTokens`, `DeflateMatch`, `DeflateChoice` and `Deflate`
model the LZ77 engine of RFC 1951, section 4. The chains stay an exact index into the sliding window:
following one comes to the earlier positions with the same hash and to no others. `longest_match` finds
the nearest of the longest strings the links allowed lead to, or the first that is long enough. Of every
token `DeflateChoice` says, in terms of the data alone, why it is a match, a literal, or was put off for a
longer match one byte further on; the tokens replay to the input. `InflateBack` is the match copy through
the circular window (section 3.2.3 of RFC 1951). `Adler32` is the checksum of RFC 1950, section 8.2. `Gf2`,
`Crc32Poly`, `Crc32Square`, `Crc32`, `Crc32Braid` are the CRC of RFC 1952, section 8, with the
braided loop and the combination of checksums.

**PCG.** `PcgLcg`, `PcgDistance`, `PcgOutput`: jumping ahead, the distance between two states,
and the invertible output function.

`ByteType`, `Bits`, `ByteIndex` and `Rearranging` hold bytes, words, byte counters and
rearrangements of a stretch of a sequence.

## Reading the model

- Machine words are naturals or bit vectors of the source's width; wrap-around, truncation and
  shifts are written out. Positions in the deflate window are indices into the window plus the
  absolute position of its first byte.
- Comparing rotations, `LessUpTo` and `EqUpTo` look at the first bytes only; `Leq` looks at a
  whole turn. Equal rotations of a periodic block may come in any order, as in the source.
- Of the LZ77 engine three ghost fields are kept: `known`, the positions inserted so far; `ends`, where the
  input ended when a call asked for all of it to come out; and `log`, the searches behind each token. A
  position is late if it is one of the last two before such an end: there are not three bytes for it yet.
- What the environment does is a parameter or a choice: input chunks, output space, whether
  the caller's write function fails, how many bytes the block coder puts out.

## Results that differ from what one might expect

- `adler32_z` does not reduce the second sum of a one-byte buffer fully when the starting value
  was out of range; `Adler32.UnreducedExactly` and `Adler32.Adler32Z` say exactly when, and
  `Adler32.UnreducedExample` is such an input. The documentation promises the plain checksum.
- `adler32_combine` reduces fully exactly when its sums lie within reach of its conditional
  subtractions (`Adler32.Combine`); reduced checksums always do (`Adler32.ReducedFolds`), two words
  of ones do not (`Adler32.BeyondExample`).
- The loop of `x2nmodp` never ends for a negative length, which `z_off64_t` admits
  (`Crc32Braid.HalvingEnds`); `adler32_combine` refuses such lengths.
- `BZ2_bzCompress` answers a legal finish with a sequence error if and only if there is no output
  space and either a block still waits to come out or there is no input left. In the latter case it
  may have closed the last block in that very call: `BzCompressor.FinishWithoutSpace` is such a call.
  With output space a finish never fails (`BzCompressor.EState.BzCompress`).
- `BZ2_decompress` takes any positive number of selectors up to 32767 and stores them in arrays of
  18002. Its stores stay inside if and only if the stream does not announce more and hold at least
  18003 of them (`BzReceive.ReadSelectors`); `BzReceive.OverrunExample` is a stream that does. What
  is said of the decoders holds up to the first store outside, which the model reports as `Overrun`;
  no accepted block has one, and no block that was compressed here either.
- The two output loops find a block that has lost its count at different times: the fast one with
  the last byte of output, the small one only when there is space for another
  (`BzUnRle.DState.Deliver`, `BzRoundTrip.Undo`).
- A block that ends after four equal bytes has lost its count: both decoders report it as
  corrupt (`BzRunLength.CorruptExample`, `BzUnRle.BlockComesOut`).
- `backstep` undoes `advance` for all states and distances exactly when the multiplier is odd
  (`PcgLcg.BackstepUndoes`, `PcgLcg.EvenCollides`).
- An MCG reaches exactly the states with the same two low bits (`PcgDistance.Reachable`);
  `distance` needs that of its arguments.
- A comparison of the main sort may answer either way for equal rotations, because their cached
  ranks differ; it never answers against the order (`BzMainCompare.GtU`).

## Model

| member | source | states |
|---|---|---|
| `Adler32.Adler32Z` | dep/zlib/adler32.c:63-131 | on every buffer the result is the sums modulo 65521 byte by byte, packed; NULL gives 1; when the one-byte path leaves a sum unreduced is stated exactly |
| `Adler32.Stretch` | dep/zlib/adler32.c:114-127 | up to NMAX bytes are added without reduction and without overflow of 32 bits |
| `Adler32.ShortBuffer` | dep/zlib/adler32.c:90-100 | under 16 bytes one subtraction and one remainder reduce fully |
| `Adler32.LongBuffer` | dep/zlib/adler32.c:102-130 | all stretches together give the reduced sums of the whole buffer |
| `Adler32.NoOverflow` | dep/zlib/adler32.c:12-14 | neither sum leaves 32 bits within NMAX bytes |
| `Adler32.NmaxIsLargest` | dep/zlib/adler32.c:12-14 | 5552 is the largest count for which that holds for all bytes and all reduced starts |
| `Adler32.WorstCase` | dep/zlib/adler32.c:12-14 | what the worst bytes add up to |
| `Adler32.FeedAppend` | dep/zlib/adler32.c:63-131 | a buffer may be fed in parts |
| `Adler32.UnreducedExactly` | dep/zlib/adler32.c:75-84 | the packed result is the reduced one if and only if both sums are below the base |
| `Adler32.UnreducedExample` | dep/zlib/adler32.c:75-84 | an input whose checksum is not the reduced one: start 65535 * 65536 + 65520, one zero byte |
| `Adler32.DivisionFree` | dep/zlib/adler32.c:27-56 | the division-free MOD28, MOD and MOD63 equal the remainder on their ranges |
| `Adler32.Fold` | dep/zlib/adler32.c:164-167 | the conditional subtractions reduce sums below three and four times the base, and from there on leave one base too much |
| `Adler32.Combine` | dep/zlib/adler32.c:143-169 | negative lengths give all ones; for any two checksum words the result is the reduced combination if and only if the sums lie within reach of the conditional subtractions |
| `Adler32.ReducedFolds` | dep/zlib/adler32.c:143-169 | checksums with reduced halves always do |
| `Adler32.BeyondExample` | dep/zlib/adler32.c:143-169 | two words for which they do not |
| `Adler32.CombineIsConcat` | dep/zlib/adler32.c:143-169 | combining the checksums of two buffers gives the checksum of their concatenation |
| `PcgLcg.Advance` | dep/PCG/pcg_random.hpp:643-669 | the logarithmic jump equals delta single steps |
| `PcgLcg.WalkAdd` | dep/PCG/pcg_random.hpp:643-669 | jumping ahead twice is one jump by the sum |
| `PcgLcg.WalkPow2` | dep/PCG/pcg_random.hpp:655-668 | squaring multiplier and increment is stepping twice as far, any number of times |
| `PcgLcg.FullTurn` | dep/PCG/pcg_random.hpp:457-465 | 2^n steps lead back for every odd multiplier |
| `PcgLcg.BackstepUndoes` | dep/PCG/pcg_random.hpp:462-465 | advancing by the negated distance undoes advancing, for all states, if and only if the multiplier is odd |
| `PcgLcg.EvenCollides` | dep/PCG/pcg_random.hpp:462-465 | for an even multiplier two states have the same successor |
| `PcgDistance.Distance` | dep/PCG/pcg_random.hpp:674-693 | terminates with its assertion holding and returns the number of steps from one state to the other, also under a mask; for full-period parameters and for MCGs |
| `PcgDistance.DistanceUnique` | dep/PCG/pcg_random.hpp:674-693 | no other number of steps below the period leads there |
| `PcgDistance.Reachable` | dep/PCG/pcg_random.hpp:674-693 | a state can be reached if and only if, for an MCG, its two low bits agree |
| `PcgDistance.NoEarlyReturn` | dep/PCG/pcg_random.hpp:674-693 | no state recurs before the full period |
| `PcgDistance.PlusPowExact` | dep/PCG/pcg_random.hpp:682-691 | 2^k steps add an odd multiple of 2^k |
| `PcgDistance.MultPowExact` | dep/PCG/pcg_random.hpp:682-691 | 2^k steps of an MCG multiply by 1 + 2^(k+2) modulo 2^(k+3) |
| `PcgDistance.Engine.constructor` | dep/PCG/pcg_random.hpp:484-501 | seeding; an MCG state keeps the seed above its two low bits, which become 3 |
| `PcgDistance.Engine.BaseGenerate` | dep/PCG/pcg_random.hpp:418-421 | one step, the new state returned |
| `PcgDistance.Engine.BaseGenerate0` | dep/PCG/pcg_random.hpp:423-428 | one step, the old state returned |
| `PcgDistance.Engine.Advance` | dep/PCG/pcg_random.hpp:457-460 | the state after delta steps |
| `PcgDistance.Engine.Backstep` | dep/PCG/pcg_random.hpp:462-465 | delta steps from the new state lead to the old one |
| `PcgDistance.Engine.DistanceTo` | dep/PCG/pcg_random.hpp:451-454 | that many steps lead to the given state |
| `PcgOutput.UnXorShiftLeft` | dep/PCG/pcg_extras.hpp:263-281 | unxorshift undoes the xorshift, for every width and shift |
| `PcgOutput.UnXorShiftRight` | dep/PCG/pcg_extras.hpp:263-281 | and the other way round |
| `PcgOutput.OutputInvertible` | dep/PCG/pcg_random.hpp:945-986 | output and unoutput are mutually inverse whenever their multipliers are |
| `PcgOutput.RxsMXsInvertible` | dep/PCG/pcg_random.hpp:927-986 | they are for the multipliers of all five state widths |
| `PcgOutput.Output32` | dep/PCG/pcg_random.hpp:945-963 | the output for 32 bits in its literal shifts and multiplier: 4 plus the top four bits, 277803737, 22 |
| `PcgOutput.Output64` | dep/PCG/pcg_random.hpp:945-963 | and for 64 bits: 5 plus the top five, 43 |
| `Crc32Braid.MultModP` | dep/zlib/crc32.c:542-560 | the product modulo p(x); the loop ends for every nonzero factor |
| `Crc32Poly.TimesIsProduct` | dep/zlib/crc32.c:542-560 | that product is the product of polynomials over GF(2) modulo p(x) |
| `Crc32Poly.TimesUnique` | dep/zlib/crc32.c:542-560 | and the only register with that property |
| `Crc32Poly.PolyX` | dep/zlib/crc32.c:542-560 | the shift step is multiplication by x modulo p(x) |
| `Crc32Poly.XPowNonzero` | dep/zlib/crc32.c:562-580 | no power of x times a nonzero register is zero |
| `Crc32Poly.PowerTimes` | dep/zlib/crc32.c:562-580 | multiplying by the register x^n is n shift steps |
| `Crc32Square.X2nPeriod` | dep/zlib/crc32.c:566-580 | the table of squares has period 32, so k & 31 is a legal index for every length |
| `Crc32Braid.Tables.X2NModP` | dep/zlib/crc32.c:566-580 | x^(n*2^k) modulo p(x) for every n not negative, never zero |
| `Crc32Braid.HalvingEnds` | dep/zlib/crc32.c:574-578 | the loop of x2nmodp ends if and only if the length is not negative |
| `Crc32Braid.Tables.FillPowers` | dep/zlib/crc32.c:289-293 | the table of x^(2^k) |
| `Crc32Braid.Tables.FillBytes` | dep/zlib/crc32.c:278-287 | the byte table |
| `Crc32Braid.Tables.FillBraids` | dep/zlib/crc32.c:505-522 | every braid row carries a byte over the words of the other braids |
| `Crc32Braid.Tables.CrcWord` | dep/zlib/crc32.c:717-724 | the register after one word |
| `Crc32Braid.Tables.BraidLoop` | dep/zlib/crc32.c:805-905 | N interleaved words at a time give the same register as byte by byte, for every N and word size of at least four bytes |
| `Crc32Braid.Tables.Crc32Z` | dep/zlib/crc32.c:739-1058 | the CRC of every buffer, whatever its alignment, also as the remainder that RFC 1952 defines, conditioned with ffffffff before and after; NULL gives 0 |
| `Crc32Braid.Tables.Combine64` | dep/zlib/crc32.c:1072-1081 | the combination formula, for every length not negative |
| `Crc32Braid.CombineIsConcat` | dep/zlib/crc32.c:1072-1081 | the CRCs of two buffers combine to the CRC of their concatenation |
| `Crc32Braid.CombineAssoc` | dep/zlib/crc32.c:1072-1081 | of three checksums it does not matter which two are combined first |
| `Crc32Braid.CrcAppend` | dep/zlib/crc32.c:739-1058 | a buffer may be fed in parts |
| `Crc32Braid.CrcIsRemainder` | dep/zlib/crc32.c:739-1058 | the CRC is the remainder of the message shifted by 32 plus the start, the ones before and after included |
| `Crc32Braid.CrcUnique` | dep/zlib/crc32.c:739-1058 | and the only word that is |
| `Crc32Braid.CrcOfZero` | dep/zlib/crc32.c:739-1058 | one zero byte has the CRC d202ef8d |
| `Crc32Braid.BraidWords` | dep/zlib/crc32.c:827-883 | one round over all braids keeps the combined value |
| `Crc32.RawLinear` | dep/zlib/crc32.c:1039-1054 | the register is linear in its starting value |
| `Crc32.Absorb` | dep/zlib/crc32.c:827-905 | starting from a register is adding it to the first bytes of the input |
| `Crc32.RawIsRemainder` | dep/zlib/crc32.c:1039-1057 | the register is the remainder of the message polynomial, shifted by 32, plus the shifted start |
| `BzRotation.Trichotomy` | dep/bzip2/blocksort.c:211-329 | exactly one of less, equal and greater, on any number of bytes |
| `BzRotation.LessSplit` | dep/bzip2/blocksort.c:259-313 | the order on g + h bytes from the order on g bytes and the order g places further on |
| `BzRotation.LessForever` | dep/bzip2/blocksort.c:311-313 | a whole turn decides |
| `BzQSort3.SimpleSort` | dep/bzip2/blocksort.c:30-59 | a rearrangement of the range, sorted by class |
| `BzQSort3.Partition` | dep/bzip2/blocksort.c:132-160 | three-way partition: equal keys at both ends, smaller and larger between |
| `BzQSort3.Gather` | dep/bzip2/blocksort.c:162-170 | the equal keys come to the middle |
| `BzQSort3.SortSpan` | dep/bzip2/blocksort.c:113-170 | a popped range is sorted or divided around a pivot that occurs in it |
| `BzQSort3.StackFits` | dep/bzip2/blocksort.c:109-113 | the stack never holds more than 29 ranges, so assertion 1004 holds |
| `BzQSort3.QSort3` | dep/bzip2/blocksort.c:92-180 | permutes only its range and sorts it by class |
| `BzFallbackSort.FirstPass` | dep/bzip2/blocksort.c:225-245 | after the byte radix sort the header bits mark the classes of rotations equal on one byte |
| `BzFallbackSort.RefineClass` | dep/bzip2/blocksort.c:294-305 | one class sorted by the class of the next H bytes and divided where that changes |
| `BzFallbackSort.RefineAll` | dep/bzip2/blocksort.c:273-306 | one pass: classes equal on H bytes become classes equal on 2H bytes, in order |
| `BzFallbackSort.RefineDepths` | dep/bzip2/blocksort.c:259-313 | doubling H ends with all rotations in order |
| `BzFallbackSort.SkipSet` | dep/bzip2/blocksort.c:277-284 | the word-wise scan stops at the first clear bit |
| `BzFallbackSort.SkipClear` | dep/bzip2/blocksort.c:286-291 | the word-wise scan stops at the first set bit |
| `BzFallbackSort.DoubledBy` | dep/bzip2/blocksort.c:259-313 | equal on h bytes: the class of the next h bytes decides on 2h bytes |
| `BzFallbackSort.WholeTurnSorted` | dep/bzip2/blocksort.c:311-313 | classes refined beyond a whole turn leave only equal rotations together |
| `BzFallbackSort.Rebuild` | dep/bzip2/blocksort.c:315-328 | the overwritten block is rebuilt from the order and the byte counts; assertion 1005 holds |
| `BzFallbackSort.FallbackSort` | dep/bzip2/blocksort.c:211-329 | the rotations in order; the block as it was |
| `BzFallbackSort.FindOrigin` | dep/bzip2/blocksort.c:1083-1088 | the row of the block itself; assertion 1003 holds |
| `BzMainCompare.PlaceOrder` | dep/bzip2/blocksort.c:964-985 | rotations are ordered as their places are |
| `BzMainCompare.GtU` | dep/bzip2/blocksort.c:345-469 | yes only if the first does not come before the second, no only if it does not come after it; no read goes past block[nblock+33]; of the budget it takes exactly one unit for every round of eight bytes and ranks that agree after the first twelve bytes |
| `BzMainCompare.SpentRepeats` | dep/bzip2/blocksort.c:464-466 | so it is touched only if two different rotations agree on twenty bytes |
| `BzMainCompare.AlongRank` | dep/bzip2/blocksort.c:413-467 | different cached ranks at equal bytes decide the order |
| `BzMainCompare.RestDecides` | dep/bzip2/blocksort.c:345-469 | after equal bytes the order of what follows is the order of the whole |
| `BzMainSimple.InsertBack` | dep/bzip2/blocksort.c:510-522 | an insertion rearranges; with gap one it keeps the part before it in order; the budget stays whole unless two rotations agree on twenty bytes |
| `BzMainSimple.SimpleSort` | dep/bzip2/blocksort.c:484-555 | rearranges its range; in order if the budget lasts, as it does unless two rotations agree on twenty bytes |
| `BzMainQSort3.Med3` | dep/bzip2/blocksort.c:581-592 | the median of three bytes |
| `BzMainQSort3.PartitionBytes` | dep/bzip2/blocksort.c:661-687 | three-way partition by the byte at offset d |
| `BzMainQSort3.DivideJob` | dep/bzip2/blocksort.c:656-704 | a range is found equal at offset d, or divided into three that together replace it |
| `BzMainQSort3.Replaced` | dep/bzip2/blocksort.c:691-715 | replacing a range by its parts keeps every other pair in order or together in one range |
| `BzMainQSort3.StackedPush` | dep/bzip2/blocksort.c:702-716 | the order of pushing keeps the stack below its capacity, so assertion 1001 holds |
| `BzMainQSort3.PartsEffort` | dep/bzip2/blocksort.c:691-715 | dividing is progress although the equal part may be the whole range |
| `BzMainQSort3.QSort3` | dep/bzip2/blocksort.c:620-717 | permutes only its range; in order if the budget lasts, as it does unless two rotations agree on twenty bytes |
| `BzMainBuckets.CountPairs` | dep/bzip2/blocksort.c:769-798 | counts of all byte pairs, ranks cleared, the first 34 bytes repeated |
| `BzMainBuckets.PlacePairs` | dep/bzip2/blocksort.c:802-830 | the pointers are a permutation and stand in the small buckets of their first two bytes; ftab holds the bucket starts |
| `BzMainBuckets.AllSorted` | dep/bzip2/blocksort.c:862-1006 | with every small bucket in order all rotations are |
| `BzMainScan.PredsMember` | dep/bzip2/blocksort.c:918-935 | what is copied for [t, ss] is exactly the rotations one place before the scanned ones that begin with t |
| `BzMainScan.PredsAscending` | dep/bzip2/blocksort.c:918-935 | one place before an ordered list is an ordered list |
| `BzMainScan.GrowUp` | dep/bzip2/blocksort.c:923-928 | bucket [ss, ss] filled from the left while it is read stays ordered, distinct and on the lower side |
| `BzMainScan.GrowDown` | dep/bzip2/blocksort.c:929-934 | filled from the right it stays ordered, distinct and on the upper side |
| `BzMainScan.WholeSide` | dep/bzip2/blocksort.c:918-935 | the scan reaches every rotation of its side |
| `BzMainScan.SomeSide` | dep/bzip2/blocksort.c:918-935 | every rotation is on one side unless the block is one byte value throughout |
| `BzMainScan.Room` | dep/bzip2/blocksort.c:918-935 | no bucket receives more than it holds |
| `BzMainCopy.FwdStep` | dep/bzip2/blocksort.c:923-928 | one step upwards keeps all targets filled from the left with what precedes the scanned part |
| `BzMainCopy.BwdStep` | dep/bzip2/blocksort.c:929-934 | one step downwards does the same from the right without touching the left parts |
| `BzMainCopy.CopyUp` | dep/bzip2/blocksort.c:923-928 | the upward scan, reading what it writes |
| `BzMainCopy.CopyDown` | dep/bzip2/blocksort.c:929-934 | the downward scan |
| `BzMainCopy.MixedDone` | dep/bzip2/blocksort.c:918-944 | every bucket [t, ss] ends filled and in order, the others unchanged, and the two ends meet |
| `BzMainCopy.UniformDone` | dep/bzip2/blocksort.c:937-944 | for a block of one byte value nothing moves and the second half of assertion 1007 holds |
| `BzMainSort.RunningOrder` | dep/bzip2/blocksort.c:832-860 | a permutation of the big buckets, from the least full to the fullest |
| `BzMainSort.SortRow` | dep/bzip2/blocksort.c:878-907 | all small buckets [ss, j] but [ss, ss] are in order, if the budget lasts |
| `BzMainSort.CopyRow` | dep/bzip2/blocksort.c:909-946 | all small buckets [t, ss] are in order and marked; assertions 1006 and 1007 hold |
| `BzMainSort.UpdateRanks` | dep/bzip2/blocksort.c:987-1004 | the new ranks fit sixteen bits and the order, in the repeated part too; assertion 1002 holds |
| `BzMainSort.RanksReady` | dep/bzip2/blocksort.c:948-986 | the meaning of the cached ranks is kept, read weakly for equal rotations |
| `BzMainSort.BigBucket` | dep/bzip2/blocksort.c:868-1006 | the three steps keep everything and finish one big bucket |
| `BzMainSort.MainSort` | dep/bzip2/blocksort.c:750-1011 | if the budget lasts the pointers are all rotations in order; it is not touched unless two different rotations agree on twenty bytes; the block is not changed |
| `BzBlock.BlockSort` | dep/bzip2/blocksort.c:1031-1089 | main sort or fallback, by length, work factor and budget: always the order and the row of the block |
| `BzInverseBwt.LeftsSorted` | dep/bzip2/compress.c:163-167 | the rotations one place before, taken by last byte and then by rank, are sorted again |
| `BzInverseBwt.StepRight` | dep/bzip2/decompress.c:558-563 | following the inverse vector moves one byte to the right, also among equal rotations in any order |
| `BzInverseBwt.InverseBwt` | dep/bzip2/decompress.c:494-576 | for every sorted order of every block, walking from the row of the block spells the block |
| `BzTVector.BuildCftab` | dep/bzip2/decompress.c:494-517 | refused exactly when a count or a cumulative count is out of range |
| `BzTVector.BuildFast` | dep/bzip2/decompress.c:558-563 | the 32-bit words hold the inverse vector and the bytes |
| `BzTVector.IndexIntoF` | dep/bzip2/bzlib.c:686-698 | the byte value whose range holds the row |
| `BzTVector.SmallStore.SetLL` | dep/bzip2/bzlib_private.h:467-470 | twenty bits in sixteen and four, no other link disturbed |
| `BzTVector.SmallStore.BuildSmall` | dep/bzip2/decompress.c:526-534 | the forward vector in twenty bits a link |
| `BzTVector.ReverseLinks` | dep/bzip2/decompress.c:536-545 | reversal along the cycle of origPtr, which need not hold every row |
| `BzTVector.FastIsWalk` | dep/bzip2/bzlib_private.h:444-449 | the fast layout yields the walk along the inverse vector |
| `BzTVector.SmallIsWalk` | dep/bzip2/bzlib_private.h:475-480 | so does the reversed small layout |
| `BzTVector.LayoutsAgree` | dep/bzip2/decompress.c:524-576 | both layouts yield the same bytes from every block |
| `BzMtf.RunRoundTrip` | dep/bzip2/compress.c:174-188 | the run digits add up to the run |
| `BzMtf.RunBijective` | dep/bzip2/compress.c:174-188 | every digit string codes exactly one length |
| `BzMtf.FewDigits` | dep/bzip2/decompress.c:384-393 | no run that fits a block has more digits than the decoder accepts |
| `BzMtf.RoundTrip` | dep/bzip2/compress.c:119-231 | decoding the values restores every sequence of ranks that fits the block |
| `BzMtfEncode.MakeMapsE` | dep/bzip2/compress.c:105-115 | the rank of every byte value in use |
| `BzMtfEncode.MakeMapsD` | dep/bzip2/decompress.c:26-35 | its inverse |
| `BzMtfEncode.Promote` | dep/bzip2/compress.c:189-207 | search and shift in one pass move the rank to the front |
| `BzMtfEncode.FlushRun` | dep/bzip2/compress.c:174-188 | the digits of the pending run, counted |
| `BzMtfEncode.GenerateMtfValues` | dep/bzip2/compress.c:119-231 | the values and their frequencies, written as halfwords over the pointers they come from without overwriting one still to be read |
| `BzMtfTable.InitTable` | dep/bzip2/decompress.c:358-370 | the table starts as the plain list 0 to 255 |
| `BzMtfTable.FirstSegment` | dep/bzip2/decompress.c:429-444 | a position in the first segment moves to the front |
| `BzMtfTable.Cascade` | dep/bzip2/decompress.c:454-462 | one entry handed down from segment to segment |
| `BzMtfTable.Rebuild` | dep/bzip2/decompress.c:463-472 | the overlapping copy back to the top keeps the list |
| `BzMtfTable.MoveToFront` | dep/bzip2/decompress.c:423-475 | the floating table does what moving to the front does to the plain list |
| `BzMtfDecode.ReadRun` | dep/bzip2/decompress.c:381-396 | the length of a run, or an error for too many digits |
| `BzMtfDecode.DecodeValues` | dep/bzip2/decompress.c:372-486 | bytes, byte counts and outcome are those of decoding on the plain list |
| `BzHuffmanLengths.UpHeap` | dep/bzip2/huffman.c:33-42 | the last entry rises: a rearrangement, a heap again |
| `BzHuffmanLengths.DownHeap` | dep/bzip2/huffman.c:44-58 | the first entry sinks: a rearrangement, a heap again |
| `BzHuffmanLengths.FibStep` | dep/bzip2/huffman.c:100-112 | merging the two lightest keeps weights at least Fibonacci numbers of their depth |
| `BzHuffmanLengths.DepthBound` | dep/bzip2/huffman.c:100-112 | so the depth is bounded by the weight |
| `BzHuffmanLengths.Build` | dep/bzip2/huffman.c:84-112 | one complete tree over all symbols |
| `BzHuffmanLengths.TreeKraft` | dep/bzip2/huffman.c:114-123 | its depths fill the code space exactly |
| `BzHuffmanLengths.TooLongIsHeavy` | dep/bzip2/huffman.c:114-147 | a code longer than twelve needs weights above two on average |
| `BzHuffmanLengths.ScaledSum` | dep/bzip2/huffman.c:142-146 | scaling lightens the symbols until all weights are at most two |
| `BzHuffmanOptimal.NoneBetter` | dep/bzip2/huffman.c:92-112 | from any step of joining the two lightest trees on, no lengths for the trees there that fit together cost less than the joins still to come |
| `BzHuffmanOptimal.StepDown` | dep/bzip2/huffman.c:100-112 | lengths that fit before a join give lengths that fit after it and cost less by at least its weight |
| `BzHuffmanOptimal.TreeCost` | dep/bzip2/huffman.c:114-123 | the depths of the tree cost exactly what its joins weigh |
| `BzHuffmanOptimal.LeavesOptimal` | dep/bzip2/huffman.c:92-123 | so the depths of the leaves are lengths that no others with a Kraft sum of at most one undercut |
| `BzKraft.TwoDeepest` | dep/bzip2/huffman.c:100-112 | two longest lengths may be made equal without loss |
| `BzKraft.LightestDeepest` | dep/bzip2/huffman.c:100-112 | the two lightest symbols may be given the two longest lengths |
| `BzHuffmanLengths.MakeCodeLengths` | dep/bzip2/huffman.c:63-148 | always ends, every length in 1 to maxLen, Kraft sum exactly one; the lengths are optimal for the weights of the last attempt, which are the frequencies with zero counted as one, scaled once for every attempt before; each of those had optimal lengths over the limit |
| `BzHuffmanCodes.AssignCodes` | dep/bzip2/huffman.c:152-166 | the canonical code words |
| `BzHuffmanCodes.PrefixFree` | dep/bzip2/huffman.c:152-166 | no code word begins another |
| `BzHuffmanCodes.PastFits` | dep/bzip2/huffman.c:152-166 | with a Kraft sum of at most one every code word fits its length |
| `BzHuffmanCodes.CreateDecodeTables` | dep/bzip2/huffman.c:170-200 | limit, base and perm for the lengths |
| `BzHuffmanCodes.DecodeSymbol` | dep/bzip2/decompress.c:74-102 | the symbol whose code word comes next, consuming exactly its bits, if and only if one does |
| `BzHuffmanCodes.WordStarts` | dep/bzip2/huffman.c:152-166 | a code word written anywhere comes next there |
| `BzBitStream.Writer.constructor` | dep/bzip2/compress.c:37-41 | nothing written |
| `BzBitStream.Writer.NeedW` | dep/bzip2/compress.c:58-67 | whole bytes leave the buffer |
| `BzBitStream.Writer.W` | dep/bzip2/compress.c:71-78 | n more bits written |
| `BzBitStream.Writer.PutUInt32` | dep/bzip2/compress.c:82-89 | 32 bits in four bytes |
| `BzBitStream.Writer.Finish` | dep/bzip2/compress.c:45-54 | the bytes are what was written, filled up with fewer than eight zeros |
| `BzBitStream.Reader.constructor` | dep/bzip2/decompress.c:165-195 | the stream is the chunks of all calls, one after the other |
| `BzBitStream.Reader.GetBits` | dep/bzip2/decompress.c:43-65 | the next n bits, from the pieces of as many calls as it takes; only when no call brings enough is it refused, and nothing is lost |
| `BzBitStream.Reader.NextByte` | dep/bzip2/decompress.c:43-65 | one byte joins the buffer, from a later call if this one has none left |
| `BzBitStream.Reader.Feed` | dep/bzip2/decompress.c:56-63 | one more call changes nothing of what was there |
| `BzBitStream.BufferedIn` | dep/bzip2/compress.c:71-78 | bits or-ed in below the live ones |
| `BzBitStream.ComesOut` | dep/bzip2/decompress.c:47-53 | shift and mask give the next bits |
| `BzFormat.UnmovesMoves` | dep/bzip2/compress.c:461-477 | undoing the move-to-front of the selectors gives the selectors |
| `BzSend.MoveSelectors` | dep/bzip2/compress.c:461-477 | positions of the selectors in the moving list |
| `BzSend.CountFor` | dep/bzip2/compress.c:407-431 | the frequencies of the values in the groups that selected a table |
| `BzSend.MakeTables` | dep/bzip2/compress.c:407-451 | code lengths from the frequencies of the values in the groups that selected the table: always sendable, optimal for those counts |
| `BzSend.SendMapping` | dep/bzip2/compress.c:494-512 | the bits of the bytes in use, empty rows left out |
| `BzSend.SendSelectors` | dep/bzip2/compress.c:517-524 | counts and unary selectors |
| `BzSend.SendLengths` | dep/bzip2/compress.c:531-539 | code lengths as differences |
| `BzSend.SendValues` | dep/bzip2/compress.c:544-595 | all values, every fifty by the next selected table; assertions 3006 and 3007 hold |
| `BzReceive.ReadMapping` | dep/bzip2/decompress.c:266-281 | gives back the bytes in use that were sent |
| `BzReceive.UndoMoves` | dep/bzip2/decompress.c:302-314 | the selectors from their positions |
| `BzReceive.ReadSelectors` | dep/bzip2/decompress.c:286-314 | gives back the selectors that were sent, if there are at most 18002; for every stream the stores stay inside the arrays if and only if the stream does not overrun them, and what is accepted is in range |
| `BzReceive.ReadMoves` | dep/bzip2/decompress.c:291-300 | the positions of the selectors; the first store outside the array is at number 18003 |
| `BzReceive.OverrunExample` | dep/bzip2/decompress.c:289-300 | a stream with 18003 selectors, which overruns |
| `BzReceive.ReadTables` | dep/bzip2/decompress.c:316-329 | gives back the code lengths that were sent; any others are 1 to 20 |
| `BzReceive.MakeDecoder` | dep/bzip2/decompress.c:331-347 | decoding tables that belong to the lengths |
| `BzReceive.GetMtfVal` | dep/bzip2/decompress.c:74-102 | value k by the table its group of fifty selects; none left is an error |
| `BzReceive.ReadValues` | dep/bzip2/decompress.c:349-486 | gives back the values that were sent, up to the end mark |
| `BzReceive.ValueComes` | dep/bzip2/decompress.c:74-102 | a coded value that comes next must be what is decoded |
| `BzChoose.InitialTables` | dep/bzip2/compress.c:279-317 | successive stretches of the alphabet, each as long as brings it to its share of what is left, less one symbol for every other inner one; one cheap in each table |
| `BzChoose.NextStretch` | dep/bzip2/compress.c:288-303 | where the next stretch ends |
| `BzChoose.SlowCosts` | dep/bzip2/compress.c:387-392 | what a group costs under each table, sixteen bits being enough |
| `BzChoose.FastCosts` | dep/bzip2/compress.c:358-385 | the three packed sums of a full group under six tables are the same costs, no carry leaving a half |
| `BzChoose.BestTable` | dep/bzip2/compress.c:352-404 | the first of the cheapest tables of a group, by either way of summing |
| `BzChoose.ChooseSelectors` | dep/bzip2/compress.c:342-435 | one pass: every group of fifty has the first of its cheapest tables |
| `BzChoose.Improve` | dep/bzip2/compress.c:319-452 | four passes: in each every group selects the first of its cheapest tables, and the new tables are made for the values so selected; what is sent comes from the last |
| `BzBlock.SendMtfValues` | dep/bzip2/compress.c:238-598 | the bits of the values, every group by the table chosen for it in four passes; assertions 3002 to 3007 hold |
| `BzBlock.CompressBlock` | dep/bzip2/compress.c:602-653 | a block is written as header and values over its sorted order |
| `BzBlock.ValuesDecode` | dep/bzip2/compress.c:119-231 | the values of a block decode to the ranks of its last column |
| `BzBlock.ReadMagic` | dep/bzip2/decompress.c:222-239 | accepted if and only if the six bytes 31 41 59 26 53 59 are there |
| `BzBlock.ReadHeader` | dep/bzip2/decompress.c:222-264 | accepted if and only if the mark is there and the origin in range; checksum, randomised bit and origin are the bits read |
| `BzBlock.Unravel` | dep/bzip2/decompress.c:349-517 | from the values to the last column and its cumulative counts; origin out of range is an error |
| `BzBlock.ReceiveBlock` | dep/bzip2/decompress.c:222-517 | of a block that was sent, the last column comes back; a block is accepted only if its header is and its selectors stay inside their arrays |
| `BzBlock.DecompressFast` | dep/bzip2/decompress.c:222-576 | of a block that was sent, its bytes come out of the fast layout; of any accepted block all links stay inside and no selector was stored outside its array |
| `BzBlock.DecompressSmall` | dep/bzip2/decompress.c:222-576 | the same for the small layout |
| `BzRoundTrip.FlattenCut` | dep/bzip2/decompress.c:43-65 | however a stream is cut into the input of several calls, it is the same stream |
| `BzRoundTrip.BlockRoundTrip` | dep/bzip2/decompress.c:222-578 | every block compressed, its stream handed over in any pieces to a reader that keeps its variables, and decompressed by the fast layout comes back, with its checksum |
| `BzRoundTrip.BlockRoundTripSmall` | dep/bzip2/decompress.c:222-578 | the same for the small layout |
| `BzRoundTrip.Undo` | dep/bzip2/bzlib.c:817-840 | the output of any number of calls is the decoded block as far as there is space; corruption is reported if and only if the block does not decode and the space reaches its end, for the small loop one byte further |
| `BzRoundTrip.WholeTrip` | dep/bzip2/bzlib.c:808-856 | a block comes out after the whole way, for every split of the stream, either layout and any output space: decoded if it decodes, and otherwise reported as soon as the space reaches its end |
| `BzRoundTrip.AllBlocks` | dep/bzip2/bzlib.c:808-856 | so do all blocks of a stream, one after the other |
| `BzRoundTrip.StreamTrip` | dep/bzip2/bzlib.c:407-464 | after a flush or finish is done, the closed blocks, each sent, received and expanded, give back every byte consumed |
| `BzRunLength.DecodeCoded` | dep/bzip2/bzlib.c:216-249 | a coded run in front of something that does not continue it decodes to the run |
| `BzRunLength.DecodeRuns` | dep/bzip2/bzlib.c:216-249 | a block of separated runs decodes to their bytes |
| `BzRunLength.CorruptExample` | dep/bzip2/bzlib.c:775-780 | four equal bytes without a count do not decode |
| `BzCompressor.EState.constructor` | dep/bzip2/bzlib.c:150-212 | an empty machine for a legal block size |
| `BzCompressor.EState.AddPairToBlock` | dep/bzip2/bzlib.c:216-249 | the coded run, its bytes marked and summed |
| `BzCompressor.EState.AddChar` | dep/bzip2/bzlib.c:260-284 | one byte consumed; nothing lost |
| `BzCompressor.EState.CopyInputUntilStop` | dep/bzip2/bzlib.c:289-330 | input consumed until the block is full or there is no more; nblock stays within its bound |
| `BzCompressor.EState.CompressBlock` | dep/bzip2/compress.c:602-653 | the closed block decodes to the bytes summed for it |
| `BzCompressor.EState.HandleCompress` | dep/bzip2/bzlib.c:360-403 | both phases keep closed blocks, open block and pending run equal to the bytes consumed; it stops at output still to come only when the output space is used up; blocks it closes are full but for the last of a flush or finish; progress is reported if and only if input or output space was used, and when running or finishing if and only if the machine was not stuck |
| `BzCompressor.EState.BzCompress` | dep/bzip2/bzlib.c:407-464 | every call keeps that; when a flush or finish is reported done, the closed blocks decode to all bytes consumed; a call the mode does not allow changes nothing; a run answers ParamError if and only if the machine is stuck; a finish answers SequenceError if and only if there is no output space and a block waits or no input is left, never with output space; FlushOk and FinishOk are answered only when the space is used up with output still to come, and a run stops short of its input only then; every block it closes is full but for the last of a flush or finish |
| `BzCompressor.EState.Supply` | dep/bzip2/bzlib.c:407-464 | between calls new input and output space keep what holds |
| `BzCompressor.FinishWithoutSpace` | dep/bzip2/bzlib.c:452-461 | one byte consumed, then a finish without space: SequenceError, and yet the byte is in a closed block |
| `BzCompressor.AccountedClose` | dep/bzip2/bzlib.c:383-389 | closing a block loses nothing |
| `BzUnRle.BlockComesOut` | dep/bzip2/bzlib.c:535-804 | what the output loops write for a block is its decoding; corruption is found exactly when it has none |
| `BzUnRle.EmitDecodes` | dep/bzip2/bzlib.c:535-804 | the same from any run on |
| `BzUnRle.RunsComeOut` | dep/bzip2/bzlib.c:216-249 | the bytes of the runs come out of their coded block |
| `BzUnRle.DState.UnRleSmall` | dep/bzip2/bzlib.c:706-804 | one call writes the next part of what is to come, up to the space given |
| `BzUnRle.DState.UnRleFast` | dep/bzip2/bzlib.c:535-682 | so does the loop on local copies |
| `BzUnRle.DState.Deliver` | dep/bzip2/bzlib.c:817-840 | any split of the output space gives the same bytes: all the space is used until everything is out; a block finished with is not corrupt, and a corrupt one is found out exactly when the space reaches its end, for the small loop one byte further |
| `DeflateHash.Forgets` | dep/zlib/deflate.c:163 | three updates push every earlier byte out of the hash |
| `DeflateHash.ThirdByte` | dep/zlib/deflate.c:1370-1382 | equal hashes and equal first two bytes: equal third bytes |
| `DeflateHash.RolledNext` | dep/zlib/deflate.c:163 | the rolling hash of two bytes takes in the third |
| `DeflateTokens.CopyIs` | dep/zlib/deflate.h:321-339 | a match of repeated data copies that data, also when it overlaps itself |
| `DeflateTokens.GivesLiteral` | dep/zlib/deflate.h:321-327 | one literal more replays to one byte more |
| `DeflateTokens.GivesMatch` | dep/zlib/deflate.h:329-339 | one match more replays to its length more |
| `DeflateTokens.GivesConcat` | dep/zlib/deflate.c:1647-1656 | blocks follow on from each other |
| `DeflateChains.ChainsStart` | dep/zlib/deflate.c:1234-1260 | an empty table is a correct index whatever prev[] holds |
| `DeflateChains.InsertKeeps` | dep/zlib/deflate.c:175-185 | inserting keeps the index correct |
| `DeflateChains.InsertFinds` | dep/zlib/deflate.c:175-185 | the head found is an earlier position with the same hash |
| `DeflateChains.SlideKeeps` | dep/zlib/deflate.c:204-228 | moving all entries down a window keeps the index correct |
| `DeflateChains.Follow` | dep/zlib/deflate.c:1410-1412 | following a link within the window leads to an earlier position with the same hash, or to nothing |
| `DeflateChains.AllFound` | dep/zlib/deflate.c:175-185 | every position inserted less than a window back, but for window index 0, is reached from the head of its hash |
| `DeflateChains.ChainExactly` | dep/zlib/deflate.c:1410-1416 | following a chain comes to a position within so many links if and only if it is in the index, above the limit, with the same hash, and fewer of those lie between |
| `DeflateChains.LinkExactly` | dep/zlib/deflate.c:1276-1417 | the same from the link of the position just inserted |
| `DeflateChains.ExactlyInsert` | dep/zlib/deflate.c:175-185 | inserting adds one position to those in the index |
| `DeflateChains.ThirdEqual` | dep/zlib/deflate.c:1370-1382 | the third byte need not be compared |
| `DeflateMatch.CompareStrings` | dep/zlib/deflate.c:1384-1397 | how far two strings agree, up to 258 |
| `Deflate.State.constructor` | dep/zlib/deflate.c:243-390 | an empty engine satisfies all three invariants |
| `Deflate.State.InsertString` | dep/zlib/deflate.c:175-185 | the string is in the index, and nothing else new; the head found is an earlier one with the same hash |
| `Deflate.State.LongestMatch` | dep/zlib/deflate.c:1276-1417 | a longer match found is a real one within MAX_DIST, at most the lookahead, the nearest of its length and the first that is long enough; unless it is as long as the lookahead or nice_match, nothing the allowed links lead to is longer |
| `Deflate.State.ScanChain` | dep/zlib/deflate.c:1340-1416 | the loop: from link to link until one is nice enough, the links are used up or the limit is reached |
| `DeflateMatch.NearestIsFirst` | dep/zlib/deflate.c:1384-1416 | cut to the lookahead, the match is the nearest of its length, and nothing nearer would have ended the search |
| `DeflateChoice.ChainIsCandidates` | dep/zlib/deflate.c:1276-1417 | what the chain leads to are the candidates: the inserted positions in the window with the same hash and no more of them between than there are links |
| `DeflateChoice.NothingLonger` | dep/zlib/deflate.c:1276-1417 | so no candidate agrees on more bytes than the result, unless the search was cut short |
| `DeflateChoice.FirstFound` | dep/zlib/deflate.c:1276-1417 | and the match found is a candidate, all there is of it, the nearest of its length, with nothing nearer that would have ended the search |
| `DeflateChoice.AgreeingIsCandidate` | dep/zlib/deflate.c:1370-1382 | an inserted position near enough that agrees on three bytes is a candidate |
| `DeflateChoice.SoughtGrows` | dep/zlib/deflate.c:1522-1641 | more input, later insertions and slides of the window do not change what was said of a search |
| `DeflateChoice.LiteralMeans` | dep/zlib/deflate.c:2030-2078 | a literal where matches are sought: no candidate agrees on three bytes, or the longest match was three bytes from too far away, or a longer one begins a byte further on |
| `DeflateChoice.MatchMeans` | dep/zlib/deflate.c:2030-2063 | a match: the one the rules choose; no candidate at its place is longer unless it is long enough or reaches the end of the input, and none at the next place is, if anything was sought there |
| `DeflateChoice.RunStoryAt` | dep/zlib/deflate.c:2122-2160 | with runs only, a match is the whole run of the byte before it, up to 258 or the end of the input, and a literal is where no three bytes repeat the one before |
| `Deflate.State.SlideTable` | dep/zlib/deflate.c:204-228 | every entry less the window size, or nothing |
| `Deflate.State.Slide` | dep/zlib/deflate.c:1547-1560 | window, positions and index move together |
| `Deflate.State.SlideHash` | dep/zlib/deflate.c:204-229 | both tables move with the window and the index stays correct |
| `Deflate.State.ReadBuf` | dep/zlib/deflate.c:1204-1229 | the next input bytes join the window |
| `Deflate.State.InsertWaiting` | dep/zlib/deflate.c:1579-1598 | the strings that lacked bytes are inserted, and no others |
| `Deflate.State.FillOnce` | dep/zlib/deflate.c:1531-1603 | one round; at least two bytes of room remain to read into |
| `Deflate.State.ZeroAhead` | dep/zlib/deflate.c:1605-1637 | bytes never written, from the data or the high water mark on, up to 258 behind the data are zeroed, and no others; the mark follows |
| `Deflate.State.FillWindow` | dep/zlib/deflate.c:1522-1641 | enough lookahead or no input; strstart at most window_size - MIN_LOOKAHEAD; nothing lost |
| `Deflate.State.TallyLit` | dep/zlib/deflate.h:321-327 | what is tallied replays to one byte more |
| `Deflate.State.TallyDist` | dep/zlib/deflate.h:329-339 | what is tallied replays to the match more; 16-bit distance and 8-bit length lose nothing |
| `Deflate.State.FlushBlockOnly` | dep/zlib/deflate.c:1647-1656 | the block handed over stands for exactly the bytes since the last one |
| `Deflate.State.FlushBlock` | dep/zlib/deflate.c:1659-1662 | a full symbol buffer is handed over, and only a full one; the call is left if and only if then no output space remains |
| `Deflate.State.SearchLazily` | dep/zlib/deflate.c:2003-2026 | the search at strstart is the one the rules demand: none if the match that waits is long enough, short matches dropped when filtered or from too far away |
| `Deflate.State.SearchHere` | dep/zlib/deflate.c:1901-1909 | the greedy search, likewise |
| `Deflate.State.PassMatch` | dep/zlib/deflate.c:2044-2056 | all strings up to the end of a match are inserted, as far as there are three bytes |
| `Deflate.State.SkipMatch` | dep/zlib/deflate.c:1920-1950 | so they are behind a greedy match, if it is short enough and three bytes follow; otherwise none is |
| `DeflateChoice.CoveredBut` | dep/zlib/deflate.c:1920-1950 | what is left out of the index are exactly the positions inside such matches |
| `Deflate.State.MeasureRun` | dep/zlib/deflate.c:2121-2143 | zero if and only if the lookahead is under three or three bytes do not repeat the one before; otherwise the whole run, up to 258 and the lookahead |
| `Deflate.State.CloseBlocks` | dep/zlib/deflate.c:1958-1967 | the rest of the symbols is handed over; finish_started only without output space, and finish_done or block_done only when everything has been emitted |
| `Deflate.State.SlowStep` | dep/zlib/deflate.c:1996-2081 | one lazy step: the tallied tokens replay to the data before strstart, less a byte held back, each chosen by the rules; only full blocks are handed over |
| `Deflate.State.DeflateSlow` | dep/zlib/deflate.c:1974-2097 | for every chunking of input and output space the tokens replay to the data, each a literal or match by the rules of the level; all positions are in the index but late ones; when done, everything is out; it stops early only for want of input or of output space, and finish_started only when nothing is left but that |
| `Deflate.State.DeflateFast` | dep/zlib/deflate.c:1872-1967 | the same without lazy matching; what is not in the index lies inside matches too long to be inserted |
| `Deflate.State.DeflateRle` | dep/zlib/deflate.c:2105-2171 | the same with runs only, each as long as can be |
| `Deflate.State.Supply` | dep/zlib/zlib.h:256-290 | between calls more input and output space keep the invariant of each strategy |
| `Deflate.State.Compress` | dep/zlib/deflate.c:1043-1046 | the strategy chosen, by its contract |
| `Deflate.State.Calls` | dep/zlib/deflate.c:1039-1089 | any sequence of calls, each with its input, space and flush: nothing is lost, every token is chosen by the rules, an end of the input is one only behind a call that flushes, and when the last one is done the tokens handed over replay to all input |
| `InflateBack.CircularNext` | dep/zlib/infback.c:578-604 | one byte more in the circular window |
| `InflateBack.Inflater.Room` | dep/zlib/infback.c:210-221 | a full window is written out once and starts again |
| `InflateBack.Inflater.Literal` | dep/zlib/infback.c:512-521 | one byte of output |
| `InflateBack.Inflater.TooFarBack` | dep/zlib/infback.c:578-583 | refused if and only if the offset reaches before the start of the output or beyond the window |
| `InflateBack.Inflater.CopyStretch` | dep/zlib/infback.c:598-603 | one piece of the copy |
| `InflateBack.Inflater.CopyMatch` | dep/zlib/infback.c:578-604 | the output grows as by a byte-by-byte copy from that far back, overlapping or not, also across writes |
| `InflateBack.Inflater.Leave` | dep/zlib/infback.c:607-614 | at the end everything has been written |

## Left out

- `dep/gsoap`, the gz file layer, `compress.c` and `uncompr.c` of zlib, the `BZFILE` half of `bzlib.c`: wrappers and file I/O.
- zlib's `trees.c`, `inftrees.c`, `inffast.c` and `inflate.c`: not part of this model; `_tr_flush_block` is a sink that receives the symbols, and `inflateBack` is modelled from a decoded length and distance on.
- `deflate_stored`, `deflate_huff`, headers, dictionaries, `deflateParams` and `deflateCopy`: level and strategy are fixed; so is `Z_FULL_FLUSH`, which forgets the chains.
- The symbol frequencies that `_tr_tally` counts, and packing symbols into `sym_buf` bytes: symbols are kept as values of the same ranges.
- The bit table `bhtab` of the fallback sort is a sequence of bits with the same word-wise skipping; packing them into words is not modelled. The block and eclass share memory in the source; the model overwrites the block when eclass is first used.
- The main sort works on a copy of the block with its first bytes repeated; in the source that room lies behind the block in the same allocation. Its fourfold unrolled counting loops are written once, as are the repeated comparisons of `mainGtU`.
- BzReceive.ReadValues: all values are read before they are undone; the source interleaves the two, so of a damaged block it may report another error first.
- BzBitStream.Reader.NextByte: a call that runs out of input is resumed by the next one inside the reader; that the 24 saved variables of the source are restored then, and that no other is needed, is taken for granted, so the splits of `BzRoundTrip` hold for a reader that never loses a variable.
- BzBlock.CompressBlock: stream header and trailer of bzip2, the combined checksum, and the block checksum itself: a checksum is carried through a block as a number, and the compressor machine records which bytes it covers. The reader answers the mark of a trailer with an error.
- BzBlock.DecompressFast: randomised blocks of old versions; the flag is read, undoing it is not modelled.
- BzCompressor.EState.CompressBlock: the coded bytes of a block are only counted in the compressor machine; `BzBlock` says what they are.
- The big-endian and ARM paths of `crc32.c`, and writing its tables out; words are sequences of four or more bytes.
- PCG's extended generators, 128-bit emulation, seeding from sequences, streams, and the other output functions.
- BzHuffmanLengths.MakeCodeLengths: the frequencies, each counted at least once, must sum to less than 2^23, because the source keeps weights in the upper 24 bits of a signed 32-bit integer; maxLen must be at least 12 (the source passes 17).
- PcgDistance.Distance: parameters without full period are not covered; the source gives no promise for them.
- BzMainSort.MainSort: what one comparison takes of the budget is stated exactly (`BzMainCompare.GtU`), and that nothing is taken unless two rotations agree on twenty bytes; how many comparisons a sort makes is not counted.
- BzMainSimple.SimpleSort: the range must be shorter than the largest gap of the table, 2391484, which no block reaches.
- BzUnRle.DState: the bytes met along the inverse vector are given as a sequence that reaches two places past the block; `BzRoundTrip.WholeTrip` supplies it from either layout.
- Crc32Braid.Tables.X2NModP: lengths below zero, for which the source does not end (`Crc32Braid.HalvingEnds`).
- Crc32Braid.Tables.Combine64: the same lengths.
- Allocation, verbosity, error strings, and the versions of code that other build options select.
