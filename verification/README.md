# Verification of the JPEG scan coder and the CORA stream layer

This project models two parts of the repository in Dafny and proves what they are for.

**The JPEG scan coder** (`rust/jpeg-encoder`, a baseline encoder after ITU-T T.81 | ISO/IEC 10918-1).
From an image's rows to the bytes of an interleaved scan: padded row buffers, block sampling, the
forward DCT, the reciprocal quantiser, the tallies of pass 1, the optimised Huffman tables, and the
bit writer with its 64-bit buffer. The decoder of section F.2.2 of T.81 is a specification function.
The top results are round trips. For every image, the bytes of the one-pass scan with the default tables
and any restart interval decode to exactly the quantised blocks, for a decoder that has those tables and
knows the sides and sampling factors from the frame header. So do the bytes of the two-pass scan, with
the tables it leaves behind, for every image whose tallies give tables: data for every table, no sum of
frequencies beyond 32 bits and no code size beyond 32. What the decoder multiplies out of each block, with
the quantisation table of its component, is within one step of the transform of the component's samples.
Unless a code size had to be limited to 16 bits, no prefix codes take fewer bits for the symbols of the image
than the tables of the two-pass scan, counting one reserved code, and no other valid tables make that scan
shorter by more than their longest codes are longer.

**The CORA stream layer** (`ts/src/cora`). A reader cuts an arbitrarily split TCP byte stream into
frames and resynchronises on a magic number; an assembler joins image chunks under one byte budget.
The top results are a refinement (the reader emits what a one-shot decoder finds, however the stream
is split), a resynchronisation round trip, an invariant over every run of packets, evictions, expiries
and resets that also bounds every map of a connection, exactly what one chunk grows, expires and evicts,
and the images of each target from the bytes of a connection, independent of what is interleaved.

## How the model is laid out

| file | what it models |
|---|---|
| `Sequences.dfy` | facts about sequences that several components share |
| `Bits.dfy`, `ByteStream.dfy` | machine words as naturals with explicit wrap-around, bit strings, byte stuffing, the carry-add test |
| `JfifWriter.dfy` | the class `JfifWriter`: bit buffer, fast path, finalisation, symbols and blocks |
| `EntropyCoding.dfy` | `get_code`, the items of a block, the block decoder |
| `HuffmanCode.dfy`, `DefaultTables.dfy` | canonical codes (Annex C) and their decoder, and the default tables |
| `HuffmanMerge.dfy`, `HuffmanOptimize.dfy` | Figures K.1 to K.4 in place |
| `HuffmanOptimality.dfy`, `PrefixCodes.dfy`, `FibonacciTree.dfy` | why K.1 is optimal among prefix codes, how good the optimised tables are, and when a code size leaves its array |
| `Scan.dfy`, `Tally.dfy`, `OptimizedTables.dfy`, `ScanCost.dfy`, `Encoder.dfy` | both interleaved scans, the tallies, what a scan costs with any tables, restart intervals |
| `Zigzag.dfy`, `Quantization.dfy`, `Fdct.dfy`, `Sampling.dfy`, `ImageScan.dfy`, `ImageEncoder.dfy` | from image rows to quantised blocks, and whole images |
| `CoraFrame.dfy` | frames and the class `CoraFrameReader` |
| `AssemblyBudget.dfy`, `AssemblyEffects.dfy`, `ImageAssembler.dfy` | the budget, what one chunk does to it, the assemble functions and the class `Assemblies` |
| `ConnectionImages.dfy` | the reader and the assembler together: from the bytes of a connection to its images |

The Rust release profile does not turn overflow checks on, so 16-bit and 32-bit arithmetic wraps; the
model writes the wrap-around out. `usize` has 64 bits. The sink of the writer is a byte sequence that
never fails, and the clock of the assembler is a parameter that does not run backwards.

## What is false, and when it holds

* `get_code` has no code for -32768: its category and bits recover a value if and only if the value is
  not -32768 (`EntropyCoding.ExtendGetCode`). A scan round trip therefore asks that coefficients and DC
  differences lie in -32767..32767; blocks that come from an image always do
  (`ImageEncoding.QuantizedSmall`).
* The reciprocal quantiser is not always rounded division: 4092 by 24 gives 170 where rounding gives 171
  (`Quantization.RoundingFails`). `Quantization.QuantizeRounds` gives the condition on the value and the
  divisor for which it is, both ways, and shows it is never off by more than one; what a decoder
  multiplies out is still within one step of the coefficient (`Quantization.DequantizedWithin`).
  An image meets that value at quality 90 (`ImageEncoding.RoundingFailsInImage`).
* An optimised table does not always take the fewest bits for the tallied symbols, because the symbol that
  is reserved counts as one of them: with frequencies 1, 1, 2 and 3 it takes 15 bits where a prefix code
  of the same symbols takes 14 (`PrefixCodes.TalliedNotAlwaysLeast`). It does if and only if merging with
  the reserved symbol costs as much as merging without it, the least frequency and the height of the tree
  together (`PrefixCodes.TalliedExactly`, for trees of height 16 at most); it always does among the codes
  whose reserved code is no longer than its own (`PrefixCodes.TableIsOptimal`).
* A code size can leave the array of counts: Fibonacci frequencies that sum to 9227465 give a size of 33,
  one more than `bits` has room for (`FibonacciTree.CodeSizeBoundIsSharp`); below that sum none does
  (`HuffmanMerge.CodeSizesFit`).
* A user quantisation table may hold values up to 2048, but the segment that tells a decoder about
  them stores one byte: beyond 255 the value is cut (`Quantization.SegmentValueFits`, both ways, and
  `Quantization.SegmentValueCut` for a concrete entry).
* The positions that `get_block` reads agree with component subsampling exactly if a component is not
  subsampled or has one block a row in its MCU (`Sampling.PositionExact`), which is why the interleaved
  scans are for sampling factors 1 and 2 only.

## Model

| member | source | states |
|---|---|---|
| ByteStream.UnstuffStuff | rust/jpeg-encoder/src/writer.rs:116-126 | Dropping the zero behind every 0xFF undoes the stuffing and stops exactly at the marker that follows |
| ByteStream.CarryTestFindsFF | rust/jpeg-encoder/src/writer.rs:130-143 | The carry-add test of a word is nonzero if and only if some byte of it is 0xFF |
| ByteStream.FastPath | rust/jpeg-encoder/src/writer.rs:130-143 | A word that the test lets through needs no stuffing, and its big-endian bytes are its 64 bits |
| JfifWriting.JfifWriter.WriteBitBuffer | rust/jpeg-encoder/src/writer.rs:130-143 | Both paths append exactly the 64 bits of the word, stuffed |
| JfifWriting.JfifWriter.WriteBits | rust/jpeg-encoder/src/writer.rs:145-161 | The writer refines an unbounded bit string: it grows by exactly the `size` low bits of the value, also across a full buffer |
| JfifWriting.JfifWriter.FlushBitBuffer | rust/jpeg-encoder/src/writer.rs:106-113 | Every whole pending byte goes out and the bit string stays the same |
| JfifWriting.JfifWriter.FinalizeBitBuffer | rust/jpeg-encoder/src/writer.rs:97-104 | The sink gets the bit string padded with ones to a byte, with 0x00 behind each 0xFF and nowhere else |
| ByteStream.EntropyBytesDecode | rust/jpeg-encoder/src/writer.rs:97-113 | Those bytes unstuff to the bit string and less than eight ones, whatever marker follows |
| JfifWriting.JfifWriter.HuffmanEncodeValue | rust/jpeg-encoder/src/writer.rs:277-291 | One grouped write appends the symbol's code and the value bits; the 32-bit shift loses nothing |
| JfifWriting.JfifWriter.WriteCoefficient | rust/jpeg-encoder/src/writer.rs:335-341 | A coefficient and its pending run go out as one item |
| JfifWriting.JfifWriter.WriteDc | rust/jpeg-encoder/src/writer.rs:304-316 | Appends the DC item of the wrapped 16-bit difference |
| JfifWriting.JfifWriter.WriteAcBlock | rust/jpeg-encoder/src/writer.rs:318-350 | The zero-run loop appends the bits of the block's items, in order |
| JfifWriting.JfifWriter.WriteBlock | rust/jpeg-encoder/src/writer.rs:293-302 | Appends the bits that the block decoder inverts |
| EntropyCoding.ExtendGetCode | rust/jpeg-encoder/src/writer.rs:418-432 | Category and bits recover the value (EXTEND of Figure F.12) if and only if it is not -32768; category 0 means 0 or -32768 |
| EntropyCoding.DecodeAcItems | rust/jpeg-encoder/src/writer.rs:318-350 | From any coefficient on, decoding the items with a run pending gives the zeros and the rest of the block |
| EntropyCoding.DecodeEncodeBlock | rust/jpeg-encoder/src/writer.rs:293-350 | Decoding a block's bits with the same prediction gives the 64 coefficients and leaves the bits behind |
| HuffmanCode.CodeFits | rust/jpeg-encoder/src/huffman.rs:256-274 | With a Kraft sum below one every code fits its size and none is all ones |
| HuffmanCode.CreateSizes | rust/jpeg-encoder/src/huffman.rs:240-253 | Figure C.1: each index gets the size whose counts enclose it |
| HuffmanCode.CreateCodes | rust/jpeg-encoder/src/huffman.rs:256-274 | Figure C.2: the running 16-bit code is the canonical code of every index |
| HuffmanCode.CreateLookupTable | rust/jpeg-encoder/src/huffman.rs:277-288 | Figure C.3: every value has its canonical code, every other symbol size 0 |
| HuffmanCode.DecodeEncodeSymbol | rust/jpeg-encoder/src/huffman.rs:224-288 | Looking a symbol up and decoding its bits from the counts and values alone gives the symbol, whatever follows |
| HuffmanCode.PrefixFree | rust/jpeg-encoder/src/huffman.rs:240-288 | No code of a table is a prefix of another |
| HuffmanCode.TableDetermined | rust/jpeg-encoder/src/huffman.rs:72-79 | Counts and values determine a valid table |
| DefaultTables.DefaultDcTables | rust/jpeg-encoder/src/huffman.rs:14-28 | Both default DC tables are valid and code exactly the categories up to 11 |
| DefaultTables.DefaultAcTables | rust/jpeg-encoder/src/huffman.rs:30-66 | Both default AC tables are valid and code exactly the typical symbols, each once: sizes 1 to 10 behind every run, a run of sixteen, the end of a block |
| HuffmanMerge.FindLeast | rust/jpeg-encoder/src/huffman.rs:106-135 | The scan finds the largest index of least nonzero frequency, or that there is none |
| HuffmanMerge.LowerChain | rust/jpeg-encoder/src/huffman.rs:140-151 | Walking the links adds one to the size of exactly the symbols of one tree |
| HuffmanMerge.MergeForest | rust/jpeg-encoder/src/huffman.rs:137-152 | After a merge the live trees still partition the symbols with a frequency, each headed by its own index |
| HuffmanMerge.MergeChains | rust/jpeg-encoder/src/huffman.rs:137-152 | One round leaves links, sizes and frequencies that represent the forest with the two trees joined |
| HuffmanMerge.FindCodeSizes | rust/jpeg-encoder/src/huffman.rs:99-154 | Figure K.1: the loop ends with the depths of the Huffman tree, without a 32-bit overflow |
| HuffmanMerge.HuffmanTreeLeaves | rust/jpeg-encoder/src/huffman.rs:102-154 | The tree holds every symbol with a frequency exactly once and no other |
| HuffmanMerge.HuffmanTreeHeight | rust/jpeg-encoder/src/huffman.rs:102-154 | A tree of height n takes frequencies that sum to at least the Fibonacci number F(n + 2) |
| HuffmanMerge.CodeSizesFit | rust/jpeg-encoder/src/huffman.rs:102-165 | Frequencies below 9227465 in total give no size above 32, so `bits[size]` is in bounds |
| FibonacciTree.CodeSizeBoundIsSharp | rust/jpeg-encoder/src/huffman.rs:102-165 | 34 symbols with Fibonacci frequencies that sum to 9227465, the reserved one among them, give it a size of 33 |
| HuffmanOptimality.MergeIsOptimal | rust/jpeg-encoder/src/huffman.rs:102-154 | From any state of the merge, sizes that satisfy Kraft's inequality cost at least what the merges still to come do |
| HuffmanOptimality.HuffmanTreeIsOptimal | rust/jpeg-encoder/src/huffman.rs:97-154 | No sizes that satisfy Kraft's inequality take fewer bits than the depths of the tree |
| HuffmanOptimality.ReservedIsDeepest | rust/jpeg-encoder/src/huffman.rs:102-192 | With frequency 1, symbol 256 is as deep as the tree is high, so the code that is dropped can be its own |
| HuffmanOptimality.TableSizesAreDepths | rust/jpeg-encoder/src/huffman.rs:156-221 | Unless a length had to be limited, each symbol's final code is as long as its depth in the tree |
| HuffmanOptimality.OptimizedTableIsOptimal | rust/jpeg-encoder/src/huffman.rs:97-221 | Then no sizes that satisfy Kraft's inequality take fewer bits for the tallied symbols and one reserved one |
| PrefixCodes.KraftOfPrefixCode | rust/jpeg-encoder/src/huffman.rs:97-154 | The lengths of every prefix code satisfy Kraft's inequality |
| PrefixCodes.HuffmanTreeIsPrefixCode | rust/jpeg-encoder/src/huffman.rs:97-154 | The ways to the leaves of the tree are a prefix code, as long as the depths |
| PrefixCodes.HuffmanCodeIsOptimal | rust/jpeg-encoder/src/huffman.rs:97-154 | No prefix code of the symbols takes fewer bits than that one |
| PrefixCodes.TableIsOptimal | rust/jpeg-encoder/src/huffman.rs:97-221 | Unless a length had to be limited, no prefix code takes fewer bits for the tallied symbols and one reserved one, and none whose reserved code is no longer takes fewer for the tallied symbols alone |
| PrefixCodes.TalliedAtLeast | rust/jpeg-encoder/src/huffman.rs:97-221 | No prefix code of the symbols and the reserved one takes fewer bits for the tallied symbols than a Huffman tree of those alone and the least frequency |
| PrefixCodes.TalliedExactly | rust/jpeg-encoder/src/huffman.rs:97-221 | The table takes the fewest bits for the tallied symbols if and only if the two merges differ by the least frequency and the height of the tree |
| PrefixCodes.TalliedExcess | rust/jpeg-encoder/src/huffman.rs:97-221 | It is never further from the fewest than its reserved code is shorter than the one of the best code |
| PrefixCodes.TalliedNotAlwaysLeast | rust/jpeg-encoder/src/huffman.rs:97-221 | With frequencies 1, 1, 2 and 3 the table takes 15 bits and a prefix code of the same symbols 14 |
| HuffmanOptimize.RewriteKeepsTaken | rust/jpeg-encoder/src/huffman.rs:172-187 | A rewrite of Figure K.3 keeps the Kraft sum |
| HuffmanOptimize.RewriteKeepsCount | rust/jpeg-encoder/src/huffman.rs:172-187 | A rewrite of Figure K.3 keeps the number of codes |
| HuffmanOptimize.LongestEven | rust/jpeg-encoder/src/huffman.rs:172-187 | The longest length in use counts an even number of codes, so taking two does not underflow |
| HuffmanOptimize.ShorterExists | rust/jpeg-encoder/src/huffman.rs:175-178 | Above 16 bits there is always a shorter length in use, at least two below: the search stops at 1 or above |
| HuffmanOptimize.FullCodeBytes | rust/jpeg-encoder/src/huffman.rs:159-187 | Between rewrites every counter of a full code of at most 255 symbols fits its byte |
| HuffmanOptimize.RewriteShortens | rust/jpeg-encoder/src/huffman.rs:172-187 | A rewrite of Figure K.3 makes the code lengths smaller in all |
| HuffmanOptimize.RewriteTakesNoMore | rust/jpeg-encoder/src/huffman.rs:172-187 | A rewrite gives the codes that are at least two bits shorter than those taken away no more of the code space, up to any length |
| HuffmanOptimize.LimitSizes | rust/jpeg-encoder/src/huffman.rs:167-187 | Figure K.3 ends with no length above 16, the same number of codes and a full code, lengths no greater in all, and no more of the code space in codes of up to 15 bits; it changes nothing that was limited already |
| HuffmanOptimize.DropLongest | rust/jpeg-encoder/src/huffman.rs:188-192 | Exactly one code of the longest length in use is taken away |
| HuffmanOptimize.SortBySize | rust/jpeg-encoder/src/huffman.rs:194-208 | Figure K.4: exactly the symbols below 256 with a code, by size and then by value |
| HuffmanOptimize.NewOptimized | rust/jpeg-encoder/src/huffman.rs:99-221 | The table is valid, lists each nonzero symbol once, has Kraft sum 1 - 2^-longest, and counts the tree's depths less one when none is above 16 |
| Tally.GetNumBits | rust/jpeg-encoder/src/encoder.rs:1409-1422 | The shifting loop agrees with `get_code` on every 16-bit value |
| Tally.TallyAc | rust/jpeg-encoder/src/encoder.rs:932-958 | The tally loop counts exactly the symbols of the items that pass 2 writes for the block |
| Tally.CountSymbols | rust/jpeg-encoder/src/encoder.rs:909-958 | The counts are those of the symbols pass 2 looks up with that table, plus the reserved entry |
| Tally.TallyMeans | rust/jpeg-encoder/src/encoder.rs:909-958 | Less the reserved entry, each count is the number of items with that symbol |
| ScanCosts.ItemsCostTallied | rust/jpeg-encoder/src/encoder.rs:909-958 | With any table, the items of pass 2 take the size of each symbol's code exactly as often as pass 1 counted it, and their value bits |
| ScanCosts.ScanBitsCost | rust/jpeg-encoder/src/encoder.rs:876-968 | The length of a scan, with any tables, is the counts of pass 1 times the sizes of the codes, and value bits that do not depend on the tables |
| OptimizedTables.FewSymbols | rust/jpeg-encoder/src/encoder.rs:906-968 | At most 243 symbols occur, the reserved one included |
| OptimizedTables.SmallScan | rust/jpeg-encoder/src/encoder.rs:906-968 | Fewer than 146467 blocks keep every sum and code size inside its type |
| OptimizedTables.OptimizedTablesCover | rust/jpeg-encoder/src/encoder.rs:876-898 | Every lookup of pass 2 finds a code |
| ScanCosts.FewItemsLow | rust/jpeg-encoder/src/huffman.rs:102-187 | Fewer than 4180 counted symbols never make a code size that has to be limited |
| ScanCosts.TableIsPrefixCode | rust/jpeg-encoder/src/huffman.rs:224-288 | The codes of any valid table, with as many ones as its longest code has bits for the reserved symbol, are a prefix code |
| ScanCosts.OptimizedIsBest | rust/jpeg-encoder/src/encoder.rs:906-968 | For the tallies of the blocks, neither a prefix code nor sizes that satisfy Kraft's inequality cost less than the optimised table, its longest code counted for the reserved symbol, unless a size had to be limited |
| ScanCosts.OptimizedIsShortest | rust/jpeg-encoder/src/encoder.rs:876-968 | No valid tables that cover the blocks make their scan shorter by more bits than their longest codes are longer, unless a size had to be limited |
| Scan.DecodeScanBits | rust/jpeg-encoder/src/encoder.rs:876-898 | The bits of any sequence of blocks of several components decode to them in order, with one prediction a component |
| ScanEncoder.SegmentRoundTrip | rust/jpeg-encoder/src/encoder.rs:876-898 | The stuffed and padded bytes decode to exactly the blocks and leave the marker behind |
| ScanEncoder.Encoder.OptimizeHuffmanTableInterleaved | rust/jpeg-encoder/src/encoder.rs:906-968 | Every table in use is replaced by one made for the tallies of the blocks and best for them, the others stay |
| ScanEncoder.Encoder.EncodeInterleavedOptimized | rust/jpeg-encoder/src/encoder.rs:876-901 | Both passes: the tables in use are the best for the tallies of the blocks, no others make the scan shorter beyond their longer codes, both unless a size had to be limited, and a decoder with them reads exactly the blocks back, whatever marker follows |
| ScanEncoder.NewDefaultTables | rust/jpeg-encoder/src/encoder.rs:222-231 | The tables a new encoder has are the four default ones |
| ScanEncoder.DefaultDetermined | rust/jpeg-encoder/src/encoder.rs:222-231 | There is exactly one set of default tables |
| ScanEncoder.Encoder.WriteMcu | rust/jpeg-encoder/src/encoder.rs:721-778 | From any point of a one-pass scan, writing an MCU leaves the bytes of the whole scan what they were to be: restart marker, predictions, bits and both counters |
| ScanEncoder.SegmentsAre | rust/jpeg-encoder/src/encoder.rs:721-778 | A scan is one segment, or a segment of exactly `interval` MCUs that starts with no predictions, the marker, and the scan of the rest with the next number |
| ScanEncoder.MarkersAre | rust/jpeg-encoder/src/encoder.rs:721-778 | For every MCU k = j * interval: before it stand exactly the first j segments of `interval` MCUs, segment i followed by RST(i mod 8), so the marker before MCU k > 0 is number (k / interval - 1) mod 8 |
| ScanEncoder.MarkerBytes | rust/jpeg-encoder/src/encoder.rs:721-735 | The two bytes before MCU k, for every multiple k > 0 of the interval, are 0xFF and 0xD0 + (k / interval - 1) mod 8, and the scan of the MCUs from k on follows |
| ScanEncoder.ScanIs | rust/jpeg-encoder/src/encoder.rs:721-783 | Behind the last marker, before MCU (n - 1) / interval * interval, is one segment with the MCUs that are left: no other MCU has a marker |
| ScanEncoder.RestartRoundTrip | rust/jpeg-encoder/src/encoder.rs:673-783 | A scan with any restart interval decodes to exactly its blocks, in MCU order |
| ScanEncoder.ScansAgree | rust/jpeg-encoder/src/encoder.rs:673-901 | The one-pass and the two-pass scan decode to the same blocks, whatever tables each uses |
| Quantization.QuantizeRounds | rust/jpeg-encoder/src/quantization.rs:185-307 | The product is the quotient rounded half away from zero if and only if the condition holds; it is off by at most one and nothing overflows |
| Quantization.RoundingFails | rust/jpeg-encoder/src/quantization.rs:187-307 | 4092 by 24 is a coefficient and an entry for which the product is not the rounded quotient |
| ImageEncoding.RoundingFailsInImage | rust/jpeg-encoder/src/quantization.rs:261-307 | Quality 90 gives that entry for the base value 16 and a sample block that coefficient |
| Quantization.DequantizedWithin | rust/jpeg-encoder/src/quantization.rs:187-307 | The quantised value times the divisor is within one step of the coefficient, also where it is not rounded |
| Quantization.QuantizeOdd | rust/jpeg-encoder/src/quantization.rs:291-307 | Negating the input negates the result |
| Quantization.QuantizeMultiple | rust/jpeg-encoder/src/quantization.rs:187-307 | Quantising k times the divisor gives k, for every multiple in 16 bits |
| Quantization.QualityScales | rust/jpeg-encoder/src/quantization.rs:261-283 | An unclamped entry divided by eight is the base value times 50 / q up to quality 50, to within one half and a hundredth of the value and exactly where q divides 50, and from there on the base value times (100 - q) / 50, rounded to the nearest |
| Quantization.GetWithQuality | rust/jpeg-encoder/src/quantization.rs:261-283 | Every entry is eight times a byte, scaled by the quality as stated, and clamped to 1..255 |
| Quantization.QualityTables | rust/jpeg-encoder/src/quantization.rs:261-283 | Entries never grow with the quality; 50 keeps the base table, 25 doubles it, 100 divides by nothing but the transform's scale |
| Quantization.GetUserTable | rust/jpeg-encoder/src/quantization.rs:250-259 | Every entry is eight times the value clamped to 1..2048 |
| Quantization.SegmentValueFits | rust/jpeg-encoder/src/quantization.rs:286-288 | The byte in the segment is the divisor if and only if the divisor is at most 255 |
| ForwardDct.Even | rust/jpeg-encoder/src/fdct.rs:128-144 | The factored even part is four linear forms of its inputs, with every intermediate in 32 bits |
| ForwardDct.Odd | rust/jpeg-encoder/src/fdct.rs:151-172 | The factored odd part is four linear forms of its inputs, with every intermediate in 32 bits |
| ForwardDct.Fdct | rust/jpeg-encoder/src/fdct.rs:105-240 | The two loops in place compute the transform of the block |
| ForwardDct.TransformBounds | rust/jpeg-encoder/src/fdct.rs:93-240 | No narrowing loses anything, output 0 is exactly the sum of the inputs, every other is within 8160 |
| ForwardDct.QuarterCosinesRound | rust/jpeg-encoder/src/fdct.rs:74-88 | Positive numbers that obey the double-angle identities of the cosines, scaled by 8192 times the root of 2, lie within one half of nine integers |
| ForwardDct.CoefficientsAreCosines | rust/jpeg-encoder/src/fdct.rs:74-88 | Coefficient k of output u is the scaled cosine of (2k + 1) u sixteenths of a half turn, to within one and a half units |
| ForwardDct.TransformNear | rust/jpeg-encoder/src/fdct.rs:105-240 | Every output is within one and a half of the exact two-dimensional form: all samples, each times its coefficients in both directions |
| Sampling.CeilDivLeast | rust/jpeg-encoder/src/encoder.rs:1405-1407 | The least number of divisors that holds the value |
| Sampling.FillRow | rust/jpeg-encoder/src/encoder.rs:701-719 | The row buffer holds each line padded with its last sample, the last line repeated below the image |
| Sampling.PositionExact | rust/jpeg-encoder/src/encoder.rs:733-746 | When the position read is the one that subsampling asks for, both ways |
| Sampling.BlockInRow | rust/jpeg-encoder/src/encoder.rs:1383-1403 | Every index is inside the row buffer and the sample is the component's, edges repeated |
| Zigzag.ZigzagWalks | rust/jpeg-encoder/src/writer.rs:23-27 | The table is the zigzag walk of Figure A.6: along the diagonals, turning at the edges |
| Zigzag.ZigzagPermutation | rust/jpeg-encoder/src/writer.rs:23-27 | The table holds every place of a block exactly once |
| Zigzag.UnzigzagAt | rust/jpeg-encoder/src/encoder.rs:1431-1436 | Undoing the order puts every value at the place the table names |
| ImageScan.QuantizeBlock | rust/jpeg-encoder/src/encoder.rs:1431-1436 | Coefficients quantised with their own entry, in zigzag order |
| ImageScan.UnzigzagQuantized | rust/jpeg-encoder/src/encoder.rs:1431-1436 | Undoing the order gives each coefficient its own quantised value |
| ImageScan.MaxAttained | rust/jpeg-encoder/src/encoder.rs:595-605 | No component exceeds the largest factors, and some component has each, or it is 1 |
| ImageScan.OrderIsHeaders | rust/jpeg-encoder/src/encoder.rs:682-737 | The blocks come in the scan order that a decoder derives from the sides and the sampling factors alone |
| ImageScan.DecodedWithin | rust/jpeg-encoder/src/encoder.rs:848-869 | What a decoder multiplies out of a block is within one step of the transform at every place |
| ImageScan.ScanDecodes | rust/jpeg-encoder/src/encoder.rs:820-874 | Every block of every component in every MCU is at its number in the scan, and multiplied out with the table of its component it is within one step of the transform of the samples of the component's plane at its place |
| ImageScan.CollectBlocks | rust/jpeg-encoder/src/encoder.rs:820-874 | Pass 1 collects every block of every component in the MCU order of section A.2.3 of T.81, and they decode to the image in that sense |
| ImageEncoding.QuantizedSmall | rust/jpeg-encoder/src/encoder.rs:848-869 | Quantised DC values of any samples lie in -1025..1017 and the others within 1021, for every table |
| ImageEncoding.DiffTypical | rust/jpeg-encoder/src/writer.rs:304-316 | The DC differences of an image have category 11 at most |
| ImageEncoding.AcItemsTypical | rust/jpeg-encoder/src/writer.rs:318-350 | The AC symbols of an image are those of the typical tables: sizes 1 to 10, zero runs and ends of blocks |
| ImageEncoding.SmallImage | rust/jpeg-encoder/src/encoder.rs:794-826 | Images up to 1024 by 1024 in up to three components have at most 49152 blocks |
| ImageEncoding.FewBlocksTabulable | rust/jpeg-encoder/src/encoder.rs:906-968 | Any image of fewer than 146467 blocks gives tables, if every table has a component |
| ImageEncoding.SmallImageTabulable | rust/jpeg-encoder/src/encoder.rs:794-901 | So does any image up to 1024 by 1024 in up to three components |
| ImageEncoding.EncodeImageInterleavedOptimized | rust/jpeg-encoder/src/encoder.rs:794-901 | From image rows to bytes, for every image whose tallies give tables: a decoder that knows the frame header reads exactly the quantised blocks of the image back, they decode to its samples' transform, and the tables are the best for its symbols |
| ImageEncoding.EncodeImageInterleaved | rust/jpeg-encoder/src/encoder.rs:673-783 | From image rows to bytes, one MCU at a time, with any restart interval: the sink grows by the segments of the image, and a decoder that knows the frame header reads exactly its quantised blocks back, which decode to its samples' transform |
| ImageEncoding.OnePassRoundTrip | rust/jpeg-encoder/src/encoder.rs:673-783 | With the default tables, the one-pass scan of any image decodes to its blocks in the order of the frame header |
| CoraFrames.EncodedLayout | ts/src/cora/frame.ts:32-45 | A frame whose fields fit, and no other, is encoded as 16 header bytes in the stated order, the lowest byte of each number first and byte 7 zero, and the payload |
| CoraFrames.DecodeEncoded | ts/src/cora/frame.ts:32-65 | An encoded frame decodes to itself, whatever bytes follow |
| CoraFrames.CoraFrameReader.Append | ts/src/cora/frame.ts:78-103 | The buffer is the last 131072 bytes of the old buffer and the chunk |
| CoraFrames.CoraFrameReader.ResyncToMagic | ts/src/cora/frame.ts:124-136 | Skipping to the next magic, or to the last three bytes, leaves what is still to be drained the same |
| CoraFrames.CoraFrameReader.DrainFrames | ts/src/cora/frame.ts:138-162 | The loop emits and keeps what the draining function says |
| CoraFrames.DrainKeepsFrames | ts/src/cora/frame.ts:124-162 | Whatever arrives later, the drained frames and those still to come are the frames of the whole |
| CoraFrames.DrainIsFrames | ts/src/cora/frame.ts:138-162 | Draining a whole stream at once finds what searching it byte by byte does |
| CoraFrames.DrainWaits | ts/src/cora/frame.ts:138-162 | Between calls the buffer is under 16 bytes or starts with the magic of an incomplete frame that fits |
| CoraFrames.BufferBounded | ts/src/cora/frame.ts:78-103 | The buffer never outgrows the cap over any run |
| CoraFrames.RunKeepsFrames | ts/src/cora/frame.ts:78-162 | Over any run within the cap, emitted frames and those still in the buffer are the stream's |
| CoraFrames.ReaderEmitsFrames | ts/src/cora/frame.ts:78-162 | A reader within the cap that has drained has emitted exactly the frames of the stream |
| CoraFrames.ChunkingIndependent | ts/src/cora/frame.ts:78-162 | Two ways of splitting one stream emit the same frames |
| CoraFrames.NoStraddle | ts/src/cora/frame.ts:4-4 | The magic has no border, so it never begins in magic-free junk before a frame |
| CoraFrames.ResyncRoundTrip | ts/src/cora/frame.ts:32-162 | Frames with magic-free junk around them are recovered exactly and in order under any splitting within the cap |
| AssemblyBudgets.ExpiredExactly | ts/src/cora/image-assembler.ts:86-91 | Expiry evicts exactly the stale assemblies although it stops at the first that is not |
| AssemblyBudgets.MadeRoomKeeps | ts/src/cora/image-assembler.ts:64-80 | charge never refuses an assembly within its own cap, and evicts no more of the least recently touched than it must |
| AssemblyBudgets.DiscardedKeeps | ts/src/cora/image-assembler.ts:118-126 | Dropping an entry keeps the invariant |
| AssemblyBudgets.AccumulatedKeeps | ts/src/cora/image-assembler.ts:170-210 | Adding a chunk keeps the invariant whatever it evicts, expires or drops |
| AssemblyBudgets.AccumulatedCount | ts/src/cora/image-assembler.ts:176-183 | A map that is fed with a cap never has more entries than that, whatever is evicted on the way |
| AssemblyBudgets.OldestOf | ts/src/cora/image-assembler.ts:178-181 | The entry that a full map gives up is the one of that map that was inserted first |
| AssemblyEffects.ChargedExactly | ts/src/cora/image-assembler.ts:64-91 | charge accepts an assembly within its own cap, which becomes the most recently touched; of the others exactly the stale ones go if it is new, and then the least recently touched, no more of them than must |
| AssemblyEffects.AccumulatedExactly | ts/src/cora/image-assembler.ts:170-210 | A chunk beyond the byte or chunk cap drops its assembly; any other is put behind the chunks of its assembly, or starts a new one, which costs the stale assemblies and the oldest entry of a full map; the least recently touched make room, no more of them than must |
| AssemblyEffects.NoStaleLeft | ts/src/cora/image-assembler.ts:64-91 | When a chunk starts a new assembly, every other entry that is left was touched less than 30 seconds ago, and is unchanged |
| AssemblyBudgets.QuietAccumulated | ts/src/cora/image-assembler.ts:170-210 | Where no cap trips and nothing expires, a chunk grows its own assembly and touches no other |
| ImageAssembly.Assemblies.ExpireStale | ts/src/cora/image-assembler.ts:86-91 | The loop expires what the specification says |
| ImageAssembly.Assemblies.Charge | ts/src/cora/image-assembler.ts:64-80 | The eviction loop accepts or refuses as the specification says; what is live behind it is exactly the assembly, touched now, and the most recently touched of the others that fit, the stale ones gone if it is new |
| ImageAssembly.Assemblies.AccumulateChunk | ts/src/cora/image-assembler.ts:170-210 | The chunk is taken exactly if it is within its assembly's own caps; the assembly has the old chunks and the new one, expiry and eviction are as stated, and otherwise the slot has no entry |
| ImageAssembly.Assemblies.AssembleImageChunk | ts/src/cora/image-assembler.ts:221-260 | One gen2 packet: the invariant holds again and the images are those it completes |
| ImageAssembly.Assemblies.AssembleGen1ImageChunk | ts/src/cora/image-assembler.ts:262-303 | One gen1 packet: the invariant holds again and the images are those it completes |
| ImageAssembly.Assemblies.AssemblePartialWindowChunk | ts/src/cora/image-assembler.ts:319-359 | A completed region is the one its packets named, with their joined bodies |
| ImageAssembly.Assemblies.Accept | ts/src/cora/touch-strip-assembler.ts:37-71 | LCD output changes nothing, a partial window gives its region, any other command is a window strip in a map fed with a cap of two, all under the same budget |
| ImageAssembly.Assemblies.ResetAssemblies | ts/src/cora/child-server.ts:321-326 | A reset empties the maps and the budget together |
| ImageAssembly.RunKeeps | ts/src/cora/image-assembler.ts:38-101 | Over every run of packets and resets the total is the sum over the live set, which is exactly what the maps reach, within the byte and chunk caps and ordered by last touch |
| ImageAssembly.StaleStartsOver | ts/src/cora/image-assembler.ts:64-91 | Once a chunk has started another assembly 30 seconds or more after a slot's was last touched, the slot's next chunk begins a new image, whatever happens to the other slots in between |
| ImageAssembly.ReportsAreFromReport | ts/src/cora/child-server.ts:288-346 | Whatever report arrives, its chunk goes to a key of the device or to a map with that map's own cap |
| ImageAssembly.ConnectionBounded | ts/src/cora/child-server.ts:288-346 | Over every run of reports and resets from a connection's start: the invariant, at most two window and eight partial-window assemblies, and at most one a key of the device for each kind of image |
| ImageAssembly.QuietStep | ts/src/cora/image-assembler.ts:170-303 | A quiet packet does to the chunks in flight and the images what the view of the slots alone says |
| ImageAssembly.InterleavingIndependent | ts/src/cora/image-assembler.ts:170-303 | In any quiet interleaving each key's images are those of its own packets alone |
| ImageAssembly.AloneBodies | ts/src/cora/image-assembler.ts:214-260 | They are its chunk bodies joined up to each last flag |
| ImageAssembly.Gen1ImageRecovered | ts/src/cora/image-assembler.ts:262-303 | Chunks that join to a BMP file and padding are trimmed back to exactly the file |
| ImageAssembly.Gen1PacketsRecovered | ts/src/cora/image-assembler.ts:262-303 | A BMP file sent in gen1 packets, among any other packets of a quiet run, comes out as exactly the file |
| ImageAssembly.Gen1Untrimmed | ts/src/cora/image-assembler.ts:288-303 | Gen1 chunks without a BMP header, or of a file that is longer than what came, come out whole |
| ImageAssembly.PartialPacketFeeds | ts/src/cora/image-assembler.ts:319-352 | A packet with x, y, w, h in bytes 2 to 9, the last flag in byte 10, the length in bytes 13 and 14 and the body behind 16 bytes of header feeds that body to that region |
| ImageAssembly.PartialPacketRefused | ts/src/cora/image-assembler.ts:324-347 | A short packet or a region outside the window is ignored, and a length beyond the packet drops the region |
| ImageAssembly.PartialPacketsRecovered | ts/src/cora/image-assembler.ts:319-359 | The packets of a region, among any other packets of a quiet run, give one image: that rectangle's, with their bodies joined |
| ImageAssembly.RegionKeyInjective | ts/src/cora/image-assembler.ts:329-334 | The key of a region inside the window gives the region back |
| ConnectionImages.StreamImages | ts/src/cora/child-server.ts:218-346 | Frames among magic-free junk, split in any way within the cap, yield for each key and region the joined bodies of its own packets in a quiet run |
| ConnectionImages.Gen2PacketRefused | ts/src/cora/image-assembler.ts:221-249 | A gen2 packet that is not well-formed feeds nothing: without an index it is ignored, and otherwise it drops the assembly it names |
| ConnectionImages.Gen1PacketRefused | ts/src/cora/image-assembler.ts:262-286 | So does a gen1 packet |
| ConnectionImages.ReportFeeds | ts/src/cora/child-server.ts:288-346 | A well-formed report for a key, a gen1 key, the window strip or a region feeds its body to that target, in a map with its own cap |
| ConnectionImages.ImagesArrive | ts/src/cora/child-server.ts:218-346 | The images sent to any such target in frames, whatever else is sent between them and however the bytes are split, come out of its slot once each and in order in a quiet run |
| ConnectionImages.DeliveredWhole | ts/src/cora/image-assembler.ts:214-359 | Those of a key, the strip and a region are the joined bodies, and the slot of a region gives its rectangle |
| ConnectionImages.DeliveredFiles | ts/src/cora/image-assembler.ts:262-303 | Those of a gen1 key are the BMP files without their padding |
| ConnectionImages.KeyImagesArrive | ts/src/cora/child-server.ts:218-346 | The images sent to a key in frames, whatever else is sent between them and however the bytes are split, come out whole, once each and in order in a quiet run |

## Left out

- Progressive scans, one scan per component, CMYK and YCCK, ICC and application segments, and the header and table segments around a scan: they add cases to the scan coder, not depth.
- The AVX2 variants of the transform and the quantiser, a 32-bit `usize`, and errors from the sink.
- Colour conversion, and what the image crate does before encoding.
- ImageEncoding.EncodeImageInterleaved: collects the blocks of one MCU and then writes them, where the source writes each block as soon as it is quantised; nothing between two blocks of an MCU depends on the writer.
- ImageEncoding.EncodeImageInterleavedOptimized: asks that the tallies give tables; `ImageEncoding.FewBlocksTabulable` shows it for fewer than 146467 blocks. Beyond that it depends on the tallies: `FibonacciTree.CodeSizeBoundIsSharp` gives frequencies for which a size leaves the array, but no image that has them.
- ScanEncoder.Encoder.EncodeInterleavedOptimized: asks that every table in use has data, where the source stops with an assertion.
- PrefixCodes.TableIsOptimal: is about trees of height 16 at most, and so are the statements of `ScanCosts`; the rewrites of Figure K.3 are a heuristic of the standard, and only the sum of the lengths and the share of the short codes are bounded, not the cost for given frequencies.
- The trimming of backing stores in the CORA reader (`compact`, `retainedBytes`), log throttling and debug traces: they leave the contents unchanged.
- What the CORA reader emits once its cap has dropped bytes, beyond the buffer staying within the cap.
- Assemblies are values in a store keyed by an identity, and the four maps of a connection are one map from (map, key) to identities with its insertion order; the class `Assemblies` holds them together with the budget's set and total, so two connections do not share objects in the model.
- The number of keys of a device is fixed for a connection. Acknowledgements, sockets, keepalives, discovery, device I/O, the web interface and settings.
