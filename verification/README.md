# Verified model of carquet's Snappy codec, benchmark generator and row commands

This project models four parts of carquet and proves what they are for.

**The Snappy codec (`src/compression/snappy.c`).** `SnappyFormat` and `SnappyReference` say what the
decoder takes a stream to mean: a varint length and a list of literal and copy elements, replayed byte by
byte; `SnappyForms` lists the forms of an element byte by byte. `SnappyStandard` says what the format's own
description means by a stream, and where the two part. `Decompress` and `MatchCopy` model the decoder with its 8-, 16- and 64-byte moves that spill past the
output cursor, on a real output array; `Compress`, `Emit`, `MatchLength` and `Bits` model the encoder,
with its hash table, start-up probe, skipping search, wide stores and the gotos between them turned into
loops; `Greedy` says which elements it chooses, as a function of the input, and `Shortest` that no other
bytes as short stand for them. The central results:

- the decoder accepts exactly the streams the reference accepts: those of the format, and beyond them
  only the empty one and streams with a literal length that wraps;
- the encoder's output is, for any hash function, the greedy parse of the input, valid in the format,
  decoding to the input, within a tight bound, and shorter than any other stream of the same elements;
- the round trip always succeeds with the length of the input, when that fits 32 bits. It is the identity
  in the vector build. In the scalar build it is the identity exactly when every copy of the greedy parse
  found the bytes beyond the output as it needs them, which `RoundTrip` proves of every input without a
  short period; it does not bring back, for one, columns that repeat a certain 64-bit value.

**The benchmark's random numbers.** `Lcg` proves that the vectorised jump-ahead of
`benchmark/benchmark_pyarrow.py` produces the table that the one-step generator of
`benchmark/benchmark_carquet.c` produces, without 64-bit overflow.

**The schema printer and the row commands (`src/cli/commands.c`).** `SchemaPrinter` proves exactly when
the walk with a stack of counters prints the nested rendering of a schema. `Rows` proves that `cat`,
`tail` and `sample` read the right rows of every column across any row groups, and `Csv` which text
`export` prints, and that it can be parsed back to the header and the selected cells.

## Conventions

- Bytes are integers 0 to 255. Shifts, masks and disjoint ors are written as division, remainder and
  addition; exclusive or and the counts of leading and trailing zeros are defined bit by bit in `Bits`.
  Loads and stores are little-endian. Where C arithmetic is 32 bits wide (varint, literal length, the
  length cast in compression, the generator) the width is explicit.
- Input buffers, which are only read, are sequences; output buffers are arrays written in place. Their
  capacity is the array's length. Positions in a block count from its start.
- The parameter `vector` selects the build: with vector shuffles (`big_pattern` 16) or without (8).
- Every method's frame is part of its contract: bytes below the cursor and beyond the stated limit are
  unchanged, bytes between are scratch.

## What does not hold of the code

- **The scalar build can expand a match wrongly.** For offsets 8 to 15 shorter than the match, away from
  the end of the buffer, it uses 16-byte moves, whose second half is loaded before the first is stored.
  `MatchCopy.IncrementalCopy` states for every buffer when the copy is right, `MatchCopy.HazardExact`
  that it is right for every content of the buffer if and only if the guard of that branch is false.
  `Decompress.Decompress` states when the whole output is right: exactly when each copy found the scratch
  bytes as it needs them, so that a wrong byte is never made good later. `ScalarBuild.DecodesWrongly` gives
  a stream. The compressor produces such streams itself: `ScalarBuild.ConstantColumn` shows that a column of
  four or more times the 64-bit value 0x0807060504030201 comes back as other bytes, with status OK. What a caller can check
  beforehand is that no pattern of 8 to 15 bytes is repeated (`ShortPeriod`) in the input, or `NoHazard`, on
  its greedy parse or on a stream. The build
  with GCC or Clang on x86 sets `-mssse3` (`CMakeLists.txt:324-328`), and NEON and WebAssembly SIMD builds
  are vector builds too; others are scalar. The comment at `src/compression/snappy.c:8-9`, that output
  always decompresses to the same result, is proved for the vector build, and for the scalar build under
  these conditions.
- **Inputs of 2^32 bytes or more** get a truncated length. `Compress.StreamDecodes` and
  `RoundTrip.RoundTrip` show that the round trip succeeds if and only if the input is shorter.
- **Literal lengths.** The length of a literal is computed in 32 bits, so that four bytes `FF FF FF FF`
  make an empty literal, where section 2.1 of format_description.txt has one of 2^32 bytes. The reference
  follows the code. `SnappyStandard.StandardAgrees` shows that this and the empty input are all that the
  decoder accepts beyond the format, and `SnappyStandard.MalformedAccepted` gives such a stream.
- **Schemas with an empty group, or deeper than the stack,** are not printed nested, as
  `SchemaPrinter.PrintsNested` shows in both directions.

## Model

| member | source | states |
|---|---|---|
| SnappyFormat.OverlapCopyRepeats | src/compression/snappy.c:322-326 | the byte-by-byte copy is the one extension of the output that repeats itself at the offset, both ways |
| SnappyFormat.OverlapCopySplits | src/compression/snappy.c:637-651 | a copy may be split into consecutive copies at the same offset |
| SnappyFormat.NextElementPrefix | src/compression/snappy.c:486-584 | reading an element does not depend on what follows it |
| SnappyFormat.ElementsAppend | src/compression/snappy.c:486-586 | element strings can be appended, and parse to the appended lists |
| SnappyFormat.ReplayAppend | src/compression/snappy.c:486-586 | replaying appended lists is replaying one after the other |
| SnappyFormat.ReplayAfter | src/compression/snappy.c:824-831 | elements that decode to a block on their own decode to it after any earlier output, since their copies stay inside it |
| SnappyForms.ShortLiteralForm | src/compression/snappy.c:490-520 | a tag of one byte and 1 to 60 bytes are read as that literal, whatever follows |
| SnappyForms.LongLiteralForm | src/compression/snappy.c:490-520 | one to four length bytes, as many as are needed or more, and the content are read as that literal; the length 2^32 as none |
| SnappyForms.Copy1Form | src/compression/snappy.c:522-532 | the two-byte form of a copy, for every length 4 to 11 and offset below 2048 |
| SnappyForms.Copy2Form | src/compression/snappy.c:533-542 | the three-byte form, for every length 1 to 64 and offset below 65536 |
| SnappyForms.Copy4Form | src/compression/snappy.c:570-583 | the five-byte form, for every length 1 to 64 and offset below 2^32 |
| SnappyForms.LiteralForms | src/compression/snappy.c:490-520 | whatever is read as a literal is one of the two forms, byte for byte |
| SnappyForms.CopyForms | src/compression/snappy.c:522-583 | whatever is read as a copy is one of the three forms, byte for byte |
| SnappyForms.ElementMeaning | src/compression/snappy.c:514-568 | a literal appends its bytes; a copy is refused exactly when its offset is zero or reaches before the output, and else gives the one output that repeats at its offset |
| SnappyForms.Copy4BlockDecodes | tests/test_compression.c:697-741 | the stream of that test, a copy in the five-byte form, decodes to four times the word |
| SnappyReference.RunIsBody | src/compression/snappy.c:486-591 | the left-to-right decoder that stops when the output is complete accepts exactly the strings the declarative reference accepts, with the same output |
| SnappyReference.BodyStep | src/compression/snappy.c:486-586 | one element taken off a stream that is not complete, including the overrun test |
| SnappyReference.NothingFollows | src/compression/snappy.c:588-591 | an accepted stream with any bytes after it is refused |
| SnappyStandard.StandardAgrees | src/compression/snappy.c:490-504 | the format, with lengths that do not wrap, accepts exactly the non-empty streams that the reference accepts and in which no literal length wraps, with the same output |
| SnappyStandard.BodiesAgree | src/compression/snappy.c:486-591 | the same for the elements after the preamble, after any output so far and for any declared length |
| SnappyStandard.WrappedIsSkipped | src/compression/snappy.c:486-504 | while output is still to come, a literal whose length wraps changes nothing |
| SnappyStandard.MalformedAccepted | src/compression/snappy.c:498-503 | a stream that is not in the format and that the decoder accepts |
| Varint.DecodeEncode | src/compression/snappy.c:201-230 | a written uint32 is read back with its exact byte count, whatever follows, and takes at most five bytes |
| Varint.DecodeDigits | src/compression/snappy.c:201-219 | one to five digits are read as their number, also when fewer would do |
| Varint.DecodeRefuses | src/compression/snappy.c:201-216 | a number that is cut short is refused, and a fifth digit of 16 or more |
| Varint.DecodeShortest | src/compression/snappy.c:222-230 | no shorter string is read as the number, and no other of the written length |
| Varint.Read | src/compression/snappy.c:201-220 | the unrolled reader is the base-128 decoding, including truncation and a fifth digit that is too large |
| Varint.Write | src/compression/snappy.c:222-230 | the writing loop stores exactly the encoding and nothing else |
| MatchCopy.CopySlow | src/compression/snappy.c:322-326 | every byte written equals the one an offset before it |
| MatchCopy.CopyBlocks | src/compression/snappy.c:422-425 | chained 16-byte moves, also used for matches at 554-557: which bytes come from before their block was written, and no write 15 bytes or more past the match |
| MatchCopy.ReshuffleAdvances | src/compression/snappy.c:260-278 | reshuffling by (16 + i) mod ps turns one 16-byte chunk of the repeated pattern into the next |
| MatchCopy.CopyPattern | src/compression/snappy.c:341-391 | the vector branch tiles the pattern over the whole match and writes less than 15 bytes past it |
| MatchCopy.TilesExtend | src/compression/snappy.c:396-410 | bytes equal to those a whole number of periods before continue a tiling |
| MatchCopy.TilesIsOverlapCopy | src/compression/snappy.c:328-446 | a tiling by the pattern before the cursor is the byte-by-byte copy, both ways |
| MatchCopy.CopyDoubling | src/compression/snappy.c:394-416 | the scalar doubling branch tiles the pattern, writing inside the buffer limit |
| MatchCopy.DoublingStep | src/compression/snappy.c:397-411 | an 8-byte copy from a whole number of periods back lengthens the tiling |
| MatchCopy.CopyNearEnd | src/compression/snappy.c:429-445 | the branch near the buffer end, byte by byte, never writing at or past the limit |
| MatchCopy.IncrementalCopy | src/compression/snappy.c:328-446 | incremental_copy gives the byte-by-byte result if and only if the scratch bytes fit, in both builds, and writes only between cursor and buffer limit |
| MatchCopy.HazardExact | src/compression/snappy.c:339-438 | it is right for every content of the buffer if and only if it is a vector build, or the offset is below 8 or above 15 or at least the length, or the cursor is within 16 bytes of the buffer limit |
| MatchCopy.HazardExample | src/compression/snappy.c:420-427 | a concrete buffer for which the scalar build gets the copy wrong |
| MatchCopy.StaleTiles | src/compression/snappy.c:420-445 | block copies tile the pattern exactly when the stale bytes already do |
| Decompress.LowByteIsLength | src/compression/snappy.c:524-541 | the low byte of the tag table's entry is the copy length |
| Decompress.ReadLiteralHeader | src/compression/snappy.c:491-504 | short and long literal lengths, with the 32-bit wrap and the truncation error |
| Decompress.ExpandLiteral | src/compression/snappy.c:490-520 | a literal is accepted exactly when it is whole and fits, and is appended whichever copy is used; what a wide copy spills is stated byte by byte |
| Decompress.ReadCopy | src/compression/snappy.c:522-576 | offset and length of the three copy forms, or None when the trailer is cut short |
| Decompress.ExpandMatch | src/compression/snappy.c:550-568 | the block, 64-byte and pattern paths all give the byte-by-byte copy exactly when the scratch bytes fit, writing only inside the declared output |
| Decompress.NoHazardClean | src/compression/snappy.c:333-343 | in the vector build always, and in the scalar build when no element is a hazard, every copy finds what it needs whatever the scratch bytes |
| Decompress.ExpandElement | src/compression/snappy.c:486-586 | one turn of the loop fails exactly on a cut, illegal or overrunning element, and applies any other one exactly when the scratch bytes fit |
| Decompress.TurnRight | src/compression/snappy.c:486-586 | the output is right after a turn if and only if it was before and the scratch bytes fitted |
| Decompress.Decompress | src/compression/snappy.c:452-595 | for every byte string: success exactly when the reference accepts and the output fits, with the reference length; the bytes are the reference's if and only if every copy found the scratch bytes as it needs them, in the traced buffers from the initial to the final one; so always in the vector build, and in the scalar one without hazards; nothing past the declared length is written |
| ScalarBuild.DecodesWrongly | src/compression/snappy.c:452-595 | carquet_snappy_decompress, scalar, on a 22-byte stream returns OK and not the reference output, unless the buffer already held the right byte |
| ScalarBuild.StaleByte | src/compression/snappy.c:420-427 | a copy from eight back right after a first literal comes out wrong when the byte beyond the literal is not the one it has to put there |
| ScalarBuild.ConstantColumn | src/compression/snappy.c:452-835 | a column of the 64-bit value 0x0807060504030201, four or more times, compressed and decompressed by the scalar build into a buffer that does not already hold the right byte, returns OK and other bytes |
| Decompress.GetUncompressedLength | src/compression/snappy.c:845-860 | the declared length, which for any stream that decodes is the length of its output |
| Bits.XorSplit | src/compression/snappy.c:610-612 | exclusive or acts on the low bits and on the rest separately |
| Bits.XorFindsDifference | src/compression/snappy.c:610-614 | trailing zeros of the exclusive or, divided by eight, is the index of the first byte that differs |
| Bits.CountLeadingZeros | src/compression/snappy.c:93-95 | bounds the word between the two powers of two its leading zeros name |
| MatchLength.FastMatchLength | src/compression/snappy.c:606-620 | the length of the longest common prefix up to the limit, also for overlapping ranges |
| MatchLength.MatchLenUnique | src/compression/snappy.c:606-620 | there is one such length, for ranges that may overlap |
| Emit.ExtraBytesSuffice | src/compression/snappy.c:627-631 | the number of extra length bytes holds the length, and costs at most a sixtieth of the literal |
| Emit.HeaderRoundTrip | src/compression/snappy.c:622-632 | a literal header of either form is read back as the length, for every uint32 length |
| Emit.HeaderShortest | src/compression/snappy.c:622-632 | the header is the shortest for the length: none, one, two, three or four bytes more than the tag, up to 60, 256, 65536, 16777216 and beyond |
| Emit.LiteralRoundTrip | src/compression/snappy.c:622-635 | header and content parse to exactly that literal |
| Emit.EmitLiteral | src/compression/snappy.c:622-635 | what is written parses to the literal in its shortest form, costs at most L + 1 + L/60 bytes, and nothing else is touched |
| Emit.Copy1RoundTrip | src/compression/snappy.c:654-660 | the two-byte form decodes to the offset and length it was made from |
| Emit.Copy2RoundTrip | src/compression/snappy.c:639-672 | the three-byte form decodes to the offset and length it was made from |
| Emit.SplitCopyIsCopy | src/compression/snappy.c:637-673 | copies of 4 to 64 bytes at one offset that sum to a length do what one copy of that length does |
| Emit.EmitLastCopy | src/compression/snappy.c:653-671 | the form chosen decodes to the copy and is the shorter one that can, in fewer bytes than it covers, spilling at most two bytes |
| Emit.CopyElementsSplit | src/compression/snappy.c:637-673 | for every length from 4: elements of 4 to 64 bytes at the offset, summing to the length |
| Emit.CopyElementsLengths | src/compression/snappy.c:637-651 | they are as few as can be, all of 64 bytes but the last, and the last but one of 60 when one to three would be left |
| Shortest.ElementsShortest | src/compression/snappy.c:622-673 | whatever parses to the elements is at least as long as their shortest forms, and the same bytes when no longer |
| Shortest.StreamShortest | src/compression/snappy.c:813-834 | the same for a stream with its declared length |
| Emit.EmitCopy | src/compression/snappy.c:637-674 | for every length from 4 and offset from 1 to 65535 the bytes written parse to those elements, each in its shortest form, in fewer bytes than the match |
| Compress.EncodesLiteral | src/compression/snappy.c:744-746 | appending a literal extends what the output decodes to |
| Compress.EncodesCopy | src/compression/snappy.c:750-753 | appending a split copy extends what the output decodes to by one overlapping copy |
| Compress.EncodesConcat | src/compression/snappy.c:824-831 | blocks written one after the other decode to their concatenation |
| Greedy.MatchHasFour | src/compression/snappy.c:750-752 | a match found by its word is at least four bytes long and ends inside the block, so that every match advances |
| Greedy.FirstHitIsFirst | src/compression/snappy.c:697-742 | the probe that ends a search is the one hit before which there is none, and a search without hits has none to find |
| Greedy.ProbesConsecutive | src/compression/snappy.c:721-742 | the first 32 probes of a search are at consecutive positions |
| Greedy.ShortBlocks | src/compression/snappy.c:681-695 | blocks below 15 bytes are one literal, and those below 32 are searched from position 1 |
| Greedy.LongBlocks | src/compression/snappy.c:696-719 | in longer blocks the first literal ends at the first hit of positions 1 to 16, and the search goes on from 17 if there is none |
| Greedy.StreamBlocks | src/compression/snappy.c:824-831 | the input is parsed in blocks of 65536 bytes |
| Compress.Exchange | src/compression/snappy.c:734-735 | the old entry is returned and the new position recorded; entries stay earlier positions in the slot of their hash |
| Compress.Probe | src/compression/snappy.c:704-707 | one probe: whether the slot holds an earlier position with the same four bytes |
| Compress.Search | src/compression/snappy.c:721-742 | both skipping loops (also 769-791) end at the first hit of the accelerating probe sequence, with the candidate and the table it leaves, or when the next probe would pass the limit |
| Compress.StartupProbe | src/compression/snappy.c:697-719 | the shifted word is the load at each of positions 1 to 16; the first hit is taken, with its candidate, table and the literal before it |
| Compress.MatchIsCopy | src/compression/snappy.c:750-753 | a match is an overlapping copy that reproduces the input |
| Compress.EmitMatch | src/compression/snappy.c:750-753 | the longest match at this candidate is encoded, within the size bound |
| Compress.Reindex | src/compression/snappy.c:761-764 | the two table updates after a match, in order, and the candidate between them |
| Compress.EmitMatches | src/compression/snappy.c:748-766 | the match loop: what is emitted decodes to the input up to the cursor, and with what follows it is what the greedy parse makes of the match |
| Compress.FirstMatch | src/compression/snappy.c:684-746 | the start of a block up to emit_match: what is emitted, with what follows the first match, is the greedy parse of the block |
| Compress.CompressBlock | src/compression/snappy.c:676-797 | for any hash function the output is the greedy parse of the block and decodes to it, with copies of offset 1 to 65535 inside it, in at most n + n/60 + 1 bytes, no store past n + n/60 + 2 |
| Compress.StreamDecodes | src/compression/snappy.c:813-834 | preamble and elements decode to the input, for the decoder and in the format alike, if and only if its length fits 32 bits |
| Compress.Compress | src/compression/snappy.c:799-843 | succeeds exactly when the buffer has 32 + n + n/6 bytes, and writes nothing past them; then a stream of the greedy parse of every block, valid in the format and decoding to the input, within n + n/60 + ceil(n/65536) + 5 bytes, and shorter than any other stream of these elements |
| RoundTrip.RepeatsAtMeans | src/compression/snappy.c:322-326 | what it is that data repeats itself at a position, byte by byte |
| RoundTrip.NoShortPeriodNoHazard | src/compression/snappy.c:420-427 | elements that replay to data without a short period hold no hazard |
| RoundTrip.RoundTrip | fuzz/fuzz_roundtrip.c:310-328 | succeeds, with the length of the input, exactly when that is shorter than 2^32 bytes; then the vector build gives the input back, and the scalar build does if and only if every copy found the scratch bytes as it needs them, so for every input without a short period and every input whose greedy parse has no hazard |
| Lcg.StepsFrom | benchmark/benchmark_carquet.c:178 | every state is 1103515245 times the one before plus 12345, modulo 2^32 |
| Lcg.DrawBits | benchmark/benchmark_carquet.c:179 | a draw is bits 16 to 30 of the state |
| Lcg.FirstDraws | benchmark/benchmark_carquet.c:174-180 | the first four draws from the seed 42 |
| Lcg.PowerIsSteps | benchmark/benchmark_pyarrow.py:111-116 | the affine map of k steps applied to a state is the state after k single steps |
| Lcg.PowerAdd | benchmark/benchmark_pyarrow.py:99-105 | composing the maps of j and k steps is the map of j + k steps |
| Lcg.ComposeAt | benchmark/benchmark_pyarrow.py:102-103 | composition of affine maps modulo 2^32 is application one after the other |
| Lcg.PowerDoubles | benchmark/benchmark_pyarrow.py:104-105 | squaring the current map doubles its steps, and no uint64 product overflows |
| Lcg.AdvanceMasked | benchmark/benchmark_pyarrow.py:99-103 | the masked update turns entries for i mod bit into entries for i mod 2 bit, without overflow |
| Lcg.AdvanceParams | benchmark/benchmark_pyarrow.py:89-108 | entry i is the map of i + 1 steps, for every count |
| Lcg.RandChunk | benchmark/benchmark_pyarrow.py:111-116 | the outputs are bits 16 to 30 of the states after 1 to count single steps, and the final state is the last of them, without overflow |
| Lcg.Generator.Rand | benchmark/benchmark_carquet.c:177-180 | each call makes the next state and gives its bits 16 to 30, the next draw of the sequence |
| Lcg.RowNumbers | benchmark/benchmark_carquet.c:204-206 | the id is 1000000 plus the first draw of the row, the value is made of the next two, and the category is the fourth modulo 100 |
| Lcg.DrawRow | benchmark/benchmark_carquet.c:204-206 | the four draws of a row, in order |
| Lcg.TestDataCreate | benchmark/benchmark_carquet.c:195-209 | row r is made, in these numbers, of draws 4r + 1 to 4r + 4 from seed 42 |
| Lcg.GenerateData | benchmark/benchmark_pyarrow.py:119-140 | the same rows, whatever the chunk boundaries |
| Lcg.SameTestData | benchmark/benchmark_pyarrow.py:119-120 | both benchmarks build the same table |
| SchemaPrinter.PrintSchema | src/cli/commands.c:258-323 | the loops over the counter stack print the nested rendering of a stored schema if and only if every group has a child and no more than 62 are nested, and then end at depth 1 with the root's counter at 0 |
| SchemaPrinter.WalkForest | src/cli/commands.c:268-323 | a printable forest is printed nested and the walk goes on as after it |
| SchemaPrinter.WalkCloses | src/cli/commands.c:307-322 | the walk never closes more groups than it met, and fewer when a counter can no longer reach zero |
| SchemaPrinter.UnprintableWalk | src/cli/commands.c:307-322 | an empty group, or one met with the stack full, leaves a group unclosed |
| SchemaPrinter.PrintableHeight | src/cli/commands.c:299-304 | where a group is met below the limit is a matter of how deep groups are nested |
| SchemaPrinter.PrintsNested | src/cli/commands.c:253-325 | the same of the walk as a function: nested if and only if no group is empty and at most 62 are nested, and then it ends with the root's counter alone, at zero |
| SchemaPrinter.ListColumnPrinted | src/metadata/schema.c:634-667 | the lines printed for a list column and a leaf after it |
| Rows.SliceRows | src/cli/commands.c:1146-1226 | what a slice is, row by row and in length, for any offset and limit |
| Rows.CellUnique | src/cli/commands.c:1218 | a cell of the matrix is at row * columns + column, inside it and in its own column |
| Rows.ReadColumnStrings | src/cli/commands.c:1146-1226 | for any row groups, the slice of the concatenated column lands in its matrix column and no other cell changes |
| Rows.ReadRows | src/cli/commands.c:1228-1246 | every selected column holds its slice, and the row count is the longest |
| Rows.ClampSlice | src/cli/commands.c:1261-1264 | a range of rows that exist, containing exactly the existing rows that the options ask for, negative ones included |
| Rows.AskedRows | src/cli/commands.c:1261-1264 | what the options ask for, row by row and in number: a negative offset starts at 0, a negative limit takes all that are left |
| Rows.ClampedSlice | src/cli/commands.c:1261-1264 | slicing by such a range gives exactly these rows |
| Rows.ReadSelected | src/cli/commands.c:1257-1287 | clamping and reading composed: every selected column of the matrix holds exactly the rows asked for, and the row count is their number |
| Rows.Tail | src/cli/commands.c:800-894 | every column of the table holds the last min(n, total) rows, for any row groups |
| Rows.RemoveDuplicates | src/cli/commands.c:935-941 | sorted indices become strictly ascending in place, with the same members |
| Rows.SampleColumn | src/cli/commands.c:958-1012 | output row k is row indices[k] of the concatenated column |
| Rows.Sample | src/cli/commands.c:933-1013 | duplicates removed and, in every column of the table, row k is row indices[k], for any row groups |
| Csv.QuotedRoundTrip | src/cli/commands.c:1321-1326 | a quoted field with doubled quotes is read back, and ends where it should |
| Csv.FieldRoundTrip | src/cli/commands.c:1308-1327 | a field of either form is read back, whatever follows its separator |
| Csv.RecordRoundTrip | src/cli/commands.c:1378-1384 | a line is read back as its fields |
| Csv.TextRoundTrip | src/cli/commands.c:1358-1384 | a whole table is read back from its text |
| Csv.FieldForms | src/cli/commands.c:1308-1327 | a value without comma, double quote, line feed and carriage return stands as it is, and any other is quoted |
| Csv.DoubledJoins | src/cli/commands.c:1321-1325 | quotes are doubled character by character, wherever the value is cut |
| Csv.RecordJoins | src/cli/commands.c:1378-1384 | fields are separated by commas and a record ends with a line feed |
| Csv.ExampleText | src/cli/commands.c:1358-1384 | the text of a table with a plain cell that holds a space and one that has to be quoted |
| Csv.EmitCsvField | src/cli/commands.c:1308-1327 | the character loops append a value without comma, quote and line end verbatim, any other quoted with its quotes doubled, and nothing for a missing cell |
| Csv.ExportRows | src/cli/commands.c:1378-1384 | the row and column loops print the text of the matrix rows |
| Csv.Export | src/cli/commands.c:1343-1384 | the output is the text of a table, and parsing it gives that table back: the header, and then exactly the cells asked for, for any row groups, options and characters; without any column the output is an empty line |

## Left out

- RoundTrip.RoundTrip: for the scalar build no condition on the input alone is given that is also necessary, because a copy that is a hazard comes out right when earlier wide stores, or what the buffer held before, happen to have left the right bytes beyond the output; with those buffers the condition is exact.
- Decompress.ExpandMatch: what a match leaves beyond the output, where its moves spill, is not stated byte by byte, only that it stays inside the declared output.
- NULL pointer arguments and the 64-bit wrap of sizes: Dafny's arrays and integers exclude them.
- The entries of `kLengthMinusOffset` and of the shuffle mask tables one by one: the formulas their comments give are used (`src/compression/snappy.c:148-151`, `240`, `260`).
- Vector instructions, prefetching and branch hints: a shuffle is an indexed gather of 16 bytes.
- Box-Muller arithmetic in floating point: a function of the two draws, the same on both sides.
- Sorting and random choice of the sampled indices: `qsort` and `rand` are outside the program, so the sorted indices are an input.
- Nullable columns, reader failures and value formatting in the row commands: a column chunk is a cursor over values already formatted.
- The text inside a printed schema line; lines carry their depth and their text.
- Column filters, table layout and command-line parsing: they would only add easy members.
- The wrappers around zlib, liblz4 and libzstd, and the Parquet reader and writer: not part of this model.
