# Verification of the imDedup+ coding core

A Dafny model of the parts of this repository on which lossless storage rests, with proofs of what they promise.
`dafny verify dfyconfig.toml` checks the whole project.

The system finds, for each JPEG image, a similar earlier one, codes it as copies from that base and literal blocks, and
codes its header as a VCDIFF delta. The model follows that path:

- **Similarity and memory.** `FeatureIndex` is the feature index that chooses a base; `BufferList` is the list of
  decoded images with pinned nodes and eviction; `Pipeline` is the network of threads and bounded queues as a state
  machine, over every interleaving of its atomic steps.
- **Image delta.** `ImageIndex` is the block index of a base component, `ImageDelta` the copy and insert instructions
  with their replay, `ImageLaw` what those instructions are without the search, `ImageCodec` the coder and the decoder
  over growing arrays and pointers. `LiteralRle` and `LiteralVli` are the symbols and the bit packing of literal blocks,
  `Rejpeg` the buffer they are stored in, `ImageEndToEnd` the whole path of an image.
- **VCDIFF.** `Vcdiff` is the meaning of whole-file instruction lists after section 3 of RFC 3284, `Merge` the
  composition of two deltas, `MergeShape` which instructions it makes, `Flatten` the window decoder and the construction
  of whole-file lists, `FlattenAccept` which windows the decoder accepts, `VcdiffInt` the integer format of section 2 of
  RFC 3284, `Adler` the checksum of section 2.2 of RFC 1950.
- **DJW secondary coder.** `DjwHeap`, `DjwTree` and `DjwPrefix` find code lengths, `DjwOptimal` proves them best;
  `DjwCodes` has canonical codes and the table decoder; `DjwMtf` the run-coded move-to-front list; `DjwHuffman` the coder
  and the decoder for one group.
- **Shared pieces.** `FseBits` is the bit stream that is written forward and read backward, `Rabin` the rolling hash over
  GF(2); `BitIO`, `Kraft`, `Arith` and `Common` hold bits, Kraft sums, arithmetic and small types.

Imperative code is modelled by methods and classes over arrays and fields, each proved against a specification function
or predicate; the properties are lemmas about those specifications and the contracts that connect them. Where a decoder
is only right on what the coder wrote, its method takes the original as a ghost parameter and says what it returns then.

## Findings

Where the code does not do what a caller might expect, the model keeps the code and states the exact condition.

- Length bytes of literal blocks are decompressed into 1024 times their compressed size, computed in 32 bits
  (rejpeg.c:985-989). Very regular literals can compress better than that; they are not read back then. The condition
  is one on the literals and the entropy coder: `Rejpeg.RoundTrip` and `ImageEndToEnd.RoundTrip` hold in both
  directions. Of the coder only this is known: it declines one byte repeated, as grey blocks have it
  (`Rejpeg.GreyIsReadable`), and otherwise gives two bytes or more. Blocks are read back with every such coder exactly if
  they have at most 2048 length bytes or these are all the same (`Rejpeg.ReadableWithAnyCoder`). `Rejpeg.PlainCanBeLost`
  and `ImageEndToEnd.PlainImageCanBeLost` are inputs that fail with one of them: blocks of any one colour but grey.
- A block that the base holds can be missed under a hash collision, since only the first of two neighbours with one hash
  is listed (index.c:102-152): `ImageDelta.CollisionHidesBlock` shows it for every hash. `ImageDelta.InsertedIff` and
  `ImageDelta.InsertedIffAbsent` say exactly when. Such a block is stored as a literal, so nothing is lost.
- The hash sees less of a block than it seems to: `&` binds less tightly than `<<` (index.c:90, idelta.c:67), so the
  coefficient at 1 never counts and the one at 8 counts with its upper byte: `ImageDelta.DcHashSees`. Blocks that differ
  elsewhere only always collide: `ImageDelta.DcHashHidesBlock`.
- Merging does not refuse a copy that begins inside the first delta's target and ends past it; it runs past the last
  instruction, into an assertion where assertions are compiled in (xdelta/xdelta3-merge.h:427-435).
  `Merge.MergeSourceCopy` and `Merge.MergeInputs` have this as an outcome of its own; `Merge.FailsHow` says for which
  copies.
- Eviction follows a null pointer when it takes the only node (buffer.c:15-17), and never ends when idle nodes do not
  suffice. `BufferList.RoomIsMadeIff` states the exact condition. A buffer that is just bigger than one image for each
  middle thread, as idedup.h:86-88 asks for, does not meet it when each detector's own image is in use and one of them
  reloads a base, or with a single thread at the second image: `BufferList.RoomForImage`.
- `ending` has 8 bits (idedup.h:162), so a queue with 256 producers never ends: `Pipeline.CrowdedQueueNeverOver`.
- An index thread that leaves its loop unlocks the wrong mutex (index.c:333). The model takes each step as atomic.
- The flush of the bit stream does not report an overflow, and closing refuses a stream that only just fits
  (fse/lib/bitstream.h:261-273): `FseBits.CStream.Close` says exactly when.
- `adler32` of no bytes is 1 whatever the start (rabin/adler32.c:18-19), unlike section 2.2 of RFC 1950 suggests.
- The index scan uses a row offset that is never set (index.c:83), taken as 0 here, as its block size of 1 intends.
- The project description says that the base is the image with most identical features; the code also compares DC values
  (2df.c:471-474). It says that literals use the original JPEG entropy coding; the code has its own (rejpeg.c:518-570).

## Model

| member | source | states |
|---|---|---|
| DjwHeap.HeapInsert | xdelta/xdelta3-djw.h:255-269 | an element put behind the last is sifted up: the array is a heap again, of the old elements and the new one |
| DjwHeap.HeapExtract | xdelta/xdelta3-djw.h:271-303 | takes the first element and leaves a heap of exactly the others |
| DjwHeap.RootIsLeast | xdelta/xdelta3-djw.h:247-253 | the first element of a heap is not greater than any other, however deep |
| DjwTree.TreeIsComplete | xdelta/xdelta3-djw.h:378-504 | in any forest that pairwise joins have made into one tree, the distances of the leaves from the root make a Kraft sum of exactly 1 |
| DjwPrefix.LightestTwo | xdelta/xdelta3-djw.h:446-460 | two extractions from the heap give two lightest roots of the forest, of roots that weigh the same the less deep ones |
| DjwOptimal.JoinCheaper | xdelta/xdelta3-djw.h:446-460 | whatever code the roots have, joining the two lightest allows one that is cheaper by at least their weight, and no deeper if it is cheaper by no more: swapping gives those two the longest codes, and a longest code alone can be shortened |
| DjwOptimal.TreeIsOptimal | xdelta/xdelta3-djw.h:446-486 | Huffman's theorem for the tree the loop builds: no code lengths within Kraft's inequality cost less than its distances, and by the tie rule none that cost as little have a shorter longest code |
| DjwPrefix.DeepMeansHeavy | xdelta/xdelta3-djw.h:462-502 | a leaf deeper than the limit makes the tree so heavy that some weight exceeds 2, because each join took two lightest roots |
| DjwPrefix.RescaleProgress | xdelta/xdelta3-djw.h:488-502 | every weight becomes one more than half of it, so none is lost and what exceeds 2 in them, all together, gets less |
| DjwPrefix.TooDeep | xdelta/xdelta3-djw.h:462-502 | a code longer than the limit shows a weight above 2, so once rescaling has brought all weights into {1, 2} no code of the three alphabets is too long |
| DjwPrefix.TryLengths | xdelta/xdelta3-djw.h:402-486 | one round: the lengths of a tree that is best for the present weights; one of them is too long if and only if every cheapest code for those weights has one that is, and then the weights are heavy; and the text's total cost |
| DjwPrefix.LoneIsOptimal | xdelta/xdelta3-djw.h:423-434 | the invented company of a lone symbol costs the text nothing |
| DjwPrefix.BuildPrefix | xdelta/xdelta3-djw.h:378-504 | always ends, for alphabets of 256 symbols with limit 20, 22 with 15 and up to 9 with 7; every symbol in use gets a length between 1 and the limit, the lengths have a Kraft sum of exactly 1, the returned bit count is the cost of the given frequencies, and the lengths are the best for the weights of the first attempt for which a cheapest code fits the limit, which is the first of all unless the weights reach a Fibonacci bound |
| DjwCodes.CodesFillSpace | xdelta/xdelta3-djw.h:506-547 | the canonical first codes fill the code space just as far as the Kraft sum of the shorter lengths |
| DjwCodes.CodeFits | xdelta/xdelta3-djw.h:506-547 | under the Kraft inequality each canonical code fits its length |
| DjwCodes.PrefixFree | xdelta/xdelta3-djw.h:506-547 | no code is the beginning of another symbol's code |
| DjwCodes.BuildCodes | xdelta/xdelta3-djw.h:506-547 | gives every symbol with a length its canonical code: the codes of a length are consecutive in symbol order and start at twice the end of the next shorter ones |
| DjwCodes.CodeIsSpaceBefore | xdelta/xdelta3-djw.h:506-547 | as a binary fraction, a code is the code space of all symbols before it, by length and then by number: codes are in that order and leave no gap |
| DjwCodes.BuildDecoder | xdelta/xdelta3-djw.h:1338-1408 | the in-order list, base and limit tables describe exactly the canonical code of the lengths, and the least and greatest length are found |
| DjwCodes.CodeDetermines | xdelta/xdelta3-djw.h:1410-1477 | equal lengths and equal codes mean the same symbol |
| DjwCodes.DecodeSymbol | xdelta/xdelta3-djw.h:1410-1477 | returns a symbol if and only if its code is what the input starts with, and consumes just that code |
| DjwCodes.CandidateUnique | xdelta/xdelta3-djw.h:1410-1477 | bits start with the code of one symbol at most, whatever the code lengths are |
| DjwMtf.ComputeMtf12 | xdelta/xdelta3-djw.h:552-603 | writes the move-to-front places with runs of zeros in bijective base 2, never more symbols than it was given, counts them, and leaves the table moved |
| DjwMtf.RunsIsNumeral | xdelta/xdelta3-djw.h:336-356 | a run length is written as the one string of digits 0 and 1 that stands for it in bijective base 2, lowest digit first |
| DjwMtf.PlaceIsRecency | xdelta/xdelta3-djw.h:568-590 | the place of a symbol that has been seen is the number of different symbols since |
| DjwMtf.EncodeLead | xdelta/xdelta3-djw.h:336-356 | what is coded starts with the run of the table's first symbol in bijective base 2, for every list over the table |
| DjwMtf.DecodeNext | xdelta/xdelta3-djw.h:1549-1600 | the next coded symbol is a digit of the run that is due, or the place of the next symbol, and never taken for the other |
| DjwMtf.DecodeEnd | xdelta/xdelta3-djw.h:1549-1606 | when all symbols have come nothing is left to read, and the decoder's table is the coder's |
| DjwMtf.Decode12 | xdelta/xdelta3-djw.h:1534-1607 | reads coded symbols until the wanted number is there; on coded input it returns the symbols that were coded and stops behind them, and only ever values of the table |
| BitIO.BitWriter.EncodeBits | xdelta/xdelta3-second.h:214-241 | appends the bits of a value, highest first, to the stream |
| BitIO.ValueBitsAt | xdelta/xdelta3-second.h:214-241 | of the bits written for a value the first is the highest |
| BitIO.BitWriter.Flush | xdelta/xdelta3-second.h:206-212 | the bytes hold the stream and less than a byte of padding |
| BitIO.UnpackAt | xdelta/xdelta3-second.h:174-204 | of the bits of a byte the first in the stream is the lowest |
| BitIO.BitReader.DecodeBits | xdelta/xdelta3-second.h:25-72 | takes as many bits as asked for when they are there, as the number they spell highest first |
| DjwHuffman.CountFreqs | xdelta/xdelta3-djw.h:605-636 | counts how often each byte occurs |
| DjwHuffman.CostIsLength | xdelta/xdelta3-djw.h:898-954 | the bit count from which the coder judges whether coding pays is the exact length of the coded data |
| DjwHuffman.EncodePrefix | xdelta/xdelta3-djw.h:674-732 | writes the code lengths, moved to front, run coded and coded by a second Huffman code whose lengths go first, as many as `DjwHuffman.ClclenSize` says |
| DjwHuffman.ClclenSize | xdelta/xdelta3-djw.h:696-717 | four bits for the count and four for each length: r lengths are sent if and only if all from r on are zero and, above the least number of 7, the last one sent is not |
| DjwHuffman.NoShorterCode | xdelta/xdelta3-djw.h:898-954 | for fewer than 28656 bytes no prefix code makes the text shorter than the coder's |
| DjwHuffman.EncodeHuff | xdelta/xdelta3-djw.h:855-954 | one group: both codes are the best of their attempts for what they code; the coder gives up exactly when that is allowed and one of its two tests finds fewer than 2 bytes saved with them; otherwise it appends the coded form of the data to what the output held, and unless told to go on anyway the output is then shorter than the data |
| DjwHuffman.WorthCoding | xdelta/xdelta3-djw.h:898-954 | giving up loses 2 bytes at most: the output would not be that much shorter than the data; when the coder does not give up, it is shorter |
| DjwHuffman.DecodeClclen | xdelta/xdelta3-djw.h:1479-1532 | reads the second code's lengths; those not sent are zero |
| DjwHuffman.DecodePrefix | xdelta/xdelta3-djw.h:1609-1627 | on a coded prefix gives exactly the lengths that were coded and tables for them |
| DjwHuffman.DecodeHuff | xdelta/xdelta3-djw.h:1629-1833 | one group: on coded data gives exactly the bytes and consumes the whole input; no output bytes wanted is an error |
| DjwHuffman.CodedDetermines | xdelta/xdelta3-djw.h:1629-1833 | bits are the coded form of one byte string of a given length at most, whatever code lengths and code-length codes were used |
| DjwHuffman.RoundTrip | xdelta/xdelta3-djw.h:898-954 | for every non-empty byte string that the coder does not give up on, what it writes is the coded form, and the decoder reads it back byte for byte and to the end |
| Vcdiff.ApplyIsTarget | xdelta/xdelta3-decode.h:404-599 | running the instructions in order makes a target in which every instruction holds, overlapping copies included |
| Vcdiff.TargetIsApply | xdelta/xdelta3-decode.h:404-599 | that target is the only one |
| Merge.FindPosition | xdelta/xdelta3-merge.h:361-406 | the binary search finds the covering instruction of every address below the length, and refuses every other |
| Merge.ResolveMeaning | xdelta/xdelta3-merge.h:408-526 | a piece of B rewritten in terms of A, through self-referential target copies, means the same bytes |
| Merge.MergeSourceCopy | xdelta/xdelta3-merge.h:408-526 | the loop with its recursion ends; a copy from past the end of B is refused, one that begins in B and ends past it runs into the assertion on the instruction number, and every other, up to the last byte of B, is replaced by exactly its rewriting |
| Merge.MergeRun | xdelta/xdelta3-merge.h:282-309 | appends the run with its byte moved to the new literals |
| Merge.MergeAdd | xdelta/xdelta3-merge.h:311-341 | appends the literal bytes and the instruction for them |
| Merge.MergeTargetCopy | xdelta/xdelta3-merge.h:343-359 | appends a target copy unchanged |
| Merge.MergeInputs | xdelta/xdelta3-merge.h:530-581 | for any contiguous input: it succeeds if and only if the input is well formed for the length of B, with the specified merge and every assertion holding; otherwise the outcome is that of the first instruction that cannot be merged |
| Merge.MergedIffValid | xdelta/xdelta3-merge.h:528-581 | an instruction can be merged if and only if it is valid on B |
| Merge.FailsHow | xdelta/xdelta3-merge.h:408-435 | the error is returned exactly for a copy from a target window or from past the end of B, the assertion fails exactly for a copy that begins in B and ends past it |
| MergeShape.ResolvePieces | xdelta/xdelta3-merge.h:408-526 | a copy from B becomes pieces without a gap, cut exactly where an instruction of the first delta begins, at the byte or at one that it is a copy of; each piece has the kind of the instruction that makes its bytes, and copies from the same place |
| MergeShape.MergedList | xdelta/xdelta3-merge.h:528-581 | the merged list covers the target without a gap; each instruction is one of the input taken over or such a piece |
| MergeShape.MergedLiterals | xdelta/xdelta3-merge.h:282-341 | each literal byte of the merge belongs to just one of its instructions, in their order |
| Merge.MergePreservesMeaning | xdelta/xdelta3-merge.h:528-581 | for well-formed deltas the merge is well formed, and applying it to A gives what applying one after the other gives |
| Merge.MergeAssociative | xdelta/xdelta3-merge.h:256-280 | merging three deltas in either order means the same |
| Flatten.Decoder.ParseHalf | xdelta/xdelta3-decode.h:269-363 | accepts a half-instruction exactly when its address lies before the position, does not straddle the end of the source part, and fits the window, which it may fill |
| Flatten.BlksizeAdd | xdelta/xdelta3.h:1429-1448 | block number and offset after an addition name the same place in the source |
| Flatten.BlksizeDiv | xdelta/xdelta3.h:1419-1427 | block number and offset name the place, the offset within the block |
| Flatten.Decoder.CopySource | xdelta/xdelta3-decode.h:498-560 | copied block by block, a source copy is one contiguous copy; it is refused exactly when the source ends before it |
| Flatten.Decoder.CopyTarget | xdelta/xdelta3-decode.h:562-590 | the byte-by-byte loop lets a copy read what it writes |
| Flatten.Decoder.OutputHalf | xdelta/xdelta3-decode.h:402-599 | puts out exactly what the half-instruction means, or refuses |
| Flatten.DecodeEmit | xdelta/xdelta3-decode.h:730-810 | puts out exactly what the specification does, or refuses where it does, with the checksum of xdelta/xdelta3.c:1084-1117; which windows that is says `FlattenAccept.AcceptedIffAcceptable` |
| FlattenAccept.AcceptedIffAcceptable | xdelta/xdelta3-decode.h:269-810 | a window is accepted with target T if and only if its own flat list runs on the source to T, T has the claimed length, the literal bytes are used up, no copy straddles the end of the source part or comes from an earlier target, copies in the target start before themselves, and a checksum is that of T |
| FlattenAccept.HalfPutsOut | xdelta/xdelta3-decode.h:402-599 | byte by byte: a run repeats the next literal byte, an add takes the next ones, a copy takes bytes of the address space of section 3 of RFC 3284, the source part and then the target, its own bytes included |
| Flatten.WholeAppendInst | xdelta/xdelta3-merge.h:159-217 | appends one instruction in whole-file terms |
| Flatten.WholeAppendWindow | xdelta/xdelta3-merge.h:219-254 | appends a window's instructions |
| FlattenAccept.LiteralsOf | xdelta/xdelta3-merge.h:159-217 | the flat list takes a window's literal bytes over in order |
| Flatten.HalfInStep | xdelta/xdelta3-merge.h:159-217 | whatever the decoder puts out for a half-instruction, the appended instruction makes too |
| Flatten.FlatteningPreserves | xdelta/xdelta3-merge.h:219-254 | for windows that the decoder accepts, the flat list run on the source makes the concatenation of the decoded windows |
| Flatten.FlatListMeans | xdelta/xdelta3-merge.h:219-254 | without empty instructions the flat list is a well-formed delta with that meaning |
| Flatten.MergedFilesMean | xdelta/xdelta3-merge.h:256-280 | two delta files: merging their flat lists and applying the result to A gives what decoding first one and then the other gives |
| VcdiffInt.EmitInteger | xdelta/xdelta3-internal.h:215-231 | writes the base-128 digits, all but the last marked, in exactly the number of bytes that the size function gives |
| VcdiffInt.EncodingDigit | xdelta/xdelta3-internal.h:215-231 | the byte at place i from the end is the base-128 digit of that place, marked unless it is the last |
| VcdiffInt.EncodingShortest | xdelta/xdelta3-internal.h:215-231 | of all byte strings that are the number as an integer, the encoding is the only shortest |
| VcdiffInt.SizeIsRight | xdelta/xdelta3-internal.h:233-278 | the size functions give the length of the encoding, at most 10 bytes |
| VcdiffInt.ReadInteger | xdelta/xdelta3-internal.h:186-213 | accepts exactly the complete integers that fit 32 or 64 bits, with their exact value; the mask test refuses the others before a bit is lost |
| VcdiffInt.Stream.DecodeInteger | xdelta/xdelta3-internal.h:160-184 | the resumable reader computes the resumable specification and keeps its partial value |
| VcdiffInt.ResumeSplits | xdelta/xdelta3-internal.h:160-184 | splitting the input at any point gives the same result |
| VcdiffInt.ResumeIsRead | xdelta/xdelta3-internal.h:160-184 | reading all at once and reading as input comes accept the same integers with the same values |
| VcdiffInt.RoundTrip | xdelta/xdelta3-internal.h:186-231 | every 32- or 64-bit number is written as its encoding of the computed size, and read back from it, whatever follows |
| VcdiffInt.EncodingDetermines | xdelta/xdelta3-internal.h:186-231 | no number's encoding begins with another's |
| Adler.SumChunk | rabin/adler32.c:26-38 | no sum exceeds 32 bits in 5552 bytes, and reducing afterwards equals reducing at each byte |
| Adler.Adler32 | rabin/adler32.c:14-51 | from any reduced start and non-empty bytes, the per-byte modular definition; without bytes it is 1 |
| Adler.ChecksumIs | rabin/adler32.c:14-51 | in closed form: one plus the sum of the bytes, and their number plus the sum of each times the number of bytes from it on, modulo 65521 |
| Adler.BaseIsPrime | rabin/adler32.c:10 | the base has no factor but 1 and itself |
| Adler.BaseIsLargest | rabin/adler32.c:10 | every number between it and 65536 has |
| Adler.Combine | rabin/adler32.c:53-77 | the checksum of two strings from theirs and the second one's length, without overflow |
| ImageIndex.ListingHas | index.c:59-152 | exactly the first block of each equal-hash run is listed, under its hash |
| ImageIndex.BlockIndex.IndexBlock | index.c:80-153 | one block of the scan: inserted exactly when it starts its row or its hash differs from its left neighbour's |
| ImageIndex.BlockIndex.IndexPlane | index.c:38-162 | the table holds exactly the listed positions, in scan order |
| ImageLaw.ListingInOrder | index.c:102-152 | positions are listed row by row and from left to right |
| ImageIndex.MissMeansAbsent | index.c:102-152 | nothing is listed under a hash if and only if no block of the component has it |
| ImageIndex.MissedBlockIsNew | idelta.c:69-124 | a block whose lookup misses occurs nowhere in the component, whatever the hash |
| ImageDelta.CommonRunIs | idelta.c:91-95 | the run compared is equal throughout and cannot be extended |
| ImageDelta.BestIsLongest | idelta.c:83-111 | no listed position has a longer run, and the one taken is the first with that length |
| ImageLaw.BestIsRight | idelta.c:69-173 | told without index and search: a copy starts where one may, in search mode the first block of a run of equal hashes, otherwise the same place; none that may start elsewhere is longer, and none as long starts earlier in scan order; a block is a literal only if it is nowhere that a copy may start |
| ImageDelta.BestCopies | idelta.c:83-123 | every copy lies inside the base and stands for exactly the blocks it replaces, in both modes |
| ImageDelta.InsertedIff | idelta.c:69-129 | a block is inserted exactly when none of its occurrences in the base component is the first of a run of equal hashes |
| ImageDelta.InsertedIffAbsent | idelta.c:69-129 | that it is inserted just when the base does not hold it is true exactly if it is absent or one of its occurrences is the first of a run |
| ImageDelta.NoCollisionFinds | index.c:102-152 | which is so for every block whose hash no other block of the base has |
| ImageDelta.CollisionHidesBlock | index.c:102-152 | with any hash, two different neighbours of one hash: the second is inserted although the base holds it |
| ImageDelta.DcHashSees | index.c:90 | the hash in use depends on a byte each of the coefficients 0, 8 and 9 and on nothing else |
| ImageDelta.DcHashHidesBlock | index.c:88-152 | so with it any two blocks that differ in another coefficient only hide each other |
| ImageDelta.InPlaceLiterals | idelta.c:138-173 | without the index, the literals of a component are exactly its blocks for which the base has another block, or none, at the same place, in order |
| ImageDelta.RowRestored | idelta.c:904-926 | replaying a row's instructions restores it, whatever was restored before |
| ImageDelta.PlaneRestored | idelta.c:904-926 | replaying a component's instructions restores it, uses up its arrays, and reads nothing outside the base |
| ImageCodec.ImageFits | idelta.c:420-433 | no position, length or in-length exceeds 16 bits and no counter 32 bits |
| ImageCodec.ImageRestored | idelta.c:440-458 | with all components in one set of arrays, replay restores all three and uses every array up, for any base, target, hash and mode |
| ImageCodec.LongestMatch | idelta.c:83-111 | the search loop finds the specified best match |
| ImageCodec.CodeRow | idelta.c:50-133 | the row loop appends exactly the specified instructions, which `ImageLaw.InstructionsAreLawful` is about |
| ImageLaw.InstructionsAreLawful | idelta.c:50-173 | a component's arrays are these and no others: tokens fill each row, every copy is the longest and first, and every literal is nowhere that a copy may start, at the column that the tokens before it lead to; each copy goes with the number of literals before it, and those left at the end of a row are counted |
| ImageLaw.NoLiteral | idelta.c:69-129 | in search mode a component all of whose blocks occur in the base as the first of a run is coded without a literal, wherever they stand |
| ImageCodec.GetInstructions | idelta.c:283-466 | codes three components and joins their arrays and counters as specified; what the arrays are says `ImageLaw.ImageIsLawful` |
| ImageLaw.ImageIsLawful | idelta.c:283-466 | the arrays of an image are the lawful ones of its components one after another, and the counters say how many entries each has |
| ImageCodec.Restorer.Entry | idelta.c:906-925 | one in-length entry moves the pointers and the output as specified |
| ImageCodec.DeDedup | idelta.c:847-927 | restores all components into one buffer, from the entries of each counter |
| ImageCodec.RoundTrip | idelta.c:847-927 | coding against a base gives the specified delta, and restoring from it gives back every component; literals, copies and in-lengths are all used up |
| ImageCodec.DeltaDetermines | idelta.c:847-927 | against one base no two targets of a shape share a delta, whatever the hash and the mode |
| LiteralRle.ZigzagTable | rejpeg.c:34-44 | the table is the zigzag walk of section A.3.6 of ITU-T T.81, and a permutation |
| LiteralRle.ZigzagInverts | rejpeg.c:903-908 | the inverse reordering undoes the reordering |
| LiteralRle.Zigzag | rejpeg.c:46-57 | the loop fills every place with its coefficient |
| LiteralRle.SymsDecode | rejpeg.c:376-458 | for any blocks the run and value symbols decode to the blocks: a run of 15 before a zero, the end-of-block symbol and a value at index 63 are never confused |
| LiteralRle.SymsBound | rejpeg.c:376-458 | at least one and at most 64 symbols a block, runs of at most 15 |
| LiteralRle.BlockSymsCanonical | rejpeg.c:410-447 | the end of a block is marked just when its last coefficient is 0, sixteen zeros are a symbol only where a value follows, and every other symbol has a value |
| Rejpeg.RleEncode | rejpeg.c:376-458 | the loops store exactly the specified symbols, within arrays of 64 entries a block |
| Rejpeg.RleDecode | rejpeg.c:911-967 | the loop over a zeroed coefficient buffer gives the specified blocks |
| LiteralVli.ValueRoundTrip | rejpeg.c:475-495 | length and flipped bits determine a value within 4095 |
| LiteralVli.ValueBitsAre | rejpeg.c:475-495 | a negative value goes as the low bits of one less, as in section F.1.2.1 of ITU-T T.81; the highest bit tells the sign |
| LiteralVli.PutValue | rejpeg.c:497-508 | the bits of one value go behind the others, into one word or across two, over clear bits only |
| LiteralVli.VliEncode | rejpeg.c:460-516 | the words are exactly those of the stream of all values' bits, 16 each from the top with clear bits at the end of the last, and the length bytes carry the bit lengths |
| LiteralVli.TakeBits | rejpeg.c:879-890 | the next bits of the stream, from one word or across two |
| LiteralVli.VliDecode | rejpeg.c:859-901 | reads back exactly the values |
| LiteralVli.StreamDetermines | rejpeg.c:859-901 | values are known from their bit lengths and their stream of bits |
| Rejpeg.LengthsOf | rejpeg.c:376-458 | at least one and at most 64 length bytes a block |
| Rejpeg.WordsFor | rejpeg.c:460-516 | at most 48 words of values a block |
| Rejpeg.EncodeLiterals | rejpeg.c:532-539 | both loops together give the length bytes and the words of the blocks |
| Rejpeg.Recompress | rejpeg.c:526-570 | fails exactly when the length bytes neither compress into the room that values and header leave nor fit it; otherwise the buffer holds values, flag and lengths as specified |
| Rejpeg.Le32RoundTrip | rejpeg.c:544-568 | sizes are stored in four bytes, lowest first |
| Rejpeg.WordBytesAt | rejpeg.c:540-547 | words are stored in two bytes, lowest first |
| Rejpeg.SecondSucceeds | rejpeg.c:572-627 | with 256 bytes a block the lengths fit even as they are |
| Rejpeg.RejpegImage | rejpeg.c:572-627 | the doubling loop gives the coded form that blocks and entropy coder determine, at the first attempt exactly when that has room, by the second always; without literals there is no buffer |
| Rejpeg.StoredTailIs | rejpeg.c:526-627 | the length bytes are stored coded if and only if the entropy coder manages them in what 128 bytes a block leave, or in what 256 leave when they do not fit the former as they are; otherwise as they are |
| Rejpeg.DecodeMyjpeg | rejpeg.c:969-1008 | on the coded form of blocks gives the blocks exactly when the lengths were stored plain or 1024 times their compressed size, in 32 bits, is room enough for them, and fails otherwise |
| Rejpeg.RoundTrip | rejpeg.c:969-1008 | writing blocks gives their coded form, and reading it succeeds if and only if that condition on blocks and coder holds |
| Rejpeg.ReadableWithAnyCoder | rejpeg.c:985-989 | blocks can be read back with every sound entropy coder if and only if they have at most 2048 length bytes or all of these are the same |
| Rejpeg.GreyIsReadable | idedup.c:66-76 | grey blocks, however many, are read back with every sound coder, since it does not code one byte repeated |
| Rejpeg.PlainCanBeLost | rejpeg.c:985-989 | 2048 blocks or more of any one other colour, whose length bytes are all alike but one, and a sound coder for which reading fails |
| Rejpeg.ReadableWithModerateCoder | rejpeg.c:985-989 | with a sound coder that shrinks its input to no less than 1024th, fewer than four million length bytes can always be read back |
| Rejpeg.CodedDetermines | rejpeg.c:969-1008 | different blocks have different coded forms, whatever the coder |
| ImageCodec.InstructionsBound | rejpeg.c:1010-1037 | none of the four instruction arrays has more entries than the image has blocks |
| ImageEndToEnd.LoadArrays | rejpeg.c:1010-1037 | the four arrays, entropy coded or not as their flags say, always come back from the room that the decoder gives them |
| ImageEndToEnd.PackedIs | rejpeg.c:640-687 | an array is stored coded if and only if the coder manages it in its own size |
| ImageEndToEnd.RoundTrip | idelta.c:847-927 | coding a target, storing its arrays and literals, loading and replaying: what is stored is determined by base, target, hash, mode and coder, and the target comes back exactly if its literals can be read back |
| ImageEndToEnd.PlainImageCanBeLost | rejpeg.c:985-989 | a row of 2046 blocks or more of one colour other than grey, coded against a base of another colour, is lost with some sound coder |
| ImageEndToEnd.GreyImageComesBack | idedup.c:66-76 | a grey one comes back with every sound coder |
| Rabin.DegOf | rabin/rabin.c:10-22 | the highest set bit of a 64-bit number, -1 for zero |
| Rabin.Mod | rabin/rabin.c:25-33 | ends, and gives the remainder of polynomial division over GF(2) |
| Rabin.RemUnique | rabin/rabin.c:25-33 | there is only one remainder |
| Rabin.CalcTables | rabin/rabin.c:42-76 | entry b of the first table is the remainder of b followed by a window of zero bytes but one; of the second, b above the polynomial together with its remainder |
| Rabin.LookupReduces | rabin/rabin.c:78-83 | one table lookup is the long division of a digest shifted by a byte |
| Rabin.RabinHash.Append | rabin/rabin.c:78-83 | the digest becomes the remainder of itself shifted by a byte plus the byte, below 2 to the 53rd |
| Rabin.RabinHash.Slide | rabin/rabin.c:85-91 | the window loses its oldest byte and gains the new one, and the digest stays the remainder of the whole window |
| Rabin.RabinHash.Reset | rabin/rabin.c:93-102 | an all-zero window with the byte 1 slid in |
| Rabin.RabinHash.SlideBlock | rabin/rabin.c:125-133 | after at least a window of bytes the digest is the remainder of just the last of them |
| Rabin.SameWindowSameDigest | rabin/rabin.c:85-91 | the digest is a function of the window alone |
| FseBits.CStream.AddBits | fse/lib/bitstream.h:214-222 | appends the low bits of a value to the stream |
| FseBits.CStream.FlushBits | fse/lib/bitstream.h:255-264 | moves whole bytes to the buffer, never past its end, and says nothing of an overflow |
| FseBits.CStream.Close | fse/lib/bitstream.h:269-275 | returns 0 exactly when the stream with its end mark reaches the last 8 bytes of the buffer; otherwise the returned bytes are the stream, the mark and clear bits |
| FseBits.DStream.constructor | fse/lib/bitstream.h:287-333 | on a closed stream of any length, what is unread is the stream |
| FseBits.DStream.ReadBits | fse/lib/bitstream.h:367-400 | takes the last unread bits, as the number they were written as |
| FseBits.DStream.ReloadStream | fse/lib/bitstream.h:417-444 | leaves the unread bits as they are, never reads outside the source, and afterwards 31 bits or all that is left are in the register |
| FseBits.DStream.EndOfStream | fse/lib/bitstream.h:449-452 | true exactly when everything has been read |
| FseBits.RoundTrip | fse/lib/bitstream.h:214-452 | values of at most 31 bits written under the flush discipline close, exactly when there is room, to the bytes of their stream with its end mark, and come back from them in reverse order, up to the exact end of the stream |
| Pipeline.List.TryTake | jpeg.c:139-152 | a consumer's step on the shared record |
| Pipeline.List.TryPut | jpeg.c:174-186 | a producer's step: appends exactly when there is room, and charges the size |
| Pipeline.StepKeepsInv | idedup.c:810-871 | every step of every thread keeps: free and used room add up, announcements are counted right, a departed consumer's queue is empty and closed, and no image is lost or doubled |
| Pipeline.RunIsSafe | idedup.c:810-871 | over every interleaving: the same from the start on, and when all threads have ended all queues are empty and each image read has been put out exactly once |
| Pipeline.NoDeadlock | idedup.c:810-871 | unless all threads have ended, some step is enabled, provided every load fits an empty queue |
| Pipeline.RunComesToEnd | idedup.c:810-871 | a run has at most 14 steps an image and 2 a thread, and can always go on until all threads have ended |
| Pipeline.IdeltaIsWired | idedup.c:837-871 | the program's own wiring, with 1 to 255 threads a stage, is one that these results are about |
| Pipeline.CrowdedQueueNeverOver | idedup.h:155-164 | in every run, however wired, a queue with 256 producers or more never is over: its consumers do not leave, and not all threads end |
| Pipeline.CrowdedIdelta | idedup.c:837-871 | so with 256 readers, decoders, middle threads or literal coders no run of the program's own wiring comes to its end |
| FeatureIndex.Index.Detect | 2df.c:428-549 | keeps every table exact, chooses the specified base among earlier images only, and enters the image |
| FeatureIndex.Index.Feature | 2df.c:452-521 | one table: looked through unless all features agree already, then extended |
| FeatureIndex.HavingIs | 2df.c:501-516 | a table lists under a value exactly the earlier images that have it |
| FeatureIndex.ChosenIsBest | 2df.c:459-499 | no earlier image agrees in more features, value and DC, than the chosen one, counted as a set; there is none exactly when no earlier image agrees in any; the flag says whether none of those features is at the same place |
| FeatureIndex.MatchesIsCount | 2df.c:469-484 | the count is the number of features that agree in value and DC, wherever they are |
| FeatureIndex.ChosenIsFirst | 2df.c:452-499 | of the images that agree in as many, the one chosen is the first that the tables offer: by its first feature with an equal value, then by number |
| FeatureIndex.FullStays | 2df.c:496-497 | stopping at a full match changes nothing |
| BufferList.Buffer.DeleteFromTop | buffer.c:13-25 | frees the first node, or moves it to the end when it is in use; the list stays well formed |
| BufferList.Buffer.MakeRoom | buffer.c:36-37 | the eviction loop ends with enough room; gone are exactly the first idle nodes, as few as suffice, and the nodes in use before them follow the rest |
| BufferList.KeptIff | buffer.c:13-37 | eviction drops a node if and only if it was met and is not in use; what it frees is the size of those, and one node fewer would not have been enough |
| BufferList.RoomIsMadeIff | buffer.c:58-59 | some number of eviction steps makes room if and only if the idle nodes suffice, without taking the last node of all |
| BufferList.RoomByCapacity | buffer.c:58-59 | the same in terms of the capacity: the new image and the images in use have to fit together |
| BufferList.RoomForImage | idedup.h:86-88 | for images of one size: the buffer must hold one more than the images in use, and two at least once there are any |
| BufferList.Buffer.Insert | buffer.c:55-74 | evicts as specified and puts the node last; free and used room add up to the capacity |
| BufferList.Buffer.MoveIn | buffer.c:27-53 | a node on the list moves to its end; an evicted one comes back at its end after eviction |
| BufferList.Buffer.Unlink | buffer.c:40-47 | taking a node out of the middle leaves a well-formed list of the others in order |

## Left out

- Flatten.EmitHalf: a source copy of size 0 is accepted at any address, because what the block callback gives past the end of the source is not part of this model.
- DjwPrefix.BuildPrefix: frequencies are unbounded integers, so the wrap-around of 32-bit weights in very long inputs is not modelled.
- DjwHuffman.DecodeHuff: on input that no coder wrote only the shape of the result is stated.
- Merge.MergeInputs: instructions have positive size, refer to literal bytes that are there, and are not of type `XD3_NOOP`, which whole-file lists never get.
- DjwHuffman.EncodeHuff: the output is one page, so the bytes that the second efficiency test counts are all of it.
- Pipeline.NoDeadlock: a detector's wait for room in the image buffer is no step of the state machine; when room can be made is what `BufferList.RoomIsMadeIff` and `BufferList.RoomForImage` say.
- Pipeline.RunComesToEnd: condition variables are modelled as guards, so a signal that wakes the wrong waiter is not captured.
- Rejpeg.DecodeMyjpeg: on a buffer that the coder did not write nothing is stated, since the original checks nothing there.
- ImageCodec.DeDedup: the number of blocks is not reduced modulo 2 to the 32nd; a JPEG image has fewer.
- FeatureIndex.Index.Detect: one detect thread; with several, images entered at the same time may miss each other.
- ImageCodec.GetInstructions: one sub-thread a component, as the repository configures it.
- Multi-group DJW: coder and decoder skip different symbols when groups differ in which lengths are zero.
- The table construction and the Huffman part of the entropy library are abstract: compression returns nothing or what fits, nothing for one byte repeated (fse/lib/fse_compress.c:669), and else at least two bytes fewer than it was given (fse/lib/fse_compress.c:690); decompression inverts it.
- The header delta's address cache, code table and string matcher: the model starts from decoded half-instructions.
- Target windows of VCDIFF, which the decoder rejects.
- Output page chains are byte sequences; memory exhaustion and allocation sizes are not modelled, such as the block of 14 slots in which `get_instructions` stores a fifteenth argument (idelta.c:357 and 375).
- The adaptive Huffman coder (xdelta/xdelta3-fgk.h) and the rolling variant of Adler-32, which is unused.
- The write cache's reordering of large items, the xdelta-only path, the decompression wait lists and hand-offs.
- Feature extraction, JPEG decoding, files, directories, timers, statistics and the command line.
