# A Dafny model of `HuffProcessor`

`HuffProcessor` is a static, two-pass Huffman codec over 8-bit values.
`compress` works in these steps:

1. It counts the input's bytes into a 257-entry table, where entry 256 is the pseudo-EOF and is forced to 1.
2. It builds a trie greedily from a priority queue of weighted nodes.
3. It derives each symbol's code: the symbol's root-to-leaf path, with `'0'` for left and `'1'` for right.
4. It writes the 32-bit magic number `HUFF_TREE` (`0xface8201`), the tree header and the payload.

`decompress` checks the magic number, reads the tree header back, and walks the trie one bit at a time. It writes each leaf's value as 8 bits and stops at the pseudo-EOF leaf.

The model follows the code as written, including four places where it does not do what the source's own comments promise: `compress` says the process "must be reversible and loss-less" (lines 37-43), and both `writeHead` and `readTreeHeader` describe the header as a "pre-order traversal" (lines 70-71 and 248-249):

- `writeHead` writes no bit for internal nodes.
- `writeCompressedBits` writes the code table instead of the input.
- `readTreeHeader` does not check its 9-bit read.
- `readCompressedBits` dereferences null when the trie is a single leaf.

Those comments call for a preorder header that the reader inverts, and for a payload that encodes the input, so that decompressing gives the input back. Where the comments and the code disagree, the modules `Header`, `Payload` and `Processor` follow the code. Module `Corrected` models the evident intent and proves the whole round trip for it (see "## Findings").

How the system's entities are represented:

- **Bit streams.** An input stream is the `seq<bool>` of its unread bits (`true` is a 1 bit, most significant bit first), so the read cursor is the part not yet read.
  - `readBits(w)` is `Bits.ReadBits`: the value of the next `w` bits and the rest, or the sentinel -1 and an exhausted stream.
  - What an output stream receives is a returned `seq<bool>`; `writeBits(w, v)` is `Bits.WriteBits`.
- **Trie.** The `HuffNode` trie is `Huff.Tree`: `Leaf(value)` | `Node(left, right)`. A leaf is a node with two null children, so every tree is full by construction.
  - Weights exist only while the trie is being built (`TreeBuilder.WeightedTree`).
- **Priority queue.** It is a sequence of entries whose order means nothing. `remove` takes some entry of least weight, and which of several equal-weight entries it takes is left open. `add` appends.
- **Code table.** A Java `String[]` is an `array<Option<string>>`, where `None` is `null`.
- **Exceptions.** Each exception becomes a `Huff.Failure` inside a `Result`. `HeaderEnd`, `NoPseudoEof` and `BadMagic` are the three `HuffException` messages. `NullDereference`, `EmptyQueue` and `NumberFormat` are Java runtime exceptions.

Files, one module each, in dependency order:

- `Bits.dfy`: bit groups, `readBits` and `writeBits`, and the bytes of a stream.
- `Huff.dfy`: constants, failures and the trie.
- `Counting.dfy`: `readForCounts`.
- `TreeBuilder.dfy`: `makeTreeFromCounts`.
- `Codes.dfy`: `makeCodingsFromTree` and `codingHelper`.
- `Header.dfy`: `writeHead` and `readTreeHeader`.
- `Payload.dfy`: `writeCompressedBits` and `readCompressedBits`.
- `Processor.dfy`: `compress` and `decompress`.
- `Corrected.dfy`: the intended codec and its round trip.

## Model

| member | source | states |
|---|---|---|
| Huff.MagicBits | src/HuffProcessor.java:20-21 | the 32 bits written first are the unsigned value 0xface8201, which is HUFF_NUMBER with its low bit set |
| Huff.InternalCountLaw | src/HuffProcessor.java:156-162 | a trie of `Node`s and `Leaf`s with L leaves has L - 1 internal nodes, and it has an internal root exactly when L >= 2 |
| Bits.ReadBits | src/HuffProcessor.java:182 | with at least `width` bits left, the result is a value below 2^width and the stream after those bits; otherwise -1 and an exhausted stream |
| Bits.WriteBits | src/HuffProcessor.java:50 | exactly `width` bits are written, and they read back as `value` whenever `value` fits in `width` bits |
| Bits.BitsRoundTrip | src/HuffProcessor.java:182 | writing the value of any bit group in its own width gives the same group back |
| Bits.NatRoundTrip | src/HuffProcessor.java:238 | a value below 2^width written in `width` bits reads back as that value |
| Bits.WriteBitsOfValue | src/HuffProcessor.java:65 | writing the value of a bit group in its own width writes exactly that group |
| Bits.ReadBitIsReadBits | src/HuffProcessor.java:224 | `readBits(1)` gives the next bit as 0 or 1 and the rest, or -1 at the end |
| Bits.BytesInRange | src/HuffProcessor.java:182 | every value `readBits(8)` delivers is in 0..255, so it indexes the 257-entry table |
| Bits.BytesOfBytesToBits | src/HuffProcessor.java:238 | reading back bytes written with `writeBits(8, v)` gives the same bytes |
| Bits.BytesToBitsOfBytes | src/HuffProcessor.java:182 | writing every byte that is read gives every complete byte of the stream; trailing bits that do not fill a byte are dropped |
| Counting.ReadForCounts | src/HuffProcessor.java:175-191 | a fresh 257-entry table: entry v (v < 256) is the number of occurrences of v among the input's bytes, entry 256 is 1, and the whole stream is consumed |
| Counting.FirstByte | src/HuffProcessor.java:182-186 | when 8 bits remain, the value read is the first byte, and the rest of the stream holds the other bytes |
| Counting.PositiveCounts | src/HuffProcessor.java:175-191 | an entry of such a table is positive exactly when it is the pseudo-EOF or a byte that occurs in the input |
| TreeBuilder.PositiveSymbolsExact | src/HuffProcessor.java:150-154 | the symbols that get a leaf are exactly the indices with a positive count |
| TreeBuilder.PositiveSymbolsDistinct | src/HuffProcessor.java:150-154 | each index is seeded at most once |
| TreeBuilder.Concatenation | src/HuffProcessor.java:148-161 | the weight and the leaves of a queue are those of its parts |
| TreeBuilder.MinExists | src/HuffProcessor.java:157 | a non-empty queue has an entry of least weight for `remove` to return |
| TreeBuilder.TakeEntry | src/HuffProcessor.java:157-158 | removing an entry removes exactly its weight and its leaves from the queue |
| TreeBuilder.AddEntry | src/HuffProcessor.java:161 | `add` adds exactly the new entry's weight and leaves |
| TreeBuilder.MergeStep | src/HuffProcessor.java:157-161 | removing two entries and adding their parent keeps the multiset of leaves and the total weight |
| TreeBuilder.SeedQueue | src/HuffProcessor.java:150-154 | the seeded queue holds one entry per positive count, in index order: entry j is the leaf of the j-th index with a positive count, weighted by that count; so its leaves are the positive indices and its total weight their sum |
| TreeBuilder.SeedStep | src/HuffProcessor.java:151-153 | one more index adds its leaf, weighted by its count, exactly when its count is positive |
| TreeBuilder.MergeLightest | src/HuffProcessor.java:156-162 | one merge iteration takes out an entry of least weight, then an entry of least weight of what is left, and adds their parent, whose weight is the sum of theirs and whose children are their tries; the queue shrinks by one and keeps its leaves and total weight |
| TreeBuilder.GreedyMergeKeeps | src/HuffProcessor.java:157-161 | any such greedy merge keeps the multiset of leaves and the total weight, and shrinks the queue by one |
| TreeBuilder.MakeTreeFromCounts | src/HuffProcessor.java:147-167 | with no positive count the final `remove` throws; otherwise the root's leaves are exactly the positive indices and its weight is their sum, after one merge per positive index but one |
| TreeBuilder.BuiltTreeLeaves | src/HuffProcessor.java:147-167 | the built trie holds each index with a positive count exactly once, and nothing else |
| Codes.CodeOfLeadsToLeaf | src/HuffProcessor.java:122-138 | following a value's code from the root leads to that value's leaf: the code is its root-to-leaf path, and its length is the leaf's depth |
| Codes.WalkBeyondLeaf | src/HuffProcessor.java:127-130 | a path that goes on past a leaf leaves the trie |
| Codes.WalkExtension | src/HuffProcessor.java:127-130 | walking any strict extension of a path to a leaf leaves the trie |
| Codes.CodesPrefixFree | src/HuffProcessor.java:122-138 | no value's code is a prefix of another value's code |
| Codes.CodeTableEntries | src/HuffProcessor.java:110-138 | an entry is non-null exactly when its index is a leaf, and then it is the path to that leaf |
| Codes.CodeTablePrefixFree | src/HuffProcessor.java:110-138 | the non-null entries of the table are prefix-free |
| Codes.LeafRootEmptyCode | src/HuffProcessor.java:127-129 | a trie that is a single leaf gives it the empty code and leaves every other entry null |
| Codes.CodingHelper | src/HuffProcessor.java:122-138 | every leaf of the subtree gets `path` followed by its path within the subtree, and every other entry is unchanged |
| Codes.MakeCodingsFromTree | src/HuffProcessor.java:110-114 | a fresh array whose contents are the code table of the trie |
| Header.WriteHead | src/HuffProcessor.java:76-87 | `writeHead` writes 10 bits per leaf and nothing else; what it writes is characterized by `Header.WriteHeadIsLeafRecords` |
| Header.PreorderHeader | src/HuffProcessor.java:259-266 | the preorder header that `readTreeHeader` parses takes 10 bits per leaf and 1 bit per internal node; `Header.ReadInvertsPreorder` shows the reader inverts it |
| Header.LeafRecord | src/HuffProcessor.java:82-83 | a leaf is written as 10 bits, the first of them a 1 |
| Header.LeafRecordsAppend | src/HuffProcessor.java:86-87 | the records of two sequences of leaves are those of the first followed by those of the second |
| Header.WriteHeadIsLeafRecords | src/HuffProcessor.java:76-87 | `writeHead` writes exactly one record per leaf, in left-to-right order, and nothing for internal nodes |
| Header.WriteHeadMatchesPreorderOnlyForLeaf | src/HuffProcessor.java:76-87 | `writeHead`'s output equals the preorder header exactly when the trie is a single leaf |
| Header.WriteHeadStartsWithOne | src/HuffProcessor.java:81-83 | `writeHead`'s output always starts with a 1 bit |
| Header.ReadTreeHeader | src/HuffProcessor.java:254-267 | a successful read consumes at least one bit, and the only exception is the end of the stream on a 1-bit read |
| Header.ReadTreeHeaderEdges | src/HuffProcessor.java:255-265 | what is left unread is a suffix of the input; the empty stream throws; a 1 bit followed by fewer than nine bits gives the leaf -1 and an exhausted stream without error |
| Header.SuffixOfSuffix | src/HuffProcessor.java:260-261 | reading the right subtree after the left one leaves a suffix of the original stream |
| Header.ReadInvertsPreorder | src/HuffProcessor.java:254-267 | for a trie whose leaf values fit in 9 bits, reading its preorder header followed by anything gives the trie back and leaves exactly what followed |
| Header.ReadLeafRecord | src/HuffProcessor.java:263-265 | a leaf record followed by anything is read as that leaf, leaving what followed |
| Header.ReadNodeHeader | src/HuffProcessor.java:259-262 | a 0 bit that is followed by the headers of two subtrees reads as their parent |
| Header.NodeHeaderShape | src/HuffProcessor.java:259-262 | a node's preorder header is a 0 bit, then the left header, then the right header |
| Header.LeavesWithinChildren | src/HuffProcessor.java:260-261 | bounds on a node's leaf values hold for both children |
| Header.WriteHeadReadsAsFirstLeaf | src/HuffProcessor.java:76-87 | `readTreeHeader` reads `writeHead`'s output as the first leaf alone, leaving the other records unread, so no trie with an internal node survives |
| Payload.CodeBitsAppend | src/HuffProcessor.java:136-137 | the bits of a concatenated path are the bits of its parts |
| Payload.WriteChunk | src/HuffProcessor.java:65 | one entry's write throws `NullPointerException` exactly for a null entry and `NumberFormatException` for a malformed one, and otherwise writes as many bits as the code has characters; `Payload.ChunkOfCode` pins the bits |
| Payload.ParseBinary | src/HuffProcessor.java:65 | `Integer.parseInt(s, 2)` gives a 32-bit int or throws `NumberFormatException` |
| Payload.ChunkOfCode | src/HuffProcessor.java:65 | the empty code throws `NumberFormatException`; a code of 1 to 31 characters is written as exactly its own bits |
| Payload.JoinChunksSucceeds | src/HuffProcessor.java:64-66 | the loop completes exactly when every write does |
| Payload.TableBitsSucceeds | src/HuffProcessor.java:63-67 | `writeCompressedBits` succeeds exactly when every entry of the table is written without error |
| Payload.JoinErrorSticks | src/HuffProcessor.java:64-66 | the first write that throws ends the loop with its exception |
| Payload.JoinStep | src/HuffProcessor.java:64-66 | one more iteration appends exactly the next entry's bits, or throws its exception |
| Payload.WriteCompressedBits | src/HuffProcessor.java:63-67 | the bits written are the table's entries written in index order, and nothing from `in`; or the exception of the first bad entry |
| Payload.CodeTableNeedsFullAlphabet | src/HuffProcessor.java:63-67 | the table of a trie is written without error only when all 257 values 0..256 are leaves |
| Payload.DecodeFrom | src/HuffProcessor.java:222-243 | the loop from any node consumes at least one bit when it ends at the pseudo-EOF; it throws only `NoPseudoEof` or a null dereference, and only `NoPseudoEof` when the root and the current node are internal |
| Payload.Decode | src/HuffProcessor.java:222-243 | the same from the root: with an internal root the only failure is a stream that ends before the pseudo-EOF |
| Payload.ReadCompressedBits | src/HuffProcessor.java:220-245 | the bits written and the rest of the stream are those of `Emitted(Decode(root, input))`, or the same exception |
| Payload.BytesToBitsAppend | src/HuffProcessor.java:238 | the bits written for two sequences of values are those of the first followed by those of the second |
| Payload.PrependTwice | src/HuffProcessor.java:238-239 | values written in two steps are written in order |
| Payload.DecodeCode | src/HuffProcessor.java:224-240 | from an internal node, a value's code leads to its leaf: the walk stops there at the pseudo-EOF, and otherwise writes the value and goes on from the root |
| Payload.CodeFirstStep | src/HuffProcessor.java:228-232 | the first bit of a code steps to the child holding the value, and the rest of the code is the path from that child |
| Payload.DecodeOfEncoded | src/HuffProcessor.java:220-245 | for an internal root holding the pseudo-EOF, the codes of s_1..s_n that `codingHelper` derives, followed by the pseudo-EOF's code and by anything else, decode to s_1..s_n and leave exactly that rest unread |
| Payload.DecodeNext | src/HuffProcessor.java:234-240 | decoding the codes of a non-empty sequence writes its first value and goes on with the codes of the others |
| Payload.DecodeCodePrefix | src/HuffProcessor.java:224-226 | a stream that ends inside a code throws `NoPseudoEof` |
| Payload.DecodeDetectsTruncation | src/HuffProcessor.java:224-226 | whole codes followed by part of any code throw `NoPseudoEof`: truncation is detected |
| Payload.LeafRootFails | src/HuffProcessor.java:228-234 | with a single-leaf trie, any non-empty stream dereferences null and the empty stream throws `NoPseudoEof` |
| Processor.MagicCheck | src/HuffProcessor.java:203-204 | the check passes exactly when the stream starts with the 32 bits `compress` writes first, and the tree is then read from bit 32 |
| Processor.Decompress | src/HuffProcessor.java:202-211 | `BadMagic` exactly when the magic number is absent; otherwise the outcome of reading the tree header from bit 32 and decoding the rest with that tree |
| Processor.Compress | src/HuffProcessor.java:44-55 | the trie holds each byte of the input and the pseudo-EOF once, and nothing else; the output is the magic number, `writeHead`'s header and the table's codes, or the table's exception; there is output only when the input holds all 256 byte values |
| Processor.CountsGiveLeaves | src/HuffProcessor.java:45-47 | the counts of any input have a positive entry, so `makeTreeFromCounts` never throws in `compress`; the positive entries are the pseudo-EOF and the input's bytes |
| Corrected.ReadTreeHeaderChecked | src/HuffProcessor.java:254-267 | the reader with the 9-bit read checked consumes at least one bit on success, and throws only `HeaderEnd` |
| Corrected.CheckedReadIsPreorder | src/HuffProcessor.java:254-267 | whatever the checked reader accepts is the preorder header of the trie it returns, followed by the rest it returns, and every leaf value fits in 9 bits |
| Corrected.NodeShape | src/HuffProcessor.java:259-262 | a 0 bit and the headers of two subtrees form the header of their parent |
| Corrected.LeafShape | src/HuffProcessor.java:263-265 | a 1 bit and nine more bits form the record of the leaf holding those nine bits' value |
| Corrected.CheckedReadAgrees | src/HuffProcessor.java:264-265 | wherever `readTreeHeader` builds a trie with no -1 leaf, the checked reader gives the same trie and rest |
| Corrected.CheckedReadInvertsPreorder | src/HuffProcessor.java:254-267 | the checked reader also inverts the preorder header |
| Corrected.TruncatedLeafRecord | src/HuffProcessor.java:264 | on the stream holding a single 1 bit, `readTreeHeader` returns the leaf -1, while the checked reader throws |
| Corrected.EncodePayload | src/HuffProcessor.java:63-67 | writing the payload from the input throws only `NullPointerException` |
| Corrected.EncodePayloadFails | src/HuffProcessor.java:63-67 | writing the payload fails exactly when the pseudo-EOF or some byte of the input has a null entry |
| Corrected.WriteCodes | src/HuffProcessor.java:63-67 | the loop that reads the input byte by byte writes exactly the intended payload |
| Corrected.AppendTwice | src/HuffProcessor.java:64-66 | bits written in two steps are written in order |
| Corrected.EncodeWithCodeTable | src/HuffProcessor.java:110-138 | with the table of a trie holding the pseudo-EOF and the input's bytes, the payload is the bytes' codes followed by the pseudo-EOF's code |
| Corrected.EncodeLast | src/HuffProcessor.java:110-138 | a stream with no complete byte left is written as the pseudo-EOF's code |
| Corrected.EncodeFirst | src/HuffProcessor.java:110-138 | the first byte is written as its code, followed by the payload of the rest |
| Payload.SymbolsCons | src/HuffProcessor.java:110-138 | the codes of a non-empty sequence are the first code followed by the codes of the rest |
| Corrected.DecodeCorrected | src/HuffProcessor.java:228-234 | the corrected decoder never dereferences null: its only failure is a stream that ends before the pseudo-EOF, and it never reads past its input; `Corrected.PayloadDecodes` shows that it decodes the payload of a single-leaf trie |
| Corrected.DecompressCorrected | src/HuffProcessor.java:202-211 | the corrected `decompress` rejects exactly the streams that do not start with the magic number, and otherwise fails only on a bad header or a truncated payload, never on a null child; `Corrected.RoundTrip` gives its result on compressed streams |
| Corrected.DecompressAfterHeader | src/HuffProcessor.java:202-211 | after the magic number, the checked reader takes the preorder header and hands the rest to the decoder, whose values are written as bytes |
| Corrected.PayloadDecodes | src/HuffProcessor.java:220-245 | the payload of a trie holding the pseudo-EOF and the bytes of s, followed by anything, decodes to s, also when the trie is a single leaf |
| Corrected.LeavesFitHeader | src/HuffProcessor.java:264 | the pseudo-EOF and the byte values fit in the header's 9-bit field |
| Corrected.CompressedStream | src/HuffProcessor.java:44-55 | the intended compressed stream starts with the 32 magic bits; `Corrected.CompressedStreamOfTable` gives the rest and `Corrected.RoundTrip` its decompression |
| Corrected.RoundTrip | src/HuffProcessor.java:44-55 | decompressing the intended compressed stream, followed by any padding, gives back every complete byte of the input |
| Corrected.CompressedStreamOfTable | src/HuffProcessor.java:44-55 | the intended compressed stream is the magic number, the preorder header and the payload written with the trie's code table, which never fails |
| Corrected.RoundTripAnyPadding | src/HuffProcessor.java:44-55 | the round trip holds for every padding |
| Corrected.CompressCorrected | src/HuffProcessor.java:44-55 | the intended `compress` writes the magic number, the preorder header and the input's codes, and whatever follows its output, decompressing it gives back every complete byte of the input |

## Left out

- `BitInputStream` and `BitOutputStream` are not part of this model. The stream internals are abstracted as bit sequences: byte buffering, `reset` and the zero padding that `close` adds. `compress` sees the same input `seq` twice in place of `in.reset()`. The decoder lemmas allow any bits after the payload.
- I/O errors of the underlying files are not modelled.
- `HuffNode` is not part of this model. The trie carries values only, and weights are kept only while it is built; nodes read from a header get weight 0 in Java, and the model leaves that out. `HuffNode.compareTo` and the binary heap behind `PriorityQueue` are also not modelled. `remove` takes some entry of least weight, and the tie-break stays open.
- TreeBuilder.MakeTreeFromCounts: weights are unbounded integers, so it does not model `int` overflow of `left.myWeight + right.myWeight` (line 159).
- Counting.ReadForCounts: counts are unbounded integers, so it does not model `int` overflow of a count past 2^31 - 1 occurrences (line 186).
- Payload.ParseBinary: it accepts only ASCII '0' and '1' digits after an optional sign. The other digit characters that `Character.digit` accepts for radix 2 are not modelled: codes never hold them.
- Bits.WriteBits: it writes the low `width` bits of the value for every width. The behaviour of `BitOutputStream.writeBits` for widths above 32 is not modelled; it is reachable only for a code of 33 or more characters that starts with zeros.
- Bits.ReadBits: `readBits(32)` returns the 32 bits as a Java `int`, so `0xface8201` is negative there. The model compares unsigned values on both sides, which gives the same result.
- Codes.CodingHelper: it requires every leaf value to index the table. Java would throw `ArrayIndexOutOfBoundsException` otherwise, which is not modelled; the trie built from counts always satisfies the requirement.
- The debug-level field, the `DEBUG_*` constants and the constructors (lines 23-34) have no effect on the codec and are not modelled.
- The commented-out code (lines 56-61, 89-100, 132-134) is not modelled. The preorder reader format in lines 89-100 is what `Header.PreorderHeader` writes.
- Processor.Compress: on an exception it returns only the `Failure`. In Java, the magic number and `writeHead`'s header (lines 50-51) are already written to `out` when `writeCompressedBits` throws, which happens for every input lacking some byte value; that partial output is not modelled.
- Payload.WriteCompressedBits: on an exception it returns only the `Failure`, not the chunks already written by earlier iterations of line 65.
- Payload.ReadCompressedBits: on `NoPseudoEof` (line 226) or a null dereference (line 234) it returns only the `Failure`, not the bytes already written at line 238.
- Header.ReadTreeHeader: stack depth is not modelled. The recursion at lines 260-261 can overflow the Java stack on a long run of 0 bits, where the model reads on and returns `HeaderEnd` at the end of the stream.
- Exceptions are modelled only as `Failure` values; their messages are not. `illegal header starts with` is modelled without the value it reports.

## Findings

| source | as written | input that shows it | evidently intended | confidence | as-written member | corrected member |
|---|---|---|---|---|---|---|
| src/HuffProcessor.java:76-87 | `writeHead` writes a 1 bit and 9 bits per leaf but no 0 bit for an internal node | any trie with two leaves, e.g. `Node(Leaf(97), Leaf(256))` for the input byte 97: `readTreeHeader` reads back `Leaf(97)` alone | a preorder header: a 0 bit, then the left and right subtrees, for each internal node | not executed | Header.WriteHeadReadsAsFirstLeaf | Corrected.CheckedReadInvertsPreorder |
| src/HuffProcessor.java:63-67 | `writeCompressedBits` never reads `in`; it writes every entry of the code table in index order, so a null entry throws `NullPointerException` and the empty code throws `NumberFormatException` | the empty input: entry 0 of the table is null | each byte of the input written as its code, then the pseudo-EOF's code | not executed | Payload.CodeTableNeedsFullAlphabet | Corrected.WriteCodes |
| src/HuffProcessor.java:264 | the 9-bit read of a leaf is not checked for the end of the stream | the stream holding a single 1 bit reads as the leaf -1 | throw `HuffException` as the 1-bit read does | not executed | Corrected.TruncatedLeafRecord | Corrected.CheckedReadIsPreorder |
| src/HuffProcessor.java:229-234 | a trie that is a single leaf has null children, so the first bit dereferences null | the trie `Leaf(256)` that the empty input gives, with any non-empty payload | a single pseudo-EOF leaf stands for an empty payload | not executed | Payload.LeafRootFails | Corrected.PayloadDecodes |
