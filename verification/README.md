# File compression backend: codec core in Dafny

This project models the compression core of the Express backend in
`server/index.js`:

- the byte-oriented run-length codec (`rleCompress`, `rleDecompress`);
- the Huffman codec with its frequency table, tree and code construction,
  bit packing and container format (`buildFrequencyMap`, `buildHuffmanTree`,
  `generateCodes`, `compressToBinaryString`, `binaryStringToBuffer`,
  `bufferToBinaryString`, `huffmanCompress`, `huffmanDecompress`);
- the LZ77 codec with its 255-byte window and `(offset, length, next)`
  triples (`lz77Compress`, `lz77Decompress`);
- the choice of codec by the `algorithm` form field in the `/compress`
  and `/decompress` routes, with the 400 and 500 answers.

Buffers are `seq<Byte>` with `Byte = 0..255`. A read past the end of a
buffer yields `undefined` in JavaScript, and `Buffer.from` stores it as 0.
The model writes this as `Bytes.At`, so every decoder is total. The errors
modelled are JavaScript's: a `RangeError` from `writeUInt32BE` on a
length of 2^32 or more, a `RangeError` from `readUInt32BE` on a buffer
shorter than 4 bytes, a `SyntaxError` from `JSON.parse`, and a `TypeError`
from walking off a leaf of the Huffman tree. Errors from the engine's size
limits are not modelled (see "Left out"). `JSON.stringify`
and `JSON.parse` of the frequency table are a parameter (`Huffman.TableCodec`).
Every Huffman property that needs the text to read back says so through
`Huffman.Faithful`.

Modules and files:

| file | module | what it models |
|---|---|---|
| bytes.dfy | Bytes | bytes, `Option`, `Result`, thrown errors, 32-bit big-endian length field |
| rle.dfy | Rle | run-length codec |
| bit_packing.dfy | BitPacking | bit strings and their packing into bytes |
| huffman_tree.dfy | HuffmanTree | frequency map, `Object.entries` order, the stable sort, tree building |
| huffman_codes.dfy | HuffmanCodes | code generation, encoding and the decoding walk |
| huffman.dfy | Huffman | the Huffman container and its round trip |
| lz77.dfy | Lz77 | LZ77 match search, token stream, decoder |
| dispatch.dfy | Dispatch | algorithm selection and route outcomes |

The model follows the code where its behaviour is surprising:

- `algorithm || 'rle'` selects "rle" for an absent field and for an empty one.
- RLE: an odd-length blob ends in a count whose byte is missing. The decoder emits that many zeros.
- LZ77: a blob whose length is not a multiple of 3 reads its missing fields as 0. A missing length copies nothing; a missing next byte appends a 0.
- LZ77: a copy read before the start of the output, or at or past its current end, is `undefined` and copies as 0; every other read copies an output byte. So an offset of 0 copies zeros, and the blob 0,0,5,3,4,7 decodes to 5,0,0,5,0,7.
- Huffman: bits that stop in the middle of a code are dropped without an error.
- Huffman: a table that parses to `{}` builds no tree. Any bit then throws a `TypeError`, and no bits decode to the empty buffer.

## Model

| member | source | states |
|---|---|---|
| Bytes.UInt32BE | server/index.js:136-137 | a length below 2^32 is written as exactly four bytes |
| Bytes.ReadUInt32BE | server/index.js:145 | the length read from the first four bytes is below 2^32 |
| Bytes.UInt32BERoundTrip | server/index.js:137 | reading back the four bytes written for a length gives that length |
| Bytes.ReadUInt32BERoundTrip | server/index.js:145 | writing back the length read from four bytes gives those bytes, so the field is a bijection |
| Rle.Compress | server/index.js:34-47 | the output is a sequence of (count, byte) pairs, so its length is even, and it is empty exactly when the input is |
| Rle.FirstRun | server/index.js:37-44 | the first run has 1 to 255 equal bytes and stops at the end of the buffer, at 255, or before a different byte |
| Rle.FirstRunUnique | server/index.js:38 | those three stopping conditions determine the run length, so the greedy loop has only one possible answer |
| Rle.EmitStep | server/index.js:40-43 | emitting `[count, buffer[i-1]]` at a run's end leaves exactly the compression of the rest of the buffer to do |
| Rle.CompressLoop | server/index.js:34-47 | the loop with its counter computes the same output as the run-by-run definition |
| Rle.RunsSpec | server/index.js:34-47 | the runs the encoder cuts are canonical (1 to 255 bytes, a run shorter than 255 is followed by a different byte) and together spell the input |
| Rle.RunsOfExpand | server/index.js:34-47 | conversely, a canonical run list is exactly what the encoder cuts from its expansion |
| Rle.DecompressFlatten | server/index.js:49-59 | decoding a list of (count, byte) pairs repeats each byte count times, in order |
| Rle.RoundTrip | server/index.js:34-59 | `rleDecompress(rleCompress(b))` is `b` for every buffer |
| Rle.ExampleAAABBC | server/index.js:34-47 | "AAABBC" compresses to 3,A,2,B,1,C |
| Rle.ExampleLongRun | server/index.js:38 | a run of 300 equal bytes is split at 255: 255,v,45,v |
| BitPacking.ToBits | server/index.js:122 | `toString(2).padStart(n, '0')` has exactly n digits |
| BitPacking.FromToBits | server/index.js:122 | reading the n digits of a number below 2^n gives the number back |
| BitPacking.ToFromBits | server/index.js:114 | writing out `parseInt(bits, 2)` in as many digits gives the bits back |
| BitPacking.BitsOf | server/index.js:122 | each byte unpacks to exactly 8 bits |
| BitPacking.Chunks | server/index.js:112-115 | a bit string whose length is a multiple of 8 packs into one byte per 8 bits |
| BitPacking.Unchunk | server/index.js:121-123 | unpacking gives 8 bits per byte |
| BitPacking.UnchunkChunks | server/index.js:112-123 | unpacking the packed bytes gives the bits back |
| BitPacking.ChunksUnchunk | server/index.js:112-123 | packing the unpacked bits gives the bytes back |
| BitPacking.PaddingOf | server/index.js:109 | the padding is below 8 and brings the length to a multiple of 8 |
| BitPacking.Pack | server/index.js:108-117 | the buffer is one padding byte below 8 and then ceil(n/8) data bytes, and the padding completes the last byte |
| BitPacking.SliceEnd | server/index.js:125 | `slice(0, end)` never ends past the string, and a negative end counts from the back |
| BitPacking.PackRoundTrip | server/index.js:108-126 | `bufferToBinaryString(binaryStringToBuffer(s))` is `s` for every bit string |
| BitPacking.UnpackRoundTrip | server/index.js:108-126 | every buffer with a padding count below 8 and zero padding bits is the packing of what it unpacks to |
| HuffmanTree.BuildFrequencyMap | server/index.js:71-75 | the keys are the distinct bytes of the buffer, and each count is that byte's number of occurrences |
| HuffmanTree.FrequencySum | server/index.js:71-75 | the counts in the table add up to the buffer length |
| HuffmanTree.EntriesFromOrdered | server/index.js:78 | `Object.entries` lists the integer keys in ascending order, each with its count |
| HuffmanTree.TableKeys | server/index.js:78-80 | each key of a non-empty table gives exactly one leaf |
| HuffmanTree.LeafNodesContents | server/index.js:78-80 | the initial nodes are leaves carrying the table's bytes and counts |
| HuffmanTree.Sort | server/index.js:82 | the sort rearranges the nodes without losing or adding any |
| HuffmanTree.InsertSorted | server/index.js:82 | one insertion step keeps the nodes ordered by frequency |
| HuffmanTree.InsertStable | server/index.js:82 | one insertion step keeps nodes of equal frequency in their order |
| HuffmanTree.SortSpec | server/index.js:82 | the sorted nodes are ordered by frequency, and nodes of equal frequency keep their relative order, as a stable `Array.prototype.sort` guarantees |
| HuffmanTree.StableSortUnique | server/index.js:82 | two orderings that are both sorted and stable are equal, so the result does not depend on the sort algorithm |
| HuffmanTree.StableSortIsSort | server/index.js:82 | any stable sort's result equals the model's sort |
| HuffmanTree.Merge | server/index.js:83-85 | each round removes the two front nodes and adds their parent, one node fewer |
| HuffmanTree.MergeContents | server/index.js:83-85 | a round keeps the multiset of leaf bytes and the total frequency |
| HuffmanTree.BuildSpec | server/index.js:81-87 | the loop ends in one tree whose leaves are the leaves of the start nodes, whose weight is their total, and whose inner weights are the sums of their children |
| HuffmanTree.HuffmanTreeSpec | server/index.js:77-88 | a non-empty table gives a tree with exactly one leaf per key and the total count at the root; the tree is a single leaf exactly when the table has one key |
| HuffmanTree.TreeOfInput | server/index.js:129-130 | the tree built from a non-empty buffer has one leaf per distinct byte and the buffer length as its weight |
| HuffmanCodes.GenerateCodes | server/index.js:90-98 | the codes gain exactly one entry for each leaf byte |
| HuffmanCodes.GenerateCodesPath | server/index.js:90-98 | each code extends the prefix with the path from the node to that byte's leaf |
| HuffmanCodes.ReachPrefixFree | server/index.js:90-98 | no path to a leaf is a proper prefix of a path to another leaf |
| HuffmanCodes.CodesSpec | server/index.js:90-98 | from the root: one code per leaf byte, each leading to its leaf, the only path to it when bytes are distinct, none a prefix of another, and none empty unless the root is a leaf |
| HuffmanCodes.SingleLeafEncodesEmpty | server/index.js:92-93 | a single-leaf tree gives its byte the empty code, so its input encodes to no bits |
| HuffmanCodes.WalkCode | server/index.js:155-160 | walking the bits of one code from an inner node emits that code's byte and returns to the root |
| HuffmanCodes.DecodeEncode | server/index.js:153-161 | walking the concatenated codes of a buffer through a tree with inner root gives the buffer back |
| Huffman.CodesCoverInput | server/index.js:103 | every byte of the buffer has a code, so `codeMap[byte]` is never undefined |
| Huffman.Compress | server/index.js:128-142 | it throws `RangeError` exactly when the table text needs 2^32 bytes or more; otherwise the header holds the text length and at least the padding byte follows |
| Huffman.TableEnd | server/index.js:146 | the table slice ends between byte 4 and the end of the blob |
| Huffman.Decompress | server/index.js:144-147 | a blob shorter than 4 bytes throws `RangeError`, and a table that does not parse throws `SyntaxError` |
| Huffman.Framing | server/index.js:134-141 | a compressed blob is the length header, the table text, then the packed code bits |
| Huffman.DecompressOfCompress | server/index.js:128-163 | decompressing a compressed blob walks the tree of the buffer's own table over the buffer's code bits |
| Huffman.InputTreeShape | server/index.js:81-87 | the tree of a buffer is a single leaf exactly when all its bytes are equal |
| Huffman.DecodeOfInput | server/index.js:152-161 | the walk decodes a buffer's code bits back to the buffer when it is empty or has two distinct bytes |
| Huffman.RoundTrip | server/index.js:128-163 | decompress after compress gives the buffer back when it is empty or has two distinct bytes and the table text reads back |
| Huffman.SingleSymbolBits | server/index.js:92-93 | a buffer of one repeated byte builds a single leaf and encodes to no bits |
| Huffman.SingleSymbolLost | server/index.js:128-163 | a non-empty buffer of one repeated byte packs to the lone padding byte 0 and decompresses to the empty buffer |
| Huffman.SingleSymbolExample | server/index.js:128-163 | "AAA" decompresses to the empty buffer |
| Huffman.DecodeBitsFixed | server/index.js:152-162 | the corrected walk agrees with the original on trees with an inner root, and on a lone leaf with no bits it returns `freq` bytes |
| Huffman.DecompressFixed | server/index.js:144-145 | the corrected decompressor keeps the `RangeError` on blobs shorter than 4 bytes |
| Huffman.RoundTripFixed | server/index.js:128-163 | with the corrected walk, decompress after compress gives every buffer back when the table text reads back |
| Lz77.MatchFrom | server/index.js:175-182 | the match stays within 255 bytes, within the window, and within the part of the input that may be matched |
| Lz77.MatchFromSpec | server/index.js:175-182 | the extended match agrees with the input and stops only at 255, at the input's end, at the window's end, or at a differing byte |
| Lz77.MatchLength | server/index.js:174-182 | the match length from one window position is at most 255 and stays inside the window |
| Lz77.MatchLengthSpec | server/index.js:174-182 | that length is the longest agreement from the position, cut by the four stopping conditions |
| Lz77.WindowStart | server/index.js:171 | the window starts at most 255 bytes before the current position |
| Lz77.WindowStartFull | server/index.js:171 | the window starts at 0 or exactly 255 bytes back, so it holds every earlier position within 255 bytes |
| Lz77.Pick | server/index.js:183-189 | the candidate kept always fits inside the input |
| Lz77.ScanStep | server/index.js:183-189 | after each window position the kept match is the longest so far, and the oldest among equally long ones |
| Lz77.Scan | server/index.js:173-190 | scanning the window keeps a match that fits inside the input |
| Lz77.ScanSpec | server/index.js:173-190 | after the whole window the kept match is the longest, and the oldest among equally long ones |
| Lz77.BestMatch | server/index.js:170-190 | the chosen match fits inside the input |
| Lz77.BestMatchSpec | server/index.js:170-190 | the chosen match leads every window position |
| Lz77.EmittedTriple | server/index.js:170-190 | offset 0 exactly when length 0; the offset lies in the window and is at least the length; the copied bytes equal the bytes that follow; next is the byte after the match, or 0 past the end |
| Lz77.EmittedLongest | server/index.js:173-190 | no window position matches longer, and every position older than the chosen one matches strictly shorter |
| Lz77.Flatten | server/index.js:191-193 | each triple adds three bytes |
| Lz77.Compress | server/index.js:166-197 | the output is whole triples and is empty exactly when the input is |
| Lz77.CopyBack | server/index.js:206-208 | copying appends exactly `length` bytes and keeps the output so far |
| Lz77.CopyBackInside | server/index.js:206-208 | a copy that lies inside the output appends those bytes |
| Lz77.Step | server/index.js:202-209 | one triple appends length + 1 bytes, keeps the output so far and ends with `next` |
| Lz77.DecompressLoop | server/index.js:199-212 | the nested loops compute the triple-by-triple definition of the decoder |
| Lz77.CopyMatch | server/index.js:206-208 | copying a match that the input repeats extends the decoded prefix by that match |
| Lz77.DecodeTokenStep | server/index.js:202-209 | decoding one emitted triple after the input's prefix gives the prefix through the match plus the next byte |
| Lz77.DecodeTokens | server/index.js:166-212 | decoding the triples emitted from position i after the first i bytes gives the whole input, plus a 0 when the last match ends at the input's end |
| Lz77.RoundTrip | server/index.js:166-212 | `lz77Decompress(lz77Compress(b))` is `b`, plus a 0 when the last match ends at the input's end |
| Lz77.ExampleCompress | server/index.js:166-197 | "AA" compresses to (0,0,A),(1,1,0) |
| Lz77.ExampleDecode | server/index.js:199-212 | (0,0,A),(1,1,0) decodes to "AA" followed by 0 |
| Lz77.ExampleReadsAroundOutput | server/index.js:205-208 | a copy starting two bytes before the output gives 0,0 and then copies the output, so 0,0,5,3,4,7 decodes to 5,0,0,5,0,7 |
| Lz77.ExampleTrailingZero | server/index.js:187 | "AA" comes back as "AA" followed by 0 |
| Lz77.CompressFixed | server/index.js:176 | the corrected encoder still emits whole triples |
| Lz77.NeverEndsInsideMatch | server/index.js:176 | when matches may not reach the last byte, no match ends at the input's end |
| Lz77.RoundTripFixed | server/index.js:166-212 | with the corrected bound, decompress after compress gives every input back exactly |
| Dispatch.Selected | server/index.js:233 | the name is "rle" exactly when the field is absent, empty or "rle"; any other non-empty text is taken unchanged |
| Dispatch.AlgorithmOf | server/index.js:243-251 | "rle", "huffman" and "lz77" each select their own codec, and every other name selects none |
| Dispatch.Status | server/index.js:249-254 | 200 exactly for a result, 400 exactly for an unsupported name, 500 exactly for a codec error |
| Dispatch.DefaultIsRle | server/index.js:280 | without an algorithm field, or with an empty one, both routes act as "rle" |
| Dispatch.UnsupportedExactly | server/index.js:292-294 | a route answers "Unsupported algorithm" with 400 exactly when the name is none of the three |
| Dispatch.UnsupportedIgnoresInput | server/index.js:249-251 | that answer does not depend on the uploaded file |
| Dispatch.Routing | server/index.js:242-254 | each name reaches its own codec in both routes, a Huffman error becomes "Compression failed" or "Decompression failed", and in this model, which leaves out engine size limits, only "huffman" can fail |
| Dispatch.RleRouteRoundTrip | server/index.js:286-287 | the decompress route undoes the compress route for "rle" on every file |
| Dispatch.Lz77RouteRoundTrip | server/index.js:290-291 | the decompress route undoes the compress route for "lz77", with the extra trailing 0 |
| Dispatch.HuffmanRouteRoundTrip | server/index.js:288-289 | the decompress route undoes the compress route for "huffman" on files that are empty or have two distinct bytes |
| Dispatch.HuffmanRouteSingleSymbol | server/index.js:288-289 | through "huffman", a file of one repeated byte comes back empty |

## Left out

- HTTP, Express, multer and the file system are not modelled. The file reaches the model as a byte sequence.
- The upload and MIME-type checks and their 400 answers are not modelled. They come before the algorithm is read.
- base64 encoding, response headers and file names are not modelled.
- The size, ratio and timing statistics are not modelled. They use floating point (`toFixed`) and the clock (`Date.now`).
- The JSON text of the frequency table is a parameter (`Huffman.TableCodec`), not a model of `JSON.stringify` and `JSON.parse`.
- Tables that parse to non-byte keys or non-integer counts are not modelled. The parser returns a map from bytes to counts.
- `lz77Compress` is modelled with its default `windowSize` of 255 only, the only value the routes use.
- JavaScript engine size limits are not modelled: the maximum string length, which `bitString +=` can exceed on large inputs, the maximum array length and heap exhaustion in `output.push`. In the running server these throw, and the routes answer 500. In the model only the Huffman codec fails, and only with the errors listed above.
- Array-valued `algorithm` fields are not modelled. The field is absent or one string.
- The web client is not part of this model.
- Huffman.Decompress: its contract states only the two thrown errors. The decoded output is stated by `Huffman.DecompressOfCompress` and `HuffmanCodes.DecodeEncode` for blobs the compressor produced, not for arbitrary blobs.
- Lz77.Compress: its contract states only the triple framing. What the triples hold is stated by `Lz77.EmittedTriple`, `Lz77.EmittedLongest` and `Lz77.RoundTrip`.

## Findings

| source | as written | input that shows it | evidently intended | confidence | as-written member | corrected member |
|---|---|---|---|---|---|---|
| server/index.js:92-93 | a one-leaf tree gives its byte the empty code, and the decoder emits a byte only after taking a bit | any non-empty buffer of one repeated byte, such as "AAA", decompresses to the empty buffer | the buffer comes back, for example by repeating the lone byte `freq` times | not executed | Huffman.SingleSymbolLost | Huffman.RoundTripFixed |
| server/index.js:176 | a match may run up to the last input byte, and then `buffer[i + length] \|\| 0` emits a `next` byte of 0 that is not in the input | "AA" compresses to (0,0,A),(1,1,0) and decompresses to "AA" followed by 0 | a match stops one byte before the end, so `next` is always a real input byte | not executed | Lz77.ExampleTrailingZero | Lz77.RoundTripFixed |
