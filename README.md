# Huffman codec of compression_tool, modelled in Dafny

This project models the Huffman codec of the Go package `internal/huff`. It has three parts:

- **Tree builder** (`huff.go`):
  - the priority queue and its `Less` order (Count first, then Char);
  - `buildTree`'s greedy merge loop;
  - the left-`0` / right-`1` prefix table written by `encodeTree`;
  - the pre-order node list of `getTreeFrequency`.
- **Encoder** (`encode.go`):
  - `getRunesFrequency`, the frequency count of UTF-8 code points;
  - `serializeNode`, the pre-order tree bytes (`0` for an internal node; `1` and the UTF-8 bytes for a leaf);
  - `encData`, which packs the codes MSB first;
  - `Compress`, which assembles the container `validBits, 0x1F, tree, "%%", payload`.
- **Decoder** (`decode.go`):
  - `getTreeBytes` and `getEncData`, which split the container on its delimiters;
  - `rebuildEncSubTrees`, a recursive descent that moves a shared cursor;
  - `getEncLookup`, the code→rune lookup list;
  - `decode`, the bit-by-bit decoder;
  - `Decompress`.

## Modules

The modules follow the files. UTF-8 and bit packing each get a module, and the end-to-end proofs and the concrete cases get one each.

| module | file | contents |
|---|---|---|
| `Types` | types.dfy | bytes, runes, one error tag per error message, `Result`/`Option` |
| `Utf8` | utf8.dfy | the UTF-8 codec of section 3 of RFC 3629, with Go's `RuneError` conventions |
| `Bits` | bits.dfy | bit strings, packing MSB first into bytes, unpacking |
| `Huff` | huff.dfy | nodes, `Less`, the priority queue class, `buildTree`, `encodeTree`, `getTreeFrequency` |
| `Encode` | encode.dfy | `getRunesFrequency`, `serializeNode`, `encData`, `Compress` |
| `Decode` | decode.dfy | `getTreeBytes`, `getEncData`, `rebuildEncSubTrees`, `getEncLookup`, `decode`, `Decompress` |
| `RoundTrip` | roundtrip.dfy | `Decompress` undoes `Compress` unless the rightmost leaf is `'%'` |
| `Vectors` | vectors.dfy | the malformed containers of `TestDecompressInvalidInput`, and the `'%'` counterexample |
| `Samples` | samples.dfy | the passing cases of the test files: both `buildTree` cases, `encodeTree`, `getRunesFrequency`, `encData`, `Compress`, `Decompress`, `getTreeBytes`, `getEncData`, `getEncLookup`, `decode` and `rebuildEncTree`, and the encoder's and `buildTree`'s error cases |

## How the model is built

**Imperative code.**
- Code that updates state stays imperative:
  - the priority queue is a class holding a `seq` of nodes;
  - `Swap`, `Push`, `Pop` and `heap.Pop` are methods on it;
  - `buildTree`, `getRunesFrequency`, `encData`, `getEncLookup` and `decode` are methods with their loops;
  - `serializeNode` writes into a byte-buffer class;
  - `encodeTree` writes into a prefix-table class;
  - `rebuildEncSubTrees` advances a `Cursor` object shared by its recursive calls.
- Each such method is proved against a function:
  - `Histogram` for `getRunesFrequency`;
  - `Serialize` for `serializeNode`;
  - `Pack` of `Bitstream` for `encData`;
  - `Codes` for `encodeTree`;
  - `Parse` for `rebuildEncSubTrees`;
  - `Scan` for `decode`;
  - `DecompressSpec` for `Decompress`;
  - `CompressSpec` for `Compress`.
- The properties are lemmas about those functions.

**Choices the source leaves open.**
- `heap.Pop` returns *some* element that is minimal under `Less`. `Less` compares Count, then Char, and internal nodes all carry Char 0, so it is not a total order: two internal nodes of equal count tie.
  - The model keeps that freedom. `IsHuffmanTree(freq, root)` says some run of the merge loop ends in `root`: each step pops a minimal `l`, then a minimal `r` of what is left, and pushes their parent.
  - `BuildTree` is proved to return such a tree.
  - In both cases of `huff_test.go` each pop has a single candidate, so neither has a tie: `Samples.OnlyTree1` and `Samples.OnlyTree2` show that each frequency map has exactly one Huffman tree.
- Go's map iteration order, used by `getEncLookup`, is also left open.
  - `GetEncLookup` promises only that the list enumerates the table.
  - `ScanOrder` shows the decoded output does not depend on that order.

**UTF-8.**
- `DecodeRune` follows Go's `utf8.DecodeRune`. The source treats a returned `RuneError` as a failure, so a correctly encoded U+FFFD is rejected as well. The model keeps that.

**Round trip.**
- `RoundTrip` and `CompressDecompress` state the round trip.
- The round trip needs the rightmost leaf not to be `'%'`, because `getEncData` and `getTreeBytes` stop at the first `"%%"` (decode.go:57, decode.go:72).
- `PercentCounterexample` shows it failing for the input `"a%%"`.

## Model

| member | source | states |
|---|---|---|
| Utf8.DecodeEncode | internal/huff/encode.go:76 | decoding the UTF-8 written for a scalar value gives that value and its length back, whatever bytes follow |
| Utf8.DecodeCanonical | internal/huff/decode.go:188-193 | a successful decode yields a scalar value whose encoding is exactly the bytes consumed |
| Utf8.EncodeRuneBytes | internal/huff/encode.go:76 | one-byte encodings are exactly the ASCII code points; every byte of a longer encoding is at least 0x80 |
| Bits.UnpackPack | internal/huff/encode.go:107-123 | unpacking the packed bits gives the bits back followed by zero padding to a whole byte |
| Bits.PackAppend | internal/huff/encode.go:113-117 | packing splits at byte boundaries: a prefix of whole bytes packs on its own |
| Bits.OrPow2 | internal/huff/encode.go:109 | OR-ing 2^k into a number whose bits 0..k are clear adds 2^k |
| Bits.OrBound | internal/huff/encode.go:109 | OR-ing two numbers below 2^n stays below 2^n, so `currentByte` stays a byte |
| Bits.OrAbove | internal/huff/encode.go:109 | OR-ing never makes a number smaller |
| Bits.SetNextBit | internal/huff/encode.go:108-110 | OR-ing `1 << (7 - bitCount)` into the byte under construction (or leaving it for '0') gives the byte of the extended bit string |
| Bits.ByteBitAt | internal/huff/decode.go:117 | `(b >> k) & 1` as a character is position 7−k of the byte's bits, MSB first |
| Bits.UnpackBit | internal/huff/decode.go:117 | `(enc[i] >> k) & 1` as a character is position 8i+(7−k) of the unpacked payload |
| Huff.PrecedesTies | internal/huff/huff.go:20-25 | two nodes are unordered by Less exactly when Count and Char agree, so internal nodes of equal count tie |
| Huff.ParentBeforeLeaf | internal/huff/huff.go:73-77 | a merged parent (Char 0) comes before a leaf of the same count whose symbol is not 0 |
| Huff.PrecedesTransitive | internal/huff/huff.go:20-25 | Less is transitive |
| Huff.PrecedesIrreflexive | internal/huff/huff.go:20-25 | no node comes before itself under Less |
| Huff.PriorityQueue.Less | internal/huff/huff.go:20-25 | Less on two queue entries: when it holds, the reverse does not, and the entries differ |
| Huff.PriorityQueue.Len | internal/huff/huff.go:18 | the number of queued nodes, counted with repetitions |
| Huff.OnlyMinimal | internal/huff/huff.go:70-71 | a node that precedes every other queued node is the only one heap.Pop can return |
| Huff.ForcedStep | internal/huff/huff.go:69-79 | when each of the two pops has a single candidate, the merge step happens and has exactly one outcome |
| Huff.ForcedPop | internal/huff/huff.go:69-79 | a queue of l, r and the rest, where l precedes r and r precedes the rest, has l and r merged as its only next step |
| Huff.OnlyRootEnd | internal/huff/huff.go:69-83 | a queue of one tree ends the loop at once, with that tree |
| Huff.OnlyRootBack | internal/huff/huff.go:69-83 | a forced step out of a queue of several trees keeps the single outcome of the next queue |
| Huff.OnlyRootPop | internal/huff/huff.go:69-83 | one forced merge back from a queue whose only outcome is t gives a queue whose only outcome is t |
| Huff.OnlyHuffmanTree | internal/huff/huff.go:48-83 | when the initial queue has a single outcome t, the Huffman trees of the map are exactly t |
| Huff.PriorityQueue.Swap | internal/huff/huff.go:27-29 | swaps two queue entries and changes nothing else |
| Huff.PriorityQueue.Push | internal/huff/huff.go:31-34 | appends the node at the end of the queue |
| Huff.PriorityQueue.Pop | internal/huff/huff.go:36-44 | removes and returns the last node of the queue |
| Huff.PriorityQueue.HeapPop | internal/huff/huff.go:70-71 | heap.Pop: removes and returns a node no other queue entry precedes |
| Huff.PriorityQueue.MinIndex | internal/huff/huff.go:70 | finds an index of the queue no entry precedes |
| Huff.LoadLeaves | internal/huff/huff.go:53-61 | fills the queue with one leaf per symbol, or reports false exactly when some frequency is not positive |
| Huff.MergeAll | internal/huff/huff.go:68-83 | the merge loop and the final pop end with an empty queue and a tree some run of the merge loop produces |
| Huff.BuildTree | internal/huff/huff.go:48-92 | empty map, then non-positive count, then fewer than two symbols fail in that order; otherwise the root is a Huffman tree for the map and the table is its codes |
| Huff.MergeStepInv | internal/huff/huff.go:69-79 | a merge step keeps every queued tree weighted, merge-ordered, with distinct leaves carrying their frequencies, and the trees disjoint and covering the map |
| Huff.TraceLength | internal/huff/huff.go:69-81 | each merge shrinks the queue by one, so a run from n leaves to one root has n states |
| Huff.HuffmanTreeShape | internal/huff/huff.go:69-83 | the root's leaves are exactly the map's symbols with their frequencies, it has one leaf per symbol, its count is the sum of the frequencies, and with two or more symbols it is internal |
| Huff.CountIsLeafSum | internal/huff/huff.go:73-77 | in a weighted tree with distinct leaves the count is the sum of the leaf counts |
| Huff.EncodeTree | internal/huff/huff.go:94-106 | adds the codes of the leaves below the node, and only those, to the table |
| Huff.CodesArePaths | internal/huff/huff.go:94-106 | the table has one entry per leaf and each code is the 0/1 path from the root to that leaf |
| Huff.CodesJoin | internal/huff/huff.go:104-105 | the codes of a parent are those of the left child under "0", overridden by those of the right child under "1" |
| Huff.PrefixFree | internal/huff/huff.go:94-106 | no code of the table is a prefix of another |
| Huff.NonEmptyCodes | internal/huff/huff.go:94-106 | every code is a bit string, and none is empty when the root is internal |
| Huff.CodeIsPath | internal/huff/huff.go:94-106 | with distinct leaves, the table has one entry per leaf and a symbol has code p exactly when path p leads to its leaf |
| Huff.PreOrderLength | internal/huff/huff.go:108-126 | the pre-order list of a full binary tree has 2·leaves−1 nodes |
| Huff.TraverseTree | internal/huff/huff.go:116-126 | appends the pre-order list of the subtree to the shared list |
| Huff.GetTreeFrequency | internal/huff/huff.go:108-114 | returns the pre-order list, root first, of length 2·leaves−1 |
| Encode.RunesScalars | internal/huff/encode.go:50-53 | every code point accepted is a scalar value other than U+FFFD |
| Encode.RunesEncodeAll | internal/huff/encode.go:49-56 | re-encoding the accepted code points gives the input back |
| Encode.RunesOfEncodeAll | internal/huff/encode.go:49-56 | the UTF-8 of scalar values other than U+FFFD decodes to those values |
| Encode.RunesAdvance | internal/huff/encode.go:49-56 | one code point through getRunesFrequency's loop extends the decoded prefix and moves past its bytes |
| Encode.GetRunesFrequency | internal/huff/encode.go:46-59 | fails exactly when the input is not accepted as UTF-8, and otherwise returns the histogram of its code points |
| Encode.HistogramCounts | internal/huff/encode.go:46-59 | the keys are exactly the code points of the input, each counted by its number of occurrences |
| Encode.HistogramSum | internal/huff/encode.go:46-59 | the counts add up to the number of code points |
| Encode.SerializeNode | internal/huff/encode.go:70-89 | appends the pre-order bytes of the subtree: 1 and the UTF-8 of a leaf, 0 then left then right for an internal node |
| Encode.SerializeTree | internal/huff/encode.go:61-68 | "node is nil" for a nil root, otherwise the serialized tree |
| Encode.SerializeLength | internal/huff/encode.go:74-87 | the tree bytes number one per node plus the UTF-8 of the leaf symbols, and start with the node marker |
| Encode.BitstreamRunes | internal/huff/encode.go:97-106 | encData's bit string exists exactly when the input is valid UTF-8 and every code point has a code, and is then the concatenated codes |
| Encode.BitstreamAdvance | internal/huff/encode.go:97-106 | one code point through encData's loop moves past its bytes and appends its code to the bits emitted |
| Encode.EncData | internal/huff/encode.go:91-126 | fails with the first UTF-8 or missing-code error, and otherwise returns the packed bit string and its length |
| Encode.MarkBit | internal/huff/encode.go:108-110 | `currentByte |= 1 << (7 - bitCount)` for a '1', nothing for any other bit; the byte never decreases |
| Encode.MarkBitAppends | internal/huff/encode.go:108-110 | marking the next bit of the byte that holds a bit string gives the byte that holds the string extended by that bit |
| Encode.WriteBit | internal/huff/encode.go:107-118 | one bit: the bits written grow by exactly that bit, a full byte goes to the buffer, and the packing state is kept |
| Encode.WriteCode | internal/huff/encode.go:107-118 | writing a code extends the bits written by exactly that code and keeps the packing state |
| Encode.PackFinish | internal/huff/encode.go:121-123 | flushing an incomplete last byte gives the packing of all the bits |
| Encode.PackedBits | internal/huff/encode.go:107-123 | the payload has ⌈bits/8⌉ bytes, bit i MSB first is char i of the codes, and padding bits are 0 |
| Encode.ValidBits | internal/huff/encode.go:33-36 | the header byte lies in 1..8 and agrees with the number of bits modulo 8 |
| Encode.TableCoversInput | internal/huff/encode.go:103-106 | a tree built for the input's frequencies has a code for every code point, so "char not found in prefix table" does not occur |
| Encode.Compress | internal/huff/encode.go:11-44 | propagates the frequency and tree errors in order, and otherwise returns the container of a Huffman tree for the input with its codes as payload |
| Decode.IndexByte | internal/huff/decode.go:51 | bytes.IndexByte: the first position of the byte, or -1 exactly when it is absent |
| Decode.IndexDelim | internal/huff/decode.go:57 | bytes.Index for "%%": the first position where it starts, or -1 when there is none |
| Decode.GetTreeBytes | internal/huff/decode.go:47-68 | the bytes strictly between the first 0x1F and the first "%%" after it, with a separate error for either marker missing |
| Decode.TreeBytesUpTo | internal/huff/decode.go:47-68 | for a slice starting with 0x1F whose first "%%" after it is at e, the tree bytes are those in between |
| Decode.EncDataFrom | internal/huff/decode.go:70-83 | when the first "%%" is at k and bytes follow it, the payload is everything after it |
| Decode.GetEncData | internal/huff/decode.go:70-83 | the bytes after the first "%%" of the whole slice, failing when there is none or nothing follows it |
| Decode.Parse | internal/huff/decode.go:162-199 | on success the position strictly advances and stays within the bytes |
| Decode.ParseLeaf | internal/huff/decode.go:182-195 | a leaf advances past its marker and at least one UTF-8 byte |
| Decode.RebuildEncSubTrees | internal/huff/decode.go:162-199 | the recursive descent with the shared cursor returns Parse's tree or error and leaves the cursor where Parse ends |
| Decode.RebuildEncTree | internal/huff/decode.go:154-160 | "tree bytes are empty" for no bytes, otherwise the subtree at position 0, bytes after it ignored |
| Decode.GetEncLookup | internal/huff/decode.go:90-102 | the lookup list has one entry per table key, with its code |
| Decode.Match | internal/huff/decode.go:120-126 | finds a symbol exactly when some entry carries the bits, and that entry is in the list |
| Decode.FindEntry | internal/huff/decode.go:120-126 | the scan of the lookup list returns the first entry whose code equals the bits |
| Decode.BitsToRead | internal/huff/decode.go:107-115 | decode reads (len−1)·8+validBits bits, never more than the bytes hold |
| Decode.ScanBit | internal/huff/decode.go:117-126 | reading one more bit either completes a code, emitting its symbol and clearing the accumulator, or extends the accumulator |
| Decode.DecodeByte | internal/huff/decode.go:112-129 | the inner loop reads the bits of one byte, MSB first, up to totalBits, and keeps the output equal to Scan over the bits read |
| Decode.Decode | internal/huff/decode.go:104-132 | the output is Scan over exactly the bits read: a symbol at each completed code, leftover bits dropped, no error |
| Decode.MatchLookup | internal/huff/decode.go:120-126 | with distinct codes the first matching entry is the symbol of that code in the table |
| Decode.ScanTable | internal/huff/decode.go:104-132 | with distinct codes, decoding with any enumeration of the table equals decoding with the table itself |
| Decode.ScanOrder | internal/huff/decode.go:90-102 | the output does not depend on the order of the lookup list |
| Decode.CodesInjective | internal/huff/huff.go:94-106 | the table of a tree gives distinct symbols distinct codes |
| Decode.Decompress | internal/huff/decode.go:9-45 | length and header checks, then tree bytes, payload and tree errors in that order, otherwise the payload decoded with the rebuilt tree's codes |
| RoundTrip.SerializeDelims | internal/huff/encode.go:70-89 | a serialized tree starts with a marker, each 37 in it is last or followed by a marker, and it ends in 37 only when the rightmost leaf is '%' |
| RoundTrip.BodyDelims | internal/huff/decode.go:57 | for tree bytes that start with a marker, do not end in 37 and have a marker after every other 37, the first "%%" after the header is the one that follows them |
| RoundTrip.LocateBytes | internal/huff/decode.go:47-83 | for such tree bytes and a non-empty payload, getTreeBytes returns the tree bytes and getEncData the payload |
| RoundTrip.LocateParts | internal/huff/decode.go:47-83 | getTreeBytes finds the serialized tree and getEncData the payload |
| RoundTrip.SizeSerialize | internal/huff/encode.go:70-89 | the number of tree bytes is one per node plus the UTF-8 length of each leaf symbol |
| RoundTrip.SerializedAtSlice | internal/huff/encode.go:70-89 | serialized bytes of a tree, found at a position, lay out each subtree at its own offset |
| RoundTrip.ParseSerialized | internal/huff/decode.go:162-199 | rebuildEncSubTrees reads the laid-out tree back without counts and stops just after it |
| RoundTrip.TreeOfSerialize | internal/huff/decode.go:154-199 | rebuilding serialized tree bytes recovers the shape and the leaf symbols |
| RoundTrip.StripCodes | internal/huff/huff.go:94-106 | the codes do not depend on the counts |
| RoundTrip.ReadCode | internal/huff/decode.go:117-126 | with a prefix-free table, reading the rest of a code emits its symbol exactly when the code is complete |
| RoundTrip.DecodeCodes | internal/huff/decode.go:104-132 | with a prefix-free table of non-empty codes, decoding the concatenated codes of symbols gives their UTF-8 |
| RoundTrip.ReadAllBits | internal/huff/decode.go:107 | with the header Compress writes, decode reads exactly the bits encData wrote |
| RoundTrip.DecompressContainer | internal/huff/decode.go:9-45 | Decompress of a container whose rightmost leaf is not '%' decodes exactly its bits with the tree's codes |
| RoundTrip.HuffmanTreeFacts | internal/huff/huff.go:48-106 | a tree built for the input's code points has decodable leaves and a prefix-free table of non-empty codes covering the input |
| RoundTrip.RoundTrip | internal/huff/encode.go:11-44 | Decompress gives back the input from the container of any tree buildTree can build for it, when the rightmost leaf is not '%' |
| RoundTrip.CompressDecompress | internal/huff/decode.go:9-45 | any container Compress may return for an input without a '%' byte decompresses to that input |
| Samples.OnlyTree1 | internal/huff/huff_test.go:14-28 | case 1's frequency map has exactly one Huffman tree |
| Samples.BuildTreeCase1 | internal/huff/huff_test.go:14-28 | buildTree on case 1 gives the pre-order counts [306, 120, 186, 79, 37, 42, 107, 42, 65, 32, 33, 9, 2, 7, 24] and its eight-entry table |
| Samples.OnlyTree2 | internal/huff/huff_test.go:29-39 | case 2's frequency map has exactly one Huffman tree |
| Samples.BuildTreeCase2 | internal/huff/huff_test.go:29-39 | buildTree on case 2 gives the pre-order counts [13, 6, 3, 1, 2, 3, 7, 3, 4] and the table {' ': 01, a: 11, b: 10, c: 001, d: 000} |
| Samples.BuildTreeErrorExamples | internal/huff/huff_test.go:76-95 | an empty map, a zero count and a single symbol fail with their three messages |
| Samples.EncodeTreeExample | internal/huff/huff_test.go:97-158 | encodeTree on the case-1 tree gives the test's table |
| Samples.GetRunesFrequencyExample | internal/huff/encode_test.go:7-19 | "aaaa bbb cc -" gives a 4, ' ' 3, b 3, c 2, '-' 1 |
| Samples.EncDataExample | internal/huff/encode_test.go:21-54 | encData of "aaaa bbb cc -" with the test's table gives [255, 106, 73, 64] and 29 bits |
| Samples.CompressExample | internal/huff/encode_test.go:56-68 | Compress("aaaa bbb cc d") gives the test's 22-byte container |
| Samples.CompressInvalidExample | internal/huff/encode_test.go:70-82 | Compress of [255, 254, 253] fails with "invalid UTF-8 encoding" |
| Samples.SerializeNilExample | internal/huff/encode_test.go:84-94 | serializeTree(nil) fails with "node is nil" |
| Samples.EncDataMissingExample | internal/huff/encode_test.go:96-113 | encData with a table lacking a symbol of the input fails with "char not found in prefix table" |
| Samples.DecompressExample | internal/huff/decode_test.go:8-20 | Decompress of the 22-byte container gives "aaaa bbb cc d" |
| Samples.GetEncLookupExample | internal/huff/decode_test.go:22-44 | getEncLookup of the test's table lists its five entries |
| Samples.DecodeExample | internal/huff/decode_test.go:46-81 | decode of [255, 106, 73, 64] with 5 valid bits and the test's lookup gives "aaaa bbb cc …" |
| Samples.SampleTreeBytes | internal/huff/decode_test.go:83-96 | getTreeBytes of the container gives its 14 tree bytes |
| Samples.TreeBytesAfter | internal/huff/decode.go:47-68 | for a header other than 0x1F and tree bytes without 37, getTreeBytes gives those tree bytes |
| Samples.RebuildTree5 | internal/huff/decode_test.go:98-130 | rebuildEncTree of the test's tree bytes gives the tree with leaves d, c, ' ', b, a, 'ê', f, g from left to right, every count 0 |
| Samples.RebuildEncTreeExample | internal/huff/decode_test.go:98-130 | rebuildEncTree of the test's tree bytes, then encodeTree, gives the test's table |
| Samples.SampleEncData | internal/huff/decode_test.go:132-143 | getEncData of the container gives [255, 106, 73, 64] |
| Samples.EncDataAfter | internal/huff/decode.go:70-83 | for a header other than 37, tree bytes without 37 and a non-empty payload, getEncData gives the payload |
| Vectors.ShortInput | internal/huff/decode_test.go:151 | Decompress([0]) fails with "data is too short" |
| Vectors.BadBitLength | internal/huff/decode_test.go:152 | a header byte 0 fails with "invalid bit length" |
| Vectors.NoTreeStart | internal/huff/decode_test.go:153 | no 0x1F fails with "start of tree header not found" |
| Vectors.NoTreeEnd | internal/huff/decode_test.go:154 | no "%%" fails with "end of tree header not found" |
| Vectors.NoEncData | internal/huff/decode_test.go:155 | nothing after "%%" fails with "start of encoded data not found" |
| Vectors.EmptyTreeBytes | internal/huff/decode_test.go:156 | {8,31,37,37,37,37} fails with "tree bytes are empty" |
| Vectors.BadUtf8InTree | internal/huff/decode_test.go:157 | a leaf marker followed by 0xFF fails with "invalid UTF-8 in tree bytes" |
| Vectors.EmptyEncData | internal/huff/decode_test.go:158 | a container ending in "%%" fails with "start of encoded data not found" |
| Vectors.PercentCounterexample | internal/huff/decode.go:57 | Compress may return [3,31,0,1,'a',1,'%','%','%',0x60] for "a%%", and Decompress of it fails with "index out of range after leaf indicator" |

## Left out

- cmd/app/main.go, internal/readwrite/readwrite.go, cmd/app/test/compare_files_test.go and internal/huff/helper.go are not part of this model. They hold the command line, file I/O, file comparison and debug printers.
- container/heap: its sift-up and sift-down are not modelled. `HeapPop` removes a minimal element under `Less`, and which of several tied elements comes out is left open.
- The `Code` field that `encodeTree` writes into each node: no output depends on it.
- "failed to build tree" (huff.go:84-86): `heap.Pop` on a queue of one node never returns nil, so the model has no such error.
- "slice bounds out of range" (decode.go:63-65): the branch is modelled in `GetTreeBytes`, and its ensures show that no input reaches it: every error it returns is one of the two missing-marker errors.
- `Decode.Decode`: the source's error result is always nil, so the method returns only the bytes.
- `WriteRune` and `buff.WriteRune`'s error return: writing to a `bytes.Buffer` does not fail, so the error is not modelled.
- RoundTrip.RoundTrip: requires the rightmost leaf not to be '%'; without this the source does not round-trip (see `Vectors.PercentCounterexample`).
- RoundTrip.CompressDecompress: requires that the input contain no '%' byte, which is stronger than needed but implies the rightmost-leaf condition.
- Huff.BuildTree: counts are unbounded integers, so the model assumes they sum below 2^63, where Go's `left.Count + right.Count` (huff.go:74) would wrap. `Compress` guarantees this, because its counts are bounded by the input length.
- Rune is an unbounded integer where Go's rune is 32 bits wide. This is harmless: `Runes` yields only scalar values up to 0x10FFFF, and every rune of a rebuilt tree comes from `DecodeRune`.
- `currentByte` is a `byte` as in the source. Its `|=` is `Or`, Go's bitwise OR written out one bit at a time on non-negative integers.
- nil nodes: `Node` has no nil case. So the no-op returns of `encodeTree` and `traverseTree` for a nil node (huff.go:95-97, huff.go:117-119) are not modelled, and neither is a node with one child missing. The trees `buildTree` and `rebuildEncSubTrees` produce always have both children or none. The nil root of `serializeTree` is modelled as `None`.
