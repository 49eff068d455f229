# Static Huffman codec — a verified Dafny model

This project models a small family of C programs that compress with a
static Huffman code:

- `dhunju.c` and `huffman11.c` compress a file and decompress it. They use
  a `BitWriter`/`BitReader` struct for the bits.
- `latest.c` is the same codec with a global 8-character `bitBuffer`, a
  pointer-argument `readBit`, and command-line path handling:
  `trimWhitespace`, `trimQuotes`, and the `.huf`/`_restored` naming rule.
- `dsa_project.c` is an in-memory codec. It reads one line of text, encodes
  it as a string of '0'/'1' characters, reports the bit counts and decodes
  the string again.

All four build the Huffman tree the same way:

1. Count the bytes.
2. List the values that occur, in ascending order.
3. Put one leaf per value into an array-backed min-heap.
4. Repeatedly extract the two lightest nodes and insert their parent, until
   one node is left.
5. Walk the tree depth-first to give every byte the string of its
   root-to-leaf path.

The compressed file holds these parts, in order:

- the total byte count (4 bytes, little-endian);
- the number of table entries (2 bytes);
- one record per entry: the byte, then its 4-byte count;
- the code bits of the input, packed most significant bit first, with the
  last byte padded with zeros.

Decompression reads the header back, rebuilds the same tree, and walks it
bit by bit. It stops after `totalChars` bytes, or when the bits run out.

The model keeps the programs' imperative shape:

- The heap is a class over an array, updated in place.
- `generateCodes` fills an array of 256 code entries through a shared path
  buffer.
- The bit writers and the bit reader are classes whose fields change bit by
  bit.
- The counting, table, encoding and decoding loops are `while` loops with
  invariants.

Each method is proved equal to a specification function. The properties
are proved as lemmas about those functions:

- The heap keeps its order and its multiset.
- The tree is full and holds exactly the listed bytes, and its root weight
  is the input length.
- The codes are prefix-free.
- Packing bits and unpacking them gives the bits back, plus padding.
- The header reads back exactly what was written.
- Any input with two or more distinct byte values decompresses to itself.

Modules, one per file:

| file | module | what it holds |
|---|---|---|
| `types.dfy` | `Types` | bytes, bits, the tree `Node`, table `Entry`, tree measures |
| `heap_spec.dfy` | `HeapSpec` | the heap operations as functions on sequences, heap-order and multiset lemmas |
| `heap.dfy` | `Heap` | `class MinHeap` over `array<Node>`: `minHeapify`, `extractMin`, `insertMinHeap`, `buildMinHeap` |
| `huffman_tree.dfy` | `HuffmanTree` | the merge loop as a function and as methods on `MinHeap`, tree lemmas |
| `codes.dfy` | `Codes` | `generateCodes` on arrays, the code table, prefix-freeness, the code bits of an input |
| `bitio.dfy` | `BitIO` | `BitWriter`, the global `bitBuffer` writer, `BitReader`, packing and unpacking lemmas |
| `frequency.dfy` | `Frequency` | the counting loop and the ascending unique list |
| `container.dfy` | `Container` | header layout, `compressFile`/`decompressFile` as functions and methods, the round trip |
| `text_codec.dfy` | `TextCodec` | `encode`, `decode` and `main` of the in-memory codec |
| `paths.dfy` | `PathName` | `trimWhitespace`, `trimQuotes` on a `char` buffer, and the output-name rule |

## Model

| member | source | states |
|---|---|---|
| Types.ByteOf | dhunju.c:263-269 | the `(unsigned char)i` of the unique-list loop is the byte whose value is `i`, for every `i` in 0..255 |
| HeapSpec.Swap | dhunju.c:41-45 | `swapNode` exchanges the two slots, leaves every other slot alone and keeps the multiset of nodes |
| HeapSpec.CDiv2 | dhunju.c:75-84 | C's `(i - 1) / 2` and `(n - 1) / 2` truncate toward zero: the remainder has the sign of the dividend and is below 2 in size, so `(0 - 1) / 2` is 0 |
| HeapSpec.Smallest | dhunju.c:48-56 | the index `minHeapify` picks is `idx` when no child is strictly lighter; otherwise it is a child strictly lighter than `idx` and no heavier than its sibling |
| HeapSpec.Heapify | dhunju.c:47-62 | sifting down keeps the length and the multiset of nodes |
| HeapSpec.HeapifyRestores | dhunju.c:47-62 | when only `idx` may break the heap order below `lo`, sifting it down makes the array a min-heap from `lo` |
| HeapSpec.RemoveMin | dhunju.c:64-70 | `extractMin` leaves one node fewer, and the multiset loses exactly the old root |
| HeapSpec.RootIsMinimumAll | dhunju.c:64-65 | in a min-heap the root is no heavier than any node |
| HeapSpec.ExtractMinCorrect | dhunju.c:64-70 | on a min-heap, the extracted root is a minimum, what remains is a min-heap, and its multiset is the old one minus the root |
| HeapSpec.SiftUp | dhunju.c:74-79 | the `insertMinHeap` loop keeps the length, and its multiset is the heap with the new node in the hole |
| HeapSpec.SiftUpRestores | dhunju.c:74-79 | when the heap order holds everywhere except at the hole, moving heavier parents down and placing the node gives a min-heap |
| HeapSpec.Insert | dhunju.c:72-80 | inserting adds one slot and exactly the new node to the multiset |
| HeapSpec.InsertKeepsHeap | dhunju.c:72-80 | inserting into a min-heap gives a min-heap |
| HeapSpec.InsertTieStays | dhunju.c:75 | the comparison is strict: a node no lighter than the parent of the new slot stays in the last slot |
| HeapSpec.BuildFrom | dhunju.c:84-85 | the `buildMinHeap` loop from `i` down keeps the length and the multiset |
| HeapSpec.BuildFromRestores | dhunju.c:84-85 | when the array is a min-heap from `i + 1`, the rest of the loop makes the whole array a min-heap |
| HeapSpec.BuildHeap | dhunju.c:82-86 | `buildMinHeap` keeps the length and the multiset |
| HeapSpec.BuildHeapIsHeap | dhunju.c:82-86 | `buildMinHeap` yields a min-heap for every array, including size 1, where C's `(n - 1) / 2` truncates to 0 |
| Heap.MinHeap.constructor | dhunju.c:33-39 | `createMinHeap` gives an empty heap with `capacity` slots |
| Heap.MinHeap.MinHeapify | dhunju.c:47-62 | the live prefix of the array becomes `Heapify` of the old prefix |
| Heap.MinHeap.ExtractMin | dhunju.c:64-70 | returns the old root; the live prefix becomes `RemoveMin` of the old one |
| Heap.MinHeap.InsertMinHeap | dhunju.c:72-80 | with a free slot, the live prefix becomes `Insert` of the old one and the node |
| Heap.MinHeap.BuildMinHeap | dhunju.c:82-86 | the live prefix becomes `BuildHeap` of the old one |
| Heap.MinHeap.IsSizeOne | dsa_project.c:66-68 | on a nonempty heap, `isSizeOne` is false exactly when two nodes can be extracted, which is what the merge loop needs |
| Heap.SiftUpInPlace | dhunju.c:74-79 | the in-place loop of `insertMinHeap` leaves the array prefix equal to `SiftUp` of the old prefix |
| Heap.SiftDownInPlace | dhunju.c:47-62 | the in-place recursion of `minHeapify` leaves the array prefix equal to `Heapify` of the old prefix |
| HuffmanTree.Entries | dhunju.c:95-96 | `data[i]` and `freq[i]` pair up into the `i`-th table entry |
| HuffmanTree.LeafNodes | dhunju.c:95-96 | `createNode(data[i], freq[i])` gives one leaf per entry, in order |
| HuffmanTree.Merge | dhunju.c:104-106 | the parent `createNode('$', left->freq + right->freq)` holds the leaves and bytes of both children, adds one internal node, and is well-formed exactly when both children are |
| HuffmanTree.MergeStep | dhunju.c:101-108 | one round of the merge loop leaves one node fewer |
| HuffmanTree.MergeStepTakesMinima | dhunju.c:101-102 | the two nodes extracted in a round are the lightest node and the lightest of the rest |
| HuffmanTree.MergeStepKeeps | dhunju.c:100-109 | a round keeps the leaves, the bytes and the total weight, and every parent weighs the sum of its children |
| HuffmanTree.MergeStepKeepsHeap | dhunju.c:100-109 | a round leaves a min-heap |
| HuffmanTree.MergeAll | dhunju.c:100-110 | the loop `while (size != 1)` and the final `extractMin` end in an internal node whenever the heap started with two or more nodes |
| HuffmanTree.LastMergeIsInternal | dhunju.c:101-108 | the round that leaves a single node leaves the parent it just made |
| HuffmanTree.MergeAllKeeps | dhunju.c:100-110 | the last node holds every leaf of the heap, and its weight is the heap's total |
| HuffmanTree.InternalCountIsLeavesMinusOne | dhunju.c:104-106 | a tree built from pairs has one internal node fewer than leaves |
| HuffmanTree.HeightBelowLeafCount | dhunju.c:104-106 | such a tree is shallower than its number of leaves |
| HuffmanTree.Build | dhunju.c:92-114 | the tree `buildHuffmanTree` returns is the entry's own leaf for one entry, and an internal node for two or more |
| HuffmanTree.BuildCorrect | dhunju.c:92-114 | for N ≥ 1 entries, the tree's leaves are exactly the entries' leaves, it is full with parent weight = sum of children, its root weight is the total count, it has N − 1 internal nodes and height < N, and for an ascending list every byte is at one leaf only |
| HuffmanTree.CreateAndBuildMinHeap | dsa_project.c:104-111 | the heap holds `buildMinHeap` of the leaves of the `size` entries |
| HuffmanTree.MergeLightestTwo | dhunju.c:101-108 | one round on the heap object makes its live prefix `MergeStep` of the old one |
| HuffmanTree.MergeUntilOne | dhunju.c:100-110 | the loop and the final `extractMin` return `MergeAll` of the heap |
| HuffmanTree.BuildHuffmanTree | dhunju.c:92-114 | `buildHuffmanTree(data, freq, size)` returns `Build` of the `size` entries |
| Codes.Digits | dhunju.c:179-181 | a code string has one character per path bit: '0' for 0, '1' for 1 |
| Codes.PathTo | dhunju.c:168-184 | the path `generateCodes` records for a byte, right subtree first, is no longer than the tree is high, and has at least one bit below an internal node |
| Codes.Fill | dhunju.c:168-184 | the walk leaves a 256-entry table; `FillIsPath` says what each entry holds |
| Codes.CodeTable | dhunju.c:277-280 | resetting to NULL and walking from the root gives a 256-entry table |
| Codes.GenerateCodes | dhunju.c:168-184 | `generateCodes(root, arr, top)` restores `arr[0..top)` and leaves the table equal to `Fill` of the path so far |
| Codes.AssignCodes | dhunju.c:275-280 | with a path buffer at least as long as the tree is high, the fresh table equals `CodeTable(root)` |
| Codes.PathExists | dhunju.c:177-183 | a byte has a path exactly when the tree holds it |
| Codes.FillIsPath | dhunju.c:168-184 | after the walk, a byte's entry is the code of its path when the tree holds it, and is untouched otherwise |
| Codes.CodeTableIsPaths | dhunju.c:168-184 | every byte of the tree gets the string of its root-to-leaf path; every other entry stays NULL |
| Codes.SingleLeafEmptyCode | huffman11.c:129-134 | a single-leaf tree gives its byte the empty code and no other byte a code |
| Codes.PathNotExtended | dhunju.c:168-184 | no leaf's path extends another leaf's path |
| Codes.CodesPrefixFree | dhunju.c:168-184 | no byte's code is a prefix of, or equal to, another byte's code |
| Codes.PathLength | dhunju.c:168-184 | every code is no longer than the tree is high, and has at least one bit when the root is internal |
| Codes.EncodeSnoc | dhunju.c:307-312 | encoding one more byte appends exactly its code bits |
| Codes.EncodeBits | dhunju.c:305-312 | the code bits the data loop writes: the codes of the input bytes in order; `EncodeSnoc`, `EncodeSingleLeaf` and `EncodeAtLeastOneBit` state its properties |
| Codes.EncodeAtLeastOneBit | dhunju.c:305-312 | with an internal root, every input byte adds at least one bit |
| Codes.EncodeSingleLeaf | huffman11.c:246-256 | with a single-leaf tree no code bits are written |
| BitIO.ByteBits | dhunju.c:235 | the eight bits of a byte, most significant first, as `readBit` delivers them |
| BitIO.UnpackBits | dhunju.c:228-238 | a byte string yields eight bits per byte |
| BitIO.PackBits | dhunju.c:200-214 | the bytes `writeBit` and `flushBitWriter` emit for a bit string: eight bits per byte, most significant first, the last byte zero-padded; `UnpackPack` states its length and its inverse |
| BitIO.SetBit | dhunju.c:201 | `buffer \|= 1 << (7 - bitCount)` sets exactly bit `bitCount`, counted from the most significant |
| BitIO.ShiftIn | latest.c:197 | `(byte << 1) \| d` drops the first bit and appends `d` |
| BitIO.ShiftLeft | latest.c:210 | `byte <<= s` moves the bits up by `s` and fills with zeros |
| BitIO.UnpackInjective | dhunju.c:228-238 | different byte strings unpack to different bit strings |
| BitIO.UnpackPack | dhunju.c:200-214 | packing then unpacking gives the bits followed by 0–7 zero pad bits, in ⌈n/8⌉ bytes |
| BitIO.ReadBack | huffman11.c:180-190 | bit `k` read back from the packed bytes is bit `k` written, or a zero pad bit past the end |
| BitIO.BitWriter.constructor | dhunju.c:194-198 | `initBitWriter` starts with no bits, no output, an empty buffer and `bitCount == 0` |
| BitIO.BitWriter.WriteBit | dhunju.c:200-208 | `writeBit` appends one bit (nonzero means 1); the 8th bit emits one byte and resets the buffer and `bitCount` to 0; otherwise `bitCount` grows by one |
| BitIO.BitWriter.Flush | dhunju.c:210-214 | `flushBitWriter` emits the buffer exactly when `bitCount > 0`; the output is then the packed form of every bit written |
| BitIO.GlobalBitBuffer.constructor | latest.c:189-190 | the global `bitBuffer[8]` with `bitIndex == 0` |
| BitIO.GlobalBitBuffer.ResetIndex | latest.c:280 | `bitIndex = 0` starts a fresh empty buffer |
| BitIO.GlobalBitBuffer.WriteBit | latest.c:192-202 | the global `writeBit` appends one bit; at the 8th it emits the byte and resets `bitIndex` to 0 |
| BitIO.GlobalBitBuffer.FlushBits | latest.c:204-214 | `flushBits` packs the `bitIndex < 8` pending bits into the high bits, resets `bitIndex`, and leaves the output equal to the packed bits |
| BitIO.PackDigits | latest.c:195-198 | folding `n` '0'/'1' characters into a byte puts them in the low `n` bits, in order, most significant first |
| BitIO.BitReader.constructor | dhunju.c:222-226 | `initBitReader` starts with `bitCount == 8` and nothing delivered |
| BitIO.BitReader.ReadBit | latest.c:216-226 | `readBit` returns −1 exactly when every bit of the input was delivered; otherwise it returns the next unpacked bit and leaves `bitCount`/`bitPos` in 1..8 |
| Frequency.Occurrences | dhunju.c:249-252 | a count never exceeds the input length |
| Frequency.Frequencies | dhunju.c:246-252 | 256 counters, counter `v` holding the number of bytes of value `v` |
| Frequency.CountFrequencies | dhunju.c:246-252 | the counting loop leaves `freq` equal to `Frequencies(input)` and `totalChars` equal to the input length |
| Frequency.CountStep | dhunju.c:250 | one more byte adds one to its own counter and leaves the others alone |
| Frequency.FrequenciesSnoc | dhunju.c:250 | the same step on the 256 counters |
| Frequency.FrequenciesSum | dhunju.c:249-252 | the counters add up to the input length |
| Frequency.UniqueUpTo | dhunju.c:263-269 | after looking at `n` values the list has at most `n` entries |
| Frequency.UniqueList | dhunju.c:260-269 | the unique-list loop leaves `uniqueChars[0..size)`/`uniqueFreqs[0..size)` equal to the list of nonzero counters in ascending order |
| Frequency.InputEntries | dhunju.c:246-269 | the counting and listing steps give at most 256 entries whose counts total the input length, and at least one for nonempty input |
| Frequency.UniqueTotal | dhunju.c:263-269 | the listed counts add up to the counters' total |
| Frequency.UniqueSound | dhunju.c:263-269 | every listed entry has a nonzero counter and carries it |
| Frequency.UniqueAscending | dhunju.c:263-269 | the list is strictly ascending by byte value |
| Frequency.UniqueComplete | dhunju.c:263-269 | every value with a nonzero counter is listed |
| Frequency.OccursIn | dhunju.c:249-252 | a counter is nonzero exactly when the byte occurs |
| Frequency.UniqueOfInput | dsa_project.c:201-215 | the list of an input is ascending, its counts are the occurrences, it holds exactly the input's bytes, its total is the input length, and it is nonempty for nonempty input |
| Frequency.TwoDistinctBytes | dhunju.c:263-269 | two different bytes in the input give at least two entries |
| Container.LittleEndian | dhunju.c:290 | `fwrite` of an `n`-byte unsigned field yields `n` bytes |
| Container.FromLittleEndian | dhunju.c:343 | the value `fread` gets from a field is below 256^n |
| Container.ReadWritten | dhunju.c:290-293 | reading a written field gives the value back |
| Container.WrittenRead | dhunju.c:343-350 | writing a read field gives the bytes back |
| Container.EntryBytes | dhunju.c:295-301 | the frequency table takes five bytes per entry |
| Container.EntryBytesAt | dhunju.c:297-299 | record `k` is the byte, then its count as four little-endian bytes |
| Container.EntryBytesSnoc | dhunju.c:295-301 | writing one more record appends its five bytes |
| Container.Header | dhunju.c:288-301 | the header takes `6 + 5·N` bytes |
| Container.ParseEntries | dhunju.c:356-361 | reading `N` records gives `N` entries |
| Container.ParseEntryBytes | dhunju.c:356-361 | reading the records back gives the written table |
| Container.ReadHeader | dhunju.c:342-361 | reading a written header gives the total, the entry count, the table and the payload back |
| Container.Walk | dhunju.c:373-385 | the decode loop emits at most `totalChars` bytes |
| Container.WalkPath | dhunju.c:377-384 | following the path of a byte from an internal node emits that byte and returns to the root |
| Container.WalkEncoded | dhunju.c:373-385 | with an internal root, the decode loop reads back every encoded byte whatever pad bits follow |
| Container.WalkEmitsLeaves | dhunju.c:380-381 | every byte emitted is a byte of the tree |
| Container.CompressibleInput | dhunju.c:254-280 | a nonempty input below 2^32 bytes lists 1 to 256 entries, their counts fit `uint32_t`, its tree fits `arr[MAX_TREE_HT]`, and every input byte has a code |
| Container.Compress | dhunju.c:242-313 | `compressFile` writes nothing exactly for empty input; otherwise its file holds at least the header |
| Container.TotalField | dhunju.c:342-343 | the `totalChars` field is below 2^32 |
| Container.CountField | dhunju.c:349-350 | the `uniqueCount` field is below 2^16 |
| Container.TableOf | dhunju.c:356-361 | the table read has `uniqueCount` entries |
| Container.Decodable | dhunju.c:338-363 | the files `decompressFile` is modelled on; every file shorter than its two count fields is among them, its read errors being modelled |
| Container.TreeFitsPayload | dhunju.c:363-378 | for a decodable file, the rebuilt tree can follow the payload |
| Container.Decompress | dhunju.c:338-393 | `decompressFile` fails exactly on a file shorter than its two count fields; otherwise `decodedCount` is the number of bytes written, at most `totalChars` |
| Container.DecodedFromTable | dhunju.c:363-385 | every decoded byte is a byte of the file's table |
| Container.RoundTrip | dhunju.c:242-393 | for input below 2^32 bytes with two different byte values, decompressing the compressed file gives the input back with `decodedCount == totalChars` |
| Container.CompressedFields | dhunju.c:288-301 | the header of a compressed file holds the input length, the number of entries, and a table whose counts total the input length |
| Container.CompressedIsDecodable | dhunju.c:242-363 | every file `compressFile` writes for a nonempty input is one `decompressFile` can read |
| Container.OneEntry | dhunju.c:263-269 | an input of one repeated byte has a single entry, for that byte |
| Container.SingleSymbolLost | huffman11.c:194-321 | an input of one repeated byte compresses to a header with no payload, which decompresses to nothing with a count mismatch |
| Container.DecodePayload | dhunju.c:368-385 | the `BitReader` decode loop emits `Walk` of the unpacked payload, and `decodedCount` is the number of bytes emitted |
| Container.DecompressFile | dhunju.c:338-393 | `decompressFile` on the file's bytes gives `Decompress(file)` |
| Container.ReadTable | dhunju.c:356-361 | the `fread` loop pairs up into the parsed table |
| Container.WriteHeader | dhunju.c:288-301 | the `fwrite` calls emit the total, the entry count and one record per nonzero counter, ascending; the counts fit |
| Container.DigitValue | dhunju.c:310 | `code[i] - '0'` is the bit the code character stands for |
| Container.WriteCode | dhunju.c:309-311 | writing a code string appends exactly its path bits |
| Container.EncodeWithWriter | dhunju.c:303-313 | the data loop with a `BitWriter` emits the packed code bits of the input |
| Container.WriteCodeGlobal | latest.c:283-285 | the inner loop with the global `writeBit` appends the code's bits |
| Container.EncodeWithGlobalBuffer | latest.c:279-287 | the data loop with the global buffer emits the packed code bits of the input and leaves `bitIndex == 0` |
| Container.PrepareHeader | huffman11.c:212-244 | the unique list, tree, code table and header are those of the input, and every input byte has a code |
| Container.CompressFile | huffman11.c:194-256 | `compressFile` with a `BitWriter` produces `Compress(input)` |
| Container.CompressFileGlobal | latest.c:228-287 | `compressFile` with the global bit buffer produces the same file, `Compress(input)` |
| TextCodec.LineText | dsa_project.c:190-195 | the text is the longest prefix of the line with no newline or NUL |
| TextCodec.Encode | dsa_project.c:163-168 | `encode` joins the codes of the text into the code string of its path bits |
| TextCodec.LeafEncodesEmpty | dsa_project.c:145-151 | with a single-leaf tree every code is empty, so nothing is encoded |
| TextCodec.WalkText | dsa_project.c:170-185 | the decode walk emits at most one byte per character |
| TextCodec.Decode | dsa_project.c:170-185 | `decode` prints `WalkText` of the string: '0' goes left, any other character goes right, each leaf reached is printed and the walk restarts at the root |
| TextCodec.WalkTextPath | dsa_project.c:173-182 | following a byte's code string from an internal node prints that byte and returns to the root |
| TextCodec.WalkTextEncoded | dsa_project.c:163-185 | with an internal root, decoding the encoded string gives the text back |
| TextCodec.EncodedLength | dsa_project.c:163-168 | the number of code bits is the sum over byte values of count × code length |
| TextCodec.TextTree | dsa_project.c:201-217 | the tree of a nonempty text weighs the text's length and holds exactly the text's bytes |
| TextCodec.TextCodec | dsa_project.c:195-237 | empty text gives "Empty input."; otherwise `originalBits = 8·n` and `compressedBits` is the length of the encoded string |
| TextCodec.TextRun | dsa_project.c:190 | a failed `fgets` ends the run with nothing printed |
| TextCodec.BuildTextTree | dsa_project.c:201-217 | the counting loop, the unique list and `buildHuffmanTree` of `main` return `TextTree(text)` |
| TextCodec.CodeAndReport | dsa_project.c:219-237 | the code table, `encode`, the bit counts and `decode` of `main` give `TextCodec(text)` |
| TextCodec.TextCodecMain | dsa_project.c:187-237 | `main` on the line read computes `TextRun(line)` |
| TextCodec.TextRoundTrip | dsa_project.c:226-237 | a text with two different bytes is decoded to itself |
| TextCodec.TextSingleSymbol | dsa_project.c:145-151 | a text of one repeated byte encodes to the empty string and decodes to nothing |
| TextCodec.TextCompressedBits | dsa_project.c:230-231 | `compressedBits` is the frequency-weighted sum of the code lengths, and the encoded string holds only '0' and '1' |
| PathName.FirstNul | latest.c:38 | `strlen` is the index of the first terminator: no terminator comes before it |
| PathName.IsSpace | latest.c:21-27 | the whitespace test of `trimWhitespace`: space or a character from 9 to 13 |
| PathName.IsSpaceIsCIsspace | latest.c:21-27 | the test accepts exactly the six characters `isspace` accepts in the "C" locale: space, tab, newline, vertical tab, form feed and carriage return |
| PathName.CString | latest.c:38 | a buffer's string is the prefix before its first terminator |
| PathName.MemMove | latest.c:31 | `memmove` to the front copies `count` characters and leaves the rest of the buffer alone |
| PathName.TrailEnd | latest.c:21-24 | the first loop stops at the shortest length after which only whitespace follows |
| PathName.LeadCount | latest.c:26-29 | the second loop counts exactly the leading whitespace |
| PathName.Trim | latest.c:20-34 | the trimmed string is no longer and has no whitespace at either end |
| PathName.TrimInterior | latest.c:20-34 | the original is whitespace, then the trimmed string unchanged, then whitespace |
| PathName.TrimIdempotent | latest.c:20-34 | trimming twice is trimming once |
| PathName.TrimWhitespace | latest.c:20-34 | `trimWhitespace(str, &len)` leaves the trimmed string in `str[0..len)`, terminated, with `len` its new length |
| PathName.DropNewline | latest.c:40-43 | dropping the newline never lengthens the string |
| PathName.DropAmpersand | latest.c:47-51 | dropping a leading '&' never lengthens the string and keeps it trimmed |
| PathName.DropQuotes | latest.c:53-60 | dropping a quote pair never lengthens the string and keeps it trimmed |
| PathName.StripNewline | latest.c:40-45 | the newline step then `trimWhitespace` leaves the trimmed string, terminated |
| PathName.StripAmpersand | latest.c:47-51 | the '&' step leaves `DropAmpersand` of the string, terminated |
| PathName.StripQuotes | latest.c:53-60 | the quote step leaves `DropQuotes` of the string, terminated |
| PathName.CleanPath | latest.c:36-61 | the path `trimQuotes` leaves is never longer than the original and is its own trimmed form |
| PathName.TrimQuotes | latest.c:36-61 | `trimQuotes` does nothing to NULL; otherwise the buffer's string becomes its cleaned form |
| PathName.QuotedPath | latest.c:53-59 | a path between matching double or single quotes comes out unquoted and trimmed |
| PathName.MismatchedQuoteKept | latest.c:54 | a leading '"' without a closing '"' is kept |
| PathName.LastIndexOf | latest.c:397 | `strrchr` finds the last occurrence, with no occurrence after it, or reports none exactly when there is none |
| PathName.IsHufName | latest.c:397-399 | a name taken as compressed ends in a four-character extension starting with '.' |
| PathName.ActionFor | latest.c:399-411 | the action keeps the input path |
| PathName.HufNameIsSuffix | latest.c:397-399 | the `strrchr`/`strcmp` test holds exactly when the name ends in ".huf" or ".HUF" |
| PathName.ActionBySuffix | latest.c:399-411 | a ".huf"/".HUF" name decompresses to name + "_restored"; any other name compresses to name + ".huf" |
| PathName.CompressedNameIsHuf | latest.c:407 | the file written by compression is recognised for decompression |
| PathName.RestoredNameIsNotHuf | latest.c:402 | the file written by decompression is not taken for a compressed one |
| PathName.CommandLine | latest.c:391-411 | `main` with an argument copies it, cleans it with `trimQuotes`, and chooses the action by the cleaned name |

## Left out

- Console interaction is not modelled:
  - the menus of every `main`, `scanf`/`getchar` and `clearInputBuffer`;
  - `confirmAction` and the keep-or-delete prompt of `latest.c` (303-314);
  - the interactive path prompt of `latest.c` `main` (417 on);
  - the printouts `printFrequencies`, `printHuffmanCodes` and `printTable`, and the status messages.
- Files are not modelled. The model takes the input's bytes and returns the output's bytes. Failures of `fopen`, `rewind`, `ftell`, `fseek` and `fclose` are out.
- Floating-point figures are out: the compression ratio and space-saved percentages.
- Memory management is out: `malloc`, `free` and `freeTree`. Trees are values.
- The '$' data of internal nodes is never read, so an internal node carries no byte.
- `fwrite`/`fread` of `uint32_t` and `uint16_t` use the host's byte order. The model fixes it as little-endian.
- Counts and node weights are unbounded naturals, where the C code uses `uint32_t` (dhunju.c:12, 25 and 104; latest.c:150). A count, `totalChars` or a merged node's weight would wrap once the counts total 2^32 or more.
  - A compressed input cannot reach this, since its counts total its length, which the compressing members require to be below 2^32.
  - A hand-made file can, and `Decodable` excludes it.
  - The `(uint16_t)size` cast never truncates, because the list has at most 256 entries (`CompressibleInput`).
- Container.Compress, Container.CompressFile, Container.CompressFileGlobal: require fewer than 2^32 input bytes instead of modelling `uint32_t` wrap-around.
- Container.DecompressFile: requires `Decodable(file)`, and so does `Container.Decompress`. That excludes the files on which the C code reads uninitialised memory, follows a NULL child, or builds its tree from wrapped weights:
  - a unique count of 0 or above 256;
  - a table cut short, where `fread` leaves entries unset;
  - a table whose counts total 2^32 or more, where the `uint32_t` weight of a merged node wraps and the heap order, and so the tree, differs from the model's;
  - a one-entry table followed by payload bits.
  Files shorter than the two count fields are modelled; they are the two header errors. Every file `compressFile` writes is decodable (`CompressedIsDecodable`).
- HuffmanTree.BuildHuffmanTree: requires the entries' counts to total below 2^32, because the model's weights do not wrap as the `uint32_t` sums at dhunju.c:104 do.
- A single repeated byte value is not given a fallback code. As written, it compresses to an empty payload and decompresses to nothing with a count-mismatch warning; `SingleSymbolLost` and `TextSingleSymbol` state this.
- TextCodec.TextCodecMain: requires the tree to fit `arr[100]` and the code string to fit `encodedText[10000]`. It does not derive these bounds from the 999-byte line limit.
- PathName.CommandLine: requires the argument to fit `inputPath[512]`. The `sprintf` into `outputPath[512]` is not bounds-checked.
- Reading bits:
  - The pointer-argument `readBit(in, &bitPos, &currentByte)` of `latest.c` (216-226) has the same state and steps as `BitReader`, so `BitReader` models both.
  - The pointer-argument `decompressFile` of `latest.c` (323-376) is modelled by the same `DecompressFile`.
- The heap's `capacity` is the array length. `InsertMinHeap` requires a free slot; the merge loop always has one after its two extractions.
