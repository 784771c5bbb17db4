# FunC file-processing core in Dafny

This project models the transformations of the FunC command-line utility
and proves properties of them:

- the Huffman codec of `src/compress.c`;
- the run-length codec of `compress.c`;
- line splitting, bubble sort and joining from `src/sort.c`;
- keyword search from `src/search.c`;
- the command-line parser of `src/cli.c`;
- the XOR and Caesar ciphers of `encrypt.c` (`src/encrypt.c` holds the same XOR code).

Each C function that loops or updates memory becomes a Dafny `method` with
those loops. It is proved equal to a specification function. The one
exception is the recursive code generator `generate_codes_recursive` and its
wrapper `get_huffman_codes` (src/compress.c:209-252). They fill the path
buffer `arr` and prepend entries to `*codes_head`. The model states the list
they build as the pure functions `HuffmanCodes.Codes` and
`HuffmanCodes.CodeTable`, and has no method for them. The properties
the code promises are lemmas about those functions. The main ones:

- Huffman round trip.
- Prefix-free codes.
- The decoder rebuilds exactly the encoder's tree.
- RLE round trip and size bound.
- Split/join round trip.
- Sorting yields a sorted permutation.
- Search is sound, complete and ordered.
- Cipher round trips.
- Which option combinations the parser accepts.

Bytes are a `byte` newtype (0..255).

A C pointer that may be NULL becomes `Option`. A function that returns
NULL for several reasons returns a `Result` whose error type names those
reasons (`HuffmanError`, `CliError`).

Fixed-width arithmetic is written out where it can matter:

- `unsigned` sums wrap modulo 2^32;
- `size_t` wraps modulo 2^64 in the sort bound;
- the Caesar shift is a 32-bit `int` with C's truncating `%`.

Modules: `Wrappers`, `Bytes`, `BitStream`, `HuffmanTree`, `MinHeap`,
`HuffmanBuild`, `HuffmanCodes`, `HuffmanHeader`, `HuffmanCodec`,
`HuffmanFixed`, `Rle`, `Text`, `LineSort`, `Search`, `XorCipher`,
`Caesar`, `Cli`.

## Model

| member | source | states |
|---|---|---|
| BitStream.PackUnpack | src/compress.c:385-424 | Packing code bits eight to a byte, most significant first, takes ceil(n/8) bytes. Reading those bytes back bit by bit gives the bits followed by fewer than eight zero padding bits. |
| BitStream.ShrBit | src/compress.c:542 | `(byte >> bit) & 1` is bit `7 - bit` of the byte's most-significant-first bit string. |
| Bytes.XorInvolutive | encrypt.c:26 | XOR with the same key byte twice gives the byte back. |
| Bytes.LittleEndianRoundTrip | src/compress.c:377-381 | Writing a value that fits in n bytes and reading it back gives the value. |
| HuffmanTree.MergeWeight | src/compress.c:175 | The sum of two `unsigned` frequencies is below 2^32, and it is the true sum when that fits. |
| HuffmanTree.Merge | src/compress.c:175-185 | The new internal node has the first extracted minimum as left child and the second as right child. Its weight is their sum when that does not wrap. |
| HuffmanTree.Child | src/compress.c:542-548 | A bit leads to a child exactly when the current node is internal: 0 goes left, 1 goes right. |
| MinHeap.SiftUpHeap | src/compress.c:115-118 | Sifting up the one node that may be lighter than its parent restores the heap order. |
| MinHeap.SiftDownHeap | src/compress.c:59-74 | Sifting down the one node that may be heavier than its children restores the heap order. |
| MinHeap.HeapInsertKeepsHeap | src/compress.c:93-119 | Inserting into a heap leaves a heap. |
| MinHeap.HeapExtractKeepsHeap | src/compress.c:80-90 | Removing the root of a heap leaves a heap. |
| MinHeap.HeapExtractIsMin | src/compress.c:80-90 | The node `extract_min` returns weighs no more than any node in the heap. |
| MinHeap.Heap.constructor | src/compress.c:36-51 | `create_min_heap`: an empty heap whose array has room for `capacity` nodes. |
| MinHeap.Heap.Insert | src/compress.c:93-119 | A heap that is not full gains the node and sifts it up; a full heap is left unchanged. |
| MinHeap.Heap.SwapWithParent | src/compress.c:115-118 | One step of the insertion loop: the node swaps with its parent, and the rest of the sift-up result is unchanged. |
| MinHeap.Heap.SiftUpFrom | src/compress.c:115-118 | The insertion loop leaves the array as the sift-up of its old contents from slot i. |
| MinHeap.SmallestIsLightest | src/compress.c:60-68 | The index `min_heapify` picks is the lightest of the node and its children. When it is a child, that child is strictly lighter than the node. |
| MinHeap.Heap.MinHeapify | src/compress.c:59-74 | The array becomes the sift-down of its old contents from `idx`. |
| MinHeap.Heap.ExtractMin | src/compress.c:80-90 | Returns the root. The last node moves to the root, the size drops by one, and the heap is sifted down. |
| HuffmanBuild.SeedHeapFacts | src/compress.c:128-144 | The seeded heap holds exactly one leaf per nonzero count, as many as `unique_chars_count`, and is in heap order. |
| HuffmanBuild.MergeStep | src/compress.c:152-192 | One round of the tree-building loop shrinks the heap by one node. |
| HuffmanBuild.HuffmanTreeShape | src/compress.c:121-203 | The built tree has one leaf per byte with a nonzero count and none for any other byte. It has k - 1 internal nodes for k leaves, and is an internal node exactly when k >= 2. When the counts fit, every internal node weighs the sum of its children and the root weighs the total. |
| HuffmanBuild.BuildAndCreateMinHeap | src/compress.c:121-146 | `frequencies[b]` is the number of occurrences of b. The new heap, of capacity 256, holds the seeded leaves. |
| HuffmanBuild.InsertLeaves | src/compress.c:128-144 | Inserting one leaf per nonzero count, in ascending byte order, yields the seeded heap. The decoder runs the same loop (lines 493-508). |
| HuffmanBuild.SeedOne | src/compress.c:129-143 | One seeding step inserts byte i's leaf exactly when its count is nonzero. |
| HuffmanBuild.BuildHuffmanTree | src/compress.c:148-203 | Returns the tree that repeated merging of the two minima gives, and leaves the heap empty. |
| HuffmanCodes.CodeTableFacts | src/compress.c:209-252 | Each code entry is the 0/1 path from the root to a leaf holding its byte, and every such path is an entry. Each byte has one entry per leaf. The codes are prefix-free. An internal root gives only non-empty codes; a lone leaf root gets the empty code. |
| HuffmanCodes.LookupFound | src/compress.c:345-352 | A successful walk of the code list returns the code of an entry for that byte. |
| HuffmanCodes.LookupSucceeds | src/compress.c:345-360 | The walk finds a code exactly when the list has an entry for the byte. |
| HuffmanHeader.HeaderRoundTrip | src/compress.c:375-382 | Reading the header, as lines 451-458 do, gives back the 256 counts and the input length that were written. |
| HuffmanCodec.FindCode | src/compress.c:345-352 | The list walk returns the code of the first entry for the byte, or nothing. |
| HuffmanCodec.CodeBitCount | src/compress.c:343-361 | The size pass fails exactly when some byte has no code; otherwise it returns the total code length. |
| HuffmanCodec.EveryByteHasCode | src/compress.c:353-360 | For non-empty input every byte has a code, so the "not found" branches never fire. |
| HuffmanCodec.PushBit | src/compress.c:393-402 | Shifting in one bit keeps the invariant. The flushed bytes are the packed flushed bits, and the buffer holds the pending bits. |
| HuffmanCodec.PushCode | src/compress.c:391-403 | Emitting one code appends its bits to the emitted bit string and leaves the header untouched. |
| HuffmanCodec.FlushBuffer | src/compress.c:421-424 | After the padded last byte, the bytes after the header are the packed bit string. |
| HuffmanCodec.WriteBitstream | src/compress.c:385-424 | After the header come the concatenated codes of the input, packed. |
| HuffmanCodec.CountAndBuild | src/compress.c:287-325 | The counts are the byte frequencies. There is no tree exactly when no count is positive; otherwise it is the tree built from the counts. |
| HuffmanCodec.EmitOutput | src/compress.c:339-424 | The output is the header (counts, then input length) followed by the packed code bits. |
| HuffmanCodec.CompressLayout | src/compress.c:362-424 | Output size is header + ceil(bits/8). The header reads back as the byte counts and the length. The bitstream reads back as the code bits plus fewer than 8 zero bits. |
| HuffmanCodec.HuffmanCompress | src/compress.c:280-436 | `huffman_compress` returns exactly the specified result, including every error case. |
| HuffmanCodec.DecodeEncoded | src/compress.c:539-562 | From an internal root, walking the concatenated codes of y emits y, whatever bits follow. |
| HuffmanCodec.DecodeStream | src/compress.c:535-573 | The nested byte/bit loop yields the specified decoder result: bytes out, invalid path, or length mismatch. This holds for every stored length except 2^64 - 1, which the C mishandles (see Left out). |
| HuffmanCodec.RebuildTree | src/compress.c:487-516 | A heap of capacity `unique_chars_count`, seeded and merged, gives the same tree the encoder built from those counts. |
| HuffmanCodec.HuffmanDecompress | src/compress.c:438-583 | `huffman_decompress` returns the specified result, including truncated and inconsistent headers. This holds for every stored length below 2^64 - 1; at that length the C output buffer wraps to zero bytes (see Left out). |
| HuffmanCodec.DecompressLength | src/compress.c:564-577 | A successful decompression yields exactly the stored length. |
| HuffmanCodec.RoundTrip | src/compress.c:280-583 | For input shorter than 2^32 bytes with at least two distinct byte values, compression succeeds and decompression gives the input back. |
| HuffmanCodec.SingleSymbolFails | src/compress.c:304-313 | A non-empty input with one distinct byte value compresses to the header alone, and decompressing that fails with a length mismatch. |
| HuffmanFixed.Hang | src/compress.c:510-512 | The repaired coding tree is always an internal node, has the same bytes at its leaves, and equals the built tree when that is internal. |
| HuffmanFixed.FixedCompressAgrees | src/compress.c:316 | With at least two distinct byte values, the repaired compressor writes what the original writes. |
| HuffmanFixed.FixedDecompressAgrees | src/compress.c:514 | On a header with at least two nonzero counts, the repaired decompressor reads what the original reads. |
| HuffmanFixed.FixedRoundTrip | src/compress.c:304-313 | With the repair, every non-empty input shorter than 2^32 bytes round-trips, one distinct byte value included. |
| Rle.RunsFacts | compress.c:21-42 | The collected runs expand back to the input. Every count is positive and at most 9 when capped. A run is followed by a run of a different byte, unless it was cut at 9. |
| Rle.RleRoundTrip | compress.c:7-109 | `rle_decompress(rle_compress(s)) == s` for every input without the digit bytes '2'..'9'. |
| Rle.RleCompressBound | compress.c:13-14 | The compressed form is at most twice the input length, so the worst-case buffer suffices. |
| Rle.DecodeRender | compress.c:170-204 | Decoding the string of a run list gives its expansion, when counts are 1..9 and no run byte is a count digit. |
| Rle.RenderedSizeIsLength | compress.c:176-181 | One or two bytes per run, as the sizing loop counts, is the length of the written string. |
| Rle.WriteRun | compress.c:39-42 | A run is written as its byte, then `'0' + count` when the count exceeds one. |
| Rle.CompressStep | compress.c:24-36 | One step of the scan: the byte lengthens the current run (below 9) or the run is written and a new one starts. The output stays the rendering of the finished runs. |
| Rle.RleCompress | compress.c:7-56 | NULL or empty input gives None; otherwise the rendering of the capped runs of the input. |
| Rle.DecodedSize | compress.c:64-73 | The size pass computes exactly the decoded length. |
| Rle.WriteRepeat | compress.c:92-94 | `count` copies of the byte are appended at `pos`. |
| Rle.DecompressStep | compress.c:83-95 | One step expands a byte together with its count digit (or alone) and keeps the output a prefix of the decoding. |
| Rle.RleDecompress | compress.c:58-109 | NULL or empty input gives None; otherwise each byte followed by '2'..'9' becomes that many copies, and every other byte stands for itself. |
| Rle.CreateRleList | compress.c:111-168 | NULL or empty input gives None; otherwise the uncapped runs of the input, in order. |
| Rle.RenderSize | compress.c:176-181 | The sizing loop computes the length of the written string. |
| Rle.RleListToString | compress.c:170-204 | An empty list (NULL head) gives None; otherwise each run's byte and count byte, in list order. |
| Text.IndexOfFacts | src/sort.c:42 | `strchr` finds the first occurrence of the byte, or reports that there is none. |
| Text.LinesHaveNoNewline | src/sort.c:42-56 | No split line contains a newline. |
| Text.LinesCount | src/sort.c:13-21 | There is one line per '\n', plus one more when the text does not end in '\n' and is not empty. |
| Text.JoinOfLines | src/sort.c:89-118 | Joining the split lines gives the text back; a '\n' is added when the text did not end in one. |
| Text.LinesOfJoin | src/sort.c:7-70 | Splitting joined lines that hold no newline gives the lines back. |
| Text.LinePosition | src/search.c:19-57 | Line k starts after the first k lines and their newlines, and is exactly those bytes of the text. |
| Text.CompareZero | src/sort.c:80 | `strcmp` is zero exactly on equal strings. |
| Text.LeTotal | src/sort.c:80 | Any two lines are ordered one way or the other by `strcmp`. |
| Text.LeAntisymmetric | src/sort.c:80 | Lines ordered both ways are equal. |
| Text.LeTransitive | src/sort.c:80 | The `strcmp` order is transitive. |
| LineSort.LineArray.constructor | src/sort.c:24-37 | A line array with room for `capacity` lines, holding none. |
| LineSort.LineArray.Append | src/sort.c:44-53 | Appending a line adds it after the existing lines. |
| LineSort.CountLines | src/sort.c:13-21 | The counting loop yields one more than the number of '\n' bytes. |
| LineSort.TakeLine | src/sort.c:43-55 | The bytes before the next '\n' become the next line, and the scan resumes after it. |
| LineSort.AppendLast | src/sort.c:58-67 | The text after the last '\n' is appended when it is not empty. |
| LineSort.FillLines | src/sort.c:39-67 | The array ends up holding exactly the split lines. |
| LineSort.SplitIntoLines | src/sort.c:7-70 | NULL gives NULL. Otherwise the array has `line_count` slots and holds the split lines, in order. |
| LineSort.BoundsAsIntended | src/sort.c:78-79 | With at least one line, the `size_t` loop bounds are `count - 1` and `count - i - 1`, so the C test `i < count - 1` holds exactly when `i + 1 < count`. |
| LineSort.EmptySortOverruns | src/sort.c:78 | With no lines, `count - 1` wraps to 2^64 - 1 and the inner bound is positive, so the loop runs on an empty array. |
| LineSort.CompareAndSwap | src/sort.c:80-84 | The larger of neighbouring slots j and j + 1 ends in slot j + 1, and the slots hold the same lines. |
| LineSort.BubblePass | src/sort.c:79-85 | One pass carries the largest line of the first m slots to slot m - 1, and keeps the lines as a permutation. |
| LineSort.SortLines | src/sort.c:72-87 | Afterwards the lines are sorted by `strcmp` and are a permutation of the lines before. Each pass runs under the C's loop tests, as `BoundsAsIntended` shows at every iteration. |
| LineSort.JoinedSize | src/sort.c:95-98 | The sizing loop computes the length of the joined text. |
| LineSort.CopyLine | src/sort.c:110-113 | `strcpy` at `pos` appends the line after what is already written. |
| LineSort.JoinLines | src/sort.c:89-118 | A NULL array or zero lines gives NULL; otherwise every line followed by '\n', in order. |
| LineSort.SplitJoinRoundTrip | src/sort.c:7-118 | A text ending in '\n' is split and joined back unchanged. |
| LineSort.EmptyTextHasNoLines | src/sort.c:58-67 | An empty text splits into no lines, which `join_lines` turns into NULL. |
| Search.CheckLine | src/search.c:31-53 | A line holding the keyword is appended as a result with its number; any other line is dropped. |
| Search.NextLine | src/search.c:19-57 | One newline-terminated line is examined, then the scan moves past it and the next line number is used. |
| Search.LastLine | src/search.c:59-89 | The text after the last newline is examined when it is not empty. |
| Search.SearchText | src/search.c:7-92 | A NULL text or keyword gives None; otherwise the results are exactly the specified matches. |
| Search.SearchSound | src/search.c:7-92 | Every result is the line at its 1-based number and contains the keyword. |
| Search.SearchComplete | src/search.c:7-92 | Every line containing the keyword is reported, with its number. |
| Search.SearchOrdered | src/search.c:40-50 | Results come in strictly increasing line order. |
| Search.SearchEdgeCases | src/search.c:59-60 | An empty keyword matches every line, and an empty text gives no results. |
| Search.MatchLineNumber | src/search.c:15-56 | A result's number is one more than the count of newlines before its line, and its line is those bytes of the text. |
| XorCipher.XorEncrypt | encrypt.c:7-32 | NULL or empty input, or a NULL or empty key, gives None. Otherwise byte i is input[i] XOR key[i mod key length]. |
| XorCipher.XorDecrypt | encrypt.c:34-37 | Decryption computes the same result as encryption. |
| XorCipher.XorSpecFacts | src/encrypt.c:7-32 | It fails exactly on a NULL or empty input or key; on success the output has the input's length. |
| XorCipher.XorRoundTrip | src/encrypt.c:34-37 | Whenever encryption succeeds, decrypting with the same key gives the input back. |
| Caesar.Normalize | encrypt.c:45-49 | The normalized shift is in 0..25 and congruent to the shift modulo 26. |
| Caesar.CaesarEncrypt | encrypt.c:39-71 | NULL or empty input gives None. Otherwise each letter rotates within its case by the normalized shift, and every other byte is copied. |
| Caesar.CaesarDecrypt | encrypt.c:73-76 | Decrypting is encrypting with the negated shift. |
| Caesar.RotateClasses | encrypt.c:57-66 | A rotated byte stays lower case, upper case or other, as it was; other bytes and shift 0 leave it unchanged. |
| Caesar.RotateCompose | encrypt.c:59-62 | Rotating by a and then by b is rotating by (a + b) mod 26. |
| Caesar.ShiftPeriodic | encrypt.c:45-49 | Shifts that differ by a multiple of 26 encrypt alike. |
| Caesar.CaesarRoundTrip | encrypt.c:73-76 | Whenever encryption succeeds, decrypting with the same shift gives the input back. |
| Caesar.CaesarSpecFacts | encrypt.c:39-71 | It succeeds exactly on non-empty input; the output keeps the input's length and its non-letter bytes. |
| Cli.SetValue | src/cli.c:45-52 | A value flag sets its own field and leaves the mode, the debug flag and the other fields alone. |
| Cli.ParseCli | src/cli.c:7-83 | `parse_cli` returns exactly the specified result: no arguments, a failed check, or the scanned options. |
| Cli.ScanConcat | src/cli.c:28-54 | Scanning two argument lists in turn equals scanning their concatenation, when the first ends with no value flag waiting for its value. |
| Cli.LastModeWins | src/cli.c:29-42 | A mode flag overrides every mode flag before it. |
| Cli.LastValueWins | src/cli.c:45-52 | A repeated value flag keeps its last value. |
| Cli.UnknownIgnored | src/cli.c:28-54 | An argument that is no flag is skipped. |
| Cli.DanglingFlagIgnored | src/cli.c:45-52 | A value flag in last position, with no value after it, is skipped. |
| Cli.ValidateAccepts | src/cli.c:57-82 | Validation passes exactly on acceptable options and returns them unchanged. |
| Cli.ValidateReportsFirstFailure | src/cli.c:57-80 | A failure names the first check that fails, in the order of the code. |
| Cli.ModeRequirements | src/cli.c:57-80 | Per mode: help needs nothing; decompress and no mode need `-i`; search needs `-i -s`; compress and sort need `-i -o`; encrypt and decrypt need `-i -o -k`. |
| Cli.NoModeFlagAccepted | src/cli.c:20-25 | Without a mode flag the mode stays MODE_INVALID, and parsing succeeds exactly when `-i` was given. |
| Cli.NoArgumentsRejected | src/cli.c:8-11 | Fewer than two elements of `argv` are an error. |

## Left out

- File I/O, `main` and the mode dispatch are not part of this model. `src/io.c`, `main.c` and `src/main.c` are not part of it either.
- `print_help` and `print_search_results` are not modelled; they only print.
- `handle_error` and `handle_memory_error` messages are not modelled. Each error is a `None` or a named error value.
- Allocation failures (`malloc`, `realloc`, `strdup` returning NULL) are not modelled; every allocation succeeds.
- `free_huffman_tree`, `free_huffman_codes`, `free_rle_list`, `free_line_array`, `free_search_results` and `free_options` are not modelled. They only release memory.
- `*output_len` is not a separate output. It is the length of the returned sequence, and the terminating NUL each function writes after its output is not part of the result.
- `const char*` strings are modelled as the bytes before their terminating NUL. The model does not model a text cut short by an embedded NUL.
- Bytes of 128 and above are never letters, digits or newlines, whether `char` is signed or not, so the model treats `char` as unsigned.
- The Huffman header is written with the host's integer layout. The model fixes it at 4-byte little-endian counts and an 8-byte little-endian length.
- The character `'$'` stored in internal Huffman nodes is not modelled, because nothing reads it.
- The guard of `extract_min` at src/compress.c:81 can never fire. `MinHeap.Heap.ExtractMin` instead requires a non-empty heap, which both callers ensure.
- The NULL checks in `build_huffman_tree` (lines 157-165, 196-199) cannot fire and are not modelled.
- The empty `if` at src/compress.c:304-313 does nothing and is not modelled.
- The code buffer `arr` of `get_huffman_codes` holds 256 entries. A tree over at most 256 leaves never needs more, so codes are unbounded sequences.
- The line number of `search_text` is a C `int`. Its overflow past 2^31 - 1 lines is not modelled.
- `search_text` returns NULL both on error and when nothing matches. `Search.SearchText` returns `None` only on error and `Some([])` for no match.
- `sort_lines` and `join_lines` check `lines->lines` for NULL. A `LineArray` always has its array in the model, so that test is not modelled.
- `rle_list_to_string` writes `'0' + count` truncated to a byte, which is not a digit for counts of 10 or more. `Rle.DecodeRender` therefore covers runs of 1..9.
- `rle_compress` output is not decodable when the input contains the bytes '2'..'9'. `Rle.RleRoundTrip` states the round trip for inputs without them.
- `Rle.CreateRleList`: requires at most 2^31 - 1 input bytes, because its run counts are C `int`s that would overflow beyond that.
- `HuffmanCodec.HuffmanCompress`: requires fewer than 2^32 input bytes, because the byte counts are C `unsigned` values that would wrap beyond that.
- `HuffmanCodec.RoundTrip`: stated for at least two distinct byte values. One distinct value fails the round trip, as `HuffmanCodec.SingleSymbolFails` shows.
- `Caesar.CaesarDecrypt`: excludes the shift INT_MIN, whose negation overflows a C `int`.
- `XorCipher.XorEncrypt`: requires a key without NUL bytes, because `strlen` measures the key.
- `Cli.LastModeWins` and `Cli.LastValueWins`: stated only when the arguments before the flag end with no value flag still waiting for its value. An unfinished value flag would take the flag itself as its value.
- `HuffmanCodec.HuffmanDecompress` and `HuffmanCodec.DecodeStream`: the output buffer at src/compress.c:526 has `original_data_len + 1` bytes, computed in `size_t`. A header whose stored length is 2^64 - 1 makes that `malloc(0)`, and the loop at lines 539-560 then writes decoded bytes past the buffer, which is undefined behaviour. The model allocates `n` slots for any `n` and returns the specified `InvalidPath` or `LengthMismatch`, so it does not capture that input.
- Monotonic weighting, that a byte with a smaller count never gets a shorter code than one with a larger count, is not proved. It follows from the optimality of the greedy tree: swapping the two leaves would otherwise shorten the encoded output. The model proves the tree's shape, its weights and the prefix-free code table, but not optimality. The direct loop invariant, that the lighter leaf's tree is at least as deep and, at equal depth, lighter than the other's, breaks when equal weights tie in the heap. A proof therefore needs the optimality argument, which is not part of this model.
- `debug_mode` is set by src/cli.c but not declared in include/cli.h. The model keeps it as the `debug` field of `Options`.

## Findings

| source | as written | input that shows it | evidently intended | confidence | as-written member | corrected member |
|---|---|---|---|---|---|---|
| src/sort.c:78 | `i < lines->count - 1` is computed in `size_t`. With no lines it wraps to 2^64 - 1, so the loops run and the first comparison reads slots 0 and 1 of an array with no lines in it. | `--sort` on an empty file: `split_into_lines("")` gives zero lines | no pass for fewer than two lines (`i + 1 < count`) | not executed | LineSort.EmptySortOverruns | LineSort.SortLines |
| src/compress.c:304-313 | A tree that is a lone leaf gives its byte the empty code. Compression writes only the 1032-byte header, and decompression fails its length check (the case the comment at lines 510-512 leaves open). | `huffman_compress("aaa", 3, &n)` then `huffman_decompress` of the result | a one-symbol input round-trips, with a one-bit code for its byte | not executed | HuffmanCodec.SingleSymbolFails | HuffmanFixed.FixedRoundTrip |
