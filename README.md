# Huffman codec and directory archive, modelled in Dafny

This project models the core of a Huffman compressor written in C. It
has two layers.

- **The single-file codec.**
  - A 256-slot byte histogram is built in a table that is updated in place.
  - The table is drained by repeated max-selection (`terribleSort`).
  - A sorted linked-list priority queue is merged greedily into a Huffman tree.
  - Codes are assigned by a depth-first walk that writes into a shared path buffer.
  - The compressed file is a header of a 64-bit symbol count and 256 64-bit counts.
  - The code bits follow, packed most significant bit first, with the last byte zero-padded.
- **The directory archive.**
  - The archive holds a 32-bit entry count, then, per file, a 32-bit name length, the name bytes, a 64-bit payload length and the payload.
  - Two strategies write and read it: one process per file (`readFile_fork.c`), or a thread pool that claims work through a shared counter (`readFile_pthread.c`).

The modules follow the C files.

- `Bytes` (`bytes.dfy`): the byte type, and little-endian 32- and 64-bit fields with the C integer wrap written out.
- `Tree` (`tree.dfy`): tree nodes, the sorted queue as a class over a `seq`, and `buildHuffmanTree`.
- `Codes` (`codes.dfy`): `generateCodes`, which writes into a `path` array and a 256-entry code array. Also code paths, prefix-freeness and bit-walk descent.
- `QueueOrder` (`queue_order.dfy`): why the encoder and the decoder build the same initial queue.
- `FrequencyTable` (`frequency.dfy`): the `alphabet` table as a class over an `array<Letter>`, with `addLetterFrequency`, `readTextFile`, `countSize` and `terribleSort`.
- `Packing` (`packing.dfy`): the bit layout of the payload and the byte-buffer arithmetic.
- `Codec` (`codec.dfy`): the header writer and readers, `obtenerCodigos`, `reconstruirCodigos`, and `compressFile` with its packing loop.
- `ReferenceDecoder` (`decoder.dfy`): a reference decoder written as functions.
  - It states what a compressed file means.
  - `decompressFile` and `createDecodingTree` are not part of this model, so the reference is not the source's decoder.
- `Archive` (`archive.dfy`): the two archive layouts, the extraction loop they share, and temporary names.
- `ForkStrategy` (`fork.dfy`): `compressDirectoryFork` and `decompressDirectoryFork`.
- `PthreadStrategy` (`pthread.dfy`): `compressDirectoryPthread`, `decompressDirectoryPthread`, the workers and the shared claim counter.

How the environment is modelled:

- **Files and streams** are byte sequences. An unopenable file is `None`.
- **Directories** are listings of (name, is-regular) entries, in enumeration order.
- **Failures and the environment are parameters.** For example `outputOk` and `tempOk(i)` say whether an `fopen` succeeds. A `pid` parameter gives the process id. `detected` gives the processor count.
- **The uninitialised `byteBuffer`** of `compressFile` is a `junk` parameter. The output is proved not to depend on it.
- **Reading a truncated archive.** The C copy loop never ends once `fread` returns 0. The model reports this as the extraction status `Stuck`. Reads of fields past the end of the input give `Truncated`. A negative name length, or one of 256 or more, makes the C code read or write outside its 256-byte name buffer, and the model reports it as `BadName`.

Ways the system description and the code differ (the model follows the code):
- **Tie-breaking in the queue.** The description says that among equal frequencies the earlier-inserted node comes first. `insertSorted` (tree.c:55, tree.c:60) puts a new node *before* every node of equal frequency, so the latest-inserted comes first. `InsertPlacement` states the rule as written.
- **Cross-strategy equivalence** holds only when every temporary artifact exists (`SameArchive`, `SameOutput`).
- **Thread safety.** The description asks for a per-call frequency table. The pthread workers instead call `compressFile` outside the mutex (readFile_pthread.c:34-50). `compressFile` and `obtenerCodigos` fill the process-wide `alphabet` and `alphabetresults` (readFile.c:17-18, readFile.c:21-26, readFile.c:37-40, readFile.c:182). With two or more threads and two or more files, overlapping compressions can corrupt each other's counts, tree and codes, and can reach the NULL-code exit. The fork children are separate processes and do not share the table. So `CompressPool`, `CompressDirectoryPthread`, `SameOutput` and `DirectoryRoundTrip` describe the source only for schedules where no two `compressFile` calls overlap. The model runs the pool on such a schedule.
- **Missing artifacts.** The description has a per-file failure skip that file. In the code, the fork merge writes the entry's name length and name without a size. The pthread merge drops the whole entry but keeps the original count. Either way, extraction does not simply skip the file: `ForkMissingStuck`, `ForkMissingHangs` and `MissingTruncates` show what it does.

## Model

| member | source | states |
|---|---|---|
| Tree.PriorityQueue.constructor | tree.c:81 | the queue starts empty and sorted |
| Tree.PriorityQueue.InsertSorted | tree.c:47-66 | the list becomes `Insert(old list, node)`, kept sorted; the pointer walk is an index walk over the list |
| Tree.InsertKeepsSorted | tree.c:47-66 | inserting into a non-decreasing queue keeps it non-decreasing by frequency |
| Tree.InsertPlacement | tree.c:55-65 | the new node lands at position k; removing it gives back the old queue, so the others keep their order; every node before it is strictly lighter; every node of equal or greater frequency comes after it |
| Tree.PriorityQueue.GetMin | tree.c:69-78 | an empty queue gives None and is unchanged; otherwise it returns the head, the queue becomes its tail, and the head is no heavier than any remaining node |
| Tree.BuildHuffmanTree | tree.c:80-108 | the two loops compute the reference `BuildSpec(letters)`; the merge loop runs `size - 1` times |
| Tree.InsertAllFacts | tree.c:83-86 | the initial queue is sorted, well-weighted, and its leaves are the input letters as a multiset |
| Tree.MergeLoopFacts | tree.c:89-104 | the merge loop gives none exactly for an empty queue; otherwise a well-weighted tree whose leaves are the queue's leaves |
| Tree.BuildSpecShape | tree.c:80-108 | no tree iff size 0; size 1 gives exactly that leaf; otherwise every internal node weighs the sum of its children, the leaves are the letters as a multiset, the root weighs their total, and there are size - 1 internal nodes |
| Tree.FullTreeCount | tree.c:97-100 | a tree whose internal nodes all have two children has one more leaf than internal nodes |
| Tree.WeightIsLeafSum | tree.c:96 | a well-weighted node weighs the sum of its leaves' frequencies |
| Codes.GenerateCodes | tree.c:111-130 | the code array receives the reference walk `CodeWalk` (leaves get their path; '0' left, '1' right); the path buffer below `depth` is restored |
| Codes.CodeTableAt | tree.c:111-130 | with distinct symbols, byte b's code is its root-to-leaf path when b is a leaf and None otherwise; a sole-leaf root gets "" |
| Codes.CodeWalkAt | tree.c:117-129 | the walk from a prefix gives each leaf symbol prefix + path and leaves other entries alone |
| Codes.PathsPrefixFree | tree.c:111-130 | no symbol's code is a prefix of a different symbol's code |
| Codes.DescendPath | tree.c:124-129 | walking the tree along a symbol's code bits reaches that symbol and leaves the following bits untouched |
| Codes.HeightBound | tree.c:111-130 | code length (leaf depth) is below the number of leaves, so codes fit the 256-byte path buffer |
| Codes.NulTerminated | tree.c:118-119 | `strdup(path)` after `path[depth] = '\0'` copies exactly the first `depth` characters |
| Codes.DistinctTree | tree.c:80-108 | a tree built from distinct letters has distinct leaf symbols, exactly those letters |
| QueueOrder.InsertAllElements | tree.c:83-86 | the initial queue holds exactly one leaf per input letter |
| QueueOrder.InsertAllKeySorted | tree.c:55-60 | inserting letters whose ties ascend by byte gives a queue strictly ordered by (frequency up, byte down) |
| QueueOrder.KeySortedUnique | tree.c:47-66 | two strictly key-ordered queues with the same elements are equal |
| QueueOrder.SameInitialQueue | readFile.c:182-187 | two tie-ascending lists of the same letters build the same queue, the same tree and the same codes |
| FrequencyTable.InitAlphabet | readFile.c:28-34 | every slot i is reset to letter i with frequency 0 |
| FrequencyTable.Alphabet.constructor | readFile.c:17 | a fresh 256-slot table, initialised |
| FrequencyTable.Alphabet.InitGlobalAlphabet | readFile.c:21-26 | every slot i becomes letter i with frequency 0 |
| FrequencyTable.Alphabet.AddLetterFrequency | readFile.c:37-40 | exactly slot `letter` goes up by one; all others are unchanged |
| FrequencyTable.Alphabet.ReadTextFile | readFile.c:106-119 | an unopenable file leaves the table alone; otherwise each slot b grows by the number of occurrences of b |
| FrequencyTable.Alphabet.CountSize | readFile.c:141-147 | the number of slots with nonzero frequency |
| FrequencyTable.Alphabet.ClearSlot | readFile.c:92 | exactly one slot's frequency becomes 0 |
| FrequencyTable.Alphabet.FindBiggest | readFile.c:76-89 | a zero result means every slot is zero; otherwise the first slot of greatest frequency (strict `>`) |
| FrequencyTable.Alphabet.TakeBiggest | readFile.c:76-95 | one selection step: stop when all are zero, or take the first maximum and zero its slot, keeping the sort state |
| FrequencyTable.Alphabet.FillResults | readFile.c:75-99 | fills the result with each nonzero letter once, heavier first with ties toward the smaller byte, and leaves every slot zero |
| FrequencyTable.Alphabet.TerribleSort | readFile.c:63-102 | a fresh array of `countSize` letters in that order, with the table left all zero |
| Bytes.Int32RoundTrip | readFile_fork.c:172 | reading back a written `int` gives the value, for every 32-bit value |
| Bytes.Int64RoundTrip | readFile.c:224 | reading back a written `long long` gives the value, for every 64-bit value |
| Bytes.UInt64RoundTrip | readFile.c:225 | reading back a written `unsigned long long` gives the value, for every 64-bit value |
| Codec.HeaderRoundTrip | readFile.c:270-321 | the count is read from offset 0 and the table from offset 8, so writing the header then reading it back is the identity |
| Codec.TableEntry | readFile.c:313-317 | count i sits at bytes 8 + 8i through 16 + 8i |
| Codec.ShortHeader | readFile.c:279-283 | a file under 8 bytes reads as count -1; the table read fails exactly when the file is shorter than the header |
| Codec.ByteOrderFacts | readFile.c:350-357 | the decoder's list holds exactly the nonzero slots, in strictly ascending byte order |
| Codec.TerribleOrderMatches | readFile.c:63-102 | the `terribleSort` order is tie-ascending, has distinct letters, and lists the same letters as the decoder's byte order |
| Codec.EncoderMatchesDecoder | readFile.c:182-187 | the tree and code table built from `terribleSort` order equal those built from the stored table in byte order |
| Codec.TreeFitsPath | readFile.c:187 | a tree of at most 256 letters has height below 256, so no code overflows `path[256]` |
| Codec.GenerateTable | readFile.c:186-188 | the calloc'ed table filled by `generateCodes` is the reference code table |
| Codec.ListLetters | readFile.c:335-357 | the letters array is the stored table's nonzero slots in byte order |
| Codec.ReconstruirCodigos | readFile.c:328-379 | no codes when the table cannot be read; otherwise the codes of the stored frequencies |
| Codec.ObtenerCodigos | readFile.c:176-191 | the codes of the file's own histogram |
| Codec.EncodeSnoc | readFile.c:234-253 | encoding one more byte appends its code bits, or fails exactly when that byte has no code |
| Codec.EveryByteCoded | readFile.c:228-237 | every byte of a file has a code under that file's own table, so the NULL-code exit is never taken |
| Codec.CodeTree | readFile.c:228 | a nonempty file's counts build a tree whose distinct symbols are exactly the file's bytes |
| Codec.HistogramTotal | readFile.c:219-222 | `total_chars`, the sum of the 256 counts, is the file length |
| Codec.CopyCounts | readFile.c:219-222 | the copied array is the table's counts, and the total is their sum |
| Codec.ShiftBit | readFile.c:241-251 | one shifted bit keeps the pending bits in the low bits of the buffer and flushes a full byte after the eighth |
| Codec.ShiftCode | readFile.c:240-252 | shifting a whole code appends its bits to the packed state |
| Codec.PushFull | readFile.c:246-250 | the eighth bit emits the buffer as the next payload byte and resets it |
| Codec.PushPending | readFile.c:241-245 | a bit short of eight only joins the pending bits |
| Codec.PackData | readFile.c:233-258 | the output after the header is exactly `Pack(code bits)`, whatever the initial buffer held |
| Codec.CompressFile | readFile.c:201-262 | no input: an empty output file (if it opened); no output: nothing; otherwise header then packed payload |
| Codec.OrOne | readFile.c:243 | the lowest bit of the result is 1 and its seven higher bits are the buffer's |
| Codec.OrOneIsBitwiseOr | readFile.c:243 | on every 8-bit value, `OrOne` gives what the bitwise OR with 1 gives |
| Packing.PackRoundTrip | readFile.c:240-258 | the payload has ceil(bits / 8) bytes, and unpacking it gives the code bits followed by the zero padding |
| Packing.PackSplit | readFile.c:246-257 | the payload is the bytes flushed whole, then the padded pending bits if there are any |
| Packing.PackStep | readFile.c:245-251 | a bit either joins the pending bits or completes a byte |
| Packing.ShiftInBit | readFile.c:241-244 | shifting an `unsigned char` left and or-ing in a bit keeps its low bits equal to the pending bits |
| Packing.FlushPartial | readFile.c:256 | shifting by `8 - bitCount` moves the pending bits to the top with zeros beneath |
| Packing.LastByte | readFile.c:255-257 | the final shifted buffer is the pending bits, left-aligned and zero-padded |
| Packing.PadLength | readFile.c:255-257 | the padding is under eight bits and completes a whole byte |
| ReferenceDecoder.DecompressHeader | readFile.c:270-321 | the header written for an empty file decodes to the empty file; for any other file the count and table read back rebuild a tree, and the payload is decoded with it for exactly the file's length |
| ReferenceDecoder.DecodeEncoded | tree.c:111-130 | decoding the code bits of a string of tree symbols gives the string back, whatever bits follow |
| ReferenceDecoder.CompressRoundTrip | readFile.c:201-262 | the file `compressFile` writes decodes back to its input, for every input with a 64-bit length |
| ReferenceDecoder.HistogramFits | readFile.c:214-221 | every count of such a file fits an `unsigned long long` |
| ReferenceDecoder.SingleSymbol | tree.c:117-120 | a file of one distinct byte gets the empty code, so its payload is empty |
| ReferenceDecoder.OneLetter | readFile.c:63-102 | such a file lists a single letter, with the file's length as its count |
| Archive.ForkFilesExact | readFile_fork.c:103-118 | the fork collection holds exactly the regular entries other than "." and ".." |
| Archive.RegularFilesExact | readFile_pthread.c:101-114 | the pthread collection holds exactly the regular entries |
| Archive.SameCollection | readFile_fork.c:105-106 | without regular "." or ".." entries, the two collections are equal |
| Archive.TempNamesDistinct | readFile_fork.c:114-115 | temporary names with the same pid and distinct indices are distinct |
| Archive.DecRoundTrip | readFile_pthread.c:107 | the `%d` rendering of an index reads back to that index |
| Archive.SameArchive | readFile_pthread.c:141-166 | when every artifact exists, the pthread merge output is byte-identical to the fork merge output |
| Archive.ForkEntriesSnoc | readFile_fork.c:175-204 | one more merged index appends exactly its fork entry |
| Archive.PthreadEntriesSnoc | readFile_pthread.c:144-166 | one more merged index appends exactly its pthread entry (nothing for a missing artifact) |
| Archive.CStringNoNul | readFile_fork.c:266-268 | a name without NUL survives NUL-termination unchanged |
| Archive.ReadEntryHead | readFile_fork.c:265-271 | reads name length, name and size as the reference `ReadHead` does, advancing past them |
| Archive.ReadEntry | readFile_fork.c:265-271 | an entry written for a name under 256 bytes reads back that name, its payload length and what follows |
| Archive.EntrySlices | readFile_fork.c:176-198 | a written entry is the length field, the name, the size field, then the payload |
| Archive.CopyPayload | readFile_fork.c:286-293 | copies exactly `size` bytes (none for a size of 0 or less); hangs exactly when the input is too short |
| Archive.ExtractEntry | readFile_fork.c:264-297 | one extraction step agrees with the reference `ExtractEntries` |
| Archive.ExtractPthreadEntries | readFile_pthread.c:244-271 | extraction of a pthread merge yields the present entries; Done when the count matches, otherwise Truncated |
| Archive.ArchiveRoundTrip | readFile_fork.c:172-297 | when every artifact exists, both layouts agree and extraction recovers the names and payloads in order |
| Archive.ForkMissingStuck | readFile_fork.c:181-185 | for every fork archive under 2^32 bytes whose first artifact is missing, with valid names and a second name of at least four ASCII bytes, the first size is read from the second entry's length field and name, is at least 2^32 and exceeds what is left, so extraction never ends |
| Archive.MisreadSize | readFile_fork.c:270-271 | a length field followed by four name bytes, the first non-NUL and the last below 128, reads as a `long long` of at least 2^32 |
| Archive.ForkMissingHangs | readFile_fork.c:181-185 | worked example for the two short names "a" and "b" (outside the general lemma's four-byte condition): with the first artifact missing, extraction never ends |
| Archive.MissingHead | readFile_fork.c:264-271 | in that example, the misaligned entry takes the next entry's length field and name as a size of 1 + 98 * 2^32, with five bytes left |
| Archive.EntriesAt | readFile_fork.c:264-297 | entry i of the expected extraction pairs name i with artifact i |
| ForkStrategy.CountFilesInDirectory | readFile_fork.c:33-57 | -1 for an unopenable directory; otherwise the number of regular entries other than "." and ".." |
| ForkStrategy.CollectFiles | readFile_fork.c:103-118 | the names collected in enumeration order and their pid/index temporary names |
| ForkStrategy.WriteForkEntry | readFile_fork.c:176-203 | one index's merge output: name length and name, then the size and payload only when the artifact opened |
| ForkStrategy.ForkEntriesUpTo | readFile_fork.c:175-204 | the merge of the first i + 1 indices extends that of the first i by index i's entry |
| ForkStrategy.WriteForkEntries | readFile_fork.c:175-204 | the merge loop writes the entries of all indices in index order |
| ForkStrategy.MergeFork | readFile_fork.c:165-206 | no output file: nothing; otherwise the count, then the entries |
| ForkStrategy.CompressDirectoryFork | readFile_fork.c:71-217 | succeeds iff the directory opens, holds a file, and the output opens; the archive is then the fork merge of every child's artifact |
| ForkStrategy.DecompressDirectoryFork | readFile_fork.c:231-300 | succeeds iff the archive opens, the directory is made, and the count reads; the extraction is then the reference one |
| PthreadStrategy.ThreadCount | readFile_pthread.c:67-70 | the detected count when it is positive, and 2 otherwise; always at least one worker |
| PthreadStrategy.WorkCounter.constructor | readFile_pthread.c:121 | the counter starts at 0 |
| PthreadStrategy.WorkCounter.Claim | readFile_pthread.c:34-41 | below the total: returns the index and increments; otherwise stops with the counter unchanged |
| PthreadStrategy.ClaimAll | readFile_pthread.c:30-51 | repeated claims yield 0 .. total-1, each once, in order |
| PthreadStrategy.CompressWorker | readFile_pthread.c:27-54 | a worker leaves the counter at the total, with every claimed index holding its compressed artifact |
| PthreadStrategy.CompressPool | readFile_pthread.c:118-137 | on the schedule where the workers run one after another, after the join every index holds its artifact, exactly as the fork children produce them |
| PthreadStrategy.CountRegularFiles | readFile_pthread.c:80-87 | the number of regular entries |
| PthreadStrategy.CollectRegularFiles | readFile_pthread.c:101-114 | the regular names in enumeration order and their pid/index temporary names |
| PthreadStrategy.WritePthreadEntry | readFile_pthread.c:145-165 | a present artifact's full entry, and nothing for a missing one |
| PthreadStrategy.PthreadEntriesUpTo | readFile_pthread.c:144-166 | the merge of the first i + 1 indices extends that of the first i |
| PthreadStrategy.WritePthreadEntries | readFile_pthread.c:144-166 | the merge loop writes the present entries in index order |
| PthreadStrategy.MergePthread | readFile_pthread.c:141-167 | the count of all files, then the present entries |
| PthreadStrategy.CompressDirectoryPthread | readFile_pthread.c:65-182 | succeeds iff the directory opens and holds a regular file; the archive is then the pthread merge of every artifact |
| PthreadStrategy.DecompressWorker | readFile_pthread.c:189-217 | a worker decompresses each index it claims, once |
| PthreadStrategy.DecompressPool | readFile_pthread.c:274-295 | after the join each of the `file_count` entries is decompressed exactly once |
| PthreadStrategy.DecompressDirectoryPthread | readFile_pthread.c:225-306 | succeeds iff the archive opens; a short archive extracts nothing; otherwise the reference extraction, then one decompression per entry unless the copy loop hangs |
| PthreadStrategy.SameOutput | readFile_pthread.c:141-166 | with no regular "." or "..", every artifact written, and no two compressions overlapping in time, both strategies collect the same files and write byte-identical archives |
| PthreadStrategy.DirectoryRoundTrip | readFile_pthread.c:65-306 | compressing a directory and extracting the archive gives every file's name, each entry completes, and each payload decodes to the file's contents |
| PthreadStrategy.MissingTruncates | readFile_pthread.c:142-146 | with a missing artifact, the count still says `file_count`; extraction yields the present entries, then Truncated |
| PthreadStrategy.FewerPresent | readFile_pthread.c:145-146 | a missing artifact leaves fewer present entries than files |

## Left out

- Concurrency:
  - `fork`, `waitpid` and `exit` are not modelled. The children run one after another, each producing its artifact as a function of its input and of `tempOk(i)`.
  - A `fork()` failure is not modelled.
  - `pthread_create`, `pthread_join` and the mutex are not modelled. The pool is run sequentially, so the first worker claims every index and the others find the counter at the total. The model therefore does not capture interleavings; exactly-once claiming is shown only for this sequential run.
- `decompressFile` and `createDecodingTree` are not part of this model, so the decompression of each entry is not modelled.
  - The fork children's decompression is left out.
  - The pthread decompression records only how many times each index is decompressed.
  - `ReferenceDecoder.Decompress` states what the archive's payloads mean; it is not the source's decoder.
  - The reference decoder treats a stored count of 0 as the empty file.
- File-system calls are parameters: `fopen` success, `opendir`, `readdir` listings, `isRegularFile`, `createDirectoryIfNotExists`, `remove`, `ftell` and `rewind`.
  - The directory is taken not to change between the counting pass and the collecting pass.
  - Output goes to a returned byte sequence, not to `outputDir/name` paths.
  - Truncation of `snprintf` paths to 1024 bytes is left out.
- The pthread strategy does not check its `fopen` of the archive output or of the extraction temporaries. The model takes these to succeed (`AlwaysCreate`).
- `malloc` and `calloc` failure and the resulting `exit` are left out.
- Undefined behaviour is not modelled instruction by instruction:
  - A negative or huge entry count (a variable-length array of negative size) is not modelled.
  - Reads of indeterminate values after a short `fread` are reported as `Truncated`.
  - A negative name length, or one of 256 or more, reads or writes outside the name buffer and is reported as `BadName`.
  - A copy loop that never ends is reported as `Stuck`.
- Codec.CompressFile: counts are unbounded `nat`. The header writer stores them modulo 2^64 (and the total as a wrapped `long long`). The round-trip lemmas require file sizes below 2^63, so the C unsigned 64-bit and signed overflow of `total_chars` is stated only as the wrap in `Int64LE`.
- Codec.PackData: when a byte has no code, it states only that the header was written. That case never arises for codes built from the same file (`EveryByteCoded`). The partial output the C code leaves behind is left out.
- Tree.BuildHuffmanTree: the merge count is a ghost result, so it is stated but not counted as computed output.
- `createNode` is the datatype constructor `Tree.LeafOf` and the internal-node constructor; the `'$'` placeholder value of internal nodes is not stored.
- `getCodeOfACharacter` is the table lookup `codigos[b]`.
- `freeTree`, `liberarCodigos`, `resetGlobalVariables`, `printTree` and `printFrequencies` are left out as memory management and printing. So are all `printf` output, timing (`getCurrentTimeMs`), and the interactive and benchmark drivers (`main.c`, `main_menu.c`, `main_fork.c`, `main_pthread.c`).
- `readCompressedFile` is left out: it is an empty stub.
- PthreadStrategy.CompressPool: the global `alphabet` and `alphabetresults` are a per-call `Alphabet` object. The data race between overlapping `compressFile` calls in different threads is therefore not modelled. The pool's contract, and `SameOutput` and `DirectoryRoundTrip` built on it, hold for the code only on schedules where no two compressions overlap.
