# Verified model of a sensor-cluster firmware

This project models four components of the cluster firmware under `ms_node/` in Dafny and proves what they promise.
Code that updates arrays, files, tables or linked nodes step by step is modelled by methods over arrays and classes;
each such method is proved against a specification function, and the laws are lemmas about those functions.
`dafny verify dfyconfig.toml` checks everything.

1. **The Huffman codec** (`components/compression/huffman.c`). The greedy tree builder, the depth walk, canonical code
   assignment (section 3.2.2 of RFC 1951), the bit writer and reader, the decode trie and the framed format. Proved:
   the merge loop minimises the total number of bits over all prefix codes, the lengths meet Kraft's equality, canonical
   codes fit their lengths and are prefix-free, a symbol at depth d needs 2 Fib(d + 1) - 1 input bytes and tables attain
   that, so that lengths over 32 are refused for some input exactly from 11,405,773 bytes on, a complete code's trie has
   2n - 1 nodes, and decoding a compressed input, with any bytes behind it, gives back the input. Decompression is
   modelled for every input, not only for encoder output.
   Modules: `PrefixCodes`, `HuffmanTree`, `HuffmanOptimal`, `HuffmanLengths`, `HuffmanTheorems`, `HuffmanDepth`,
   `HuffmanBuild`, `BitStrings`, `BitIO`, `CanonicalCodes`, `DecodeTrie`, `TrieSize`, `Endian`, `HuffmanCodec`,
   `HuffmanDecode`.
2. **Store and forward** (`components/storage_manager/storage_manager.c`, `main/state_machine.c`,
   `main/esp_now_manager.c`). The MSLG chunk log with single and batch pop, the cached chunk count, write and read-all,
   the burst drain loop, the receiver's duplicate filter and store, and a step machine that interleaves them as the mutex
   allows, refined by schedules of calls on the logs and the table themselves. Proved: a batch pop does what single pops
   do, the seeded count always equals a header scan, reading gives back what was written, exactly when a drain pass
   rotates what it could not send, that no record is made or lost over any schedule except those a purge, a failed write
   or a changed put-back is charged with, when a (node, number) pair can pass the filter twice, and exactly when an
   acknowledged reading is stored at the head.
   Modules: `MslgFormat`, `StorageManager`, `Drain`, `Dedup`, `DedupRuns`, `Pipeline`, `Network`.
3. **Election and adaptive weights** (`main/election.c`, `main/metrics.c`). The Pareto frontier, Nash selection with its
   fallbacks and tie-breaks, the cluster-head conflict rule, and the gradient step on the weight simplex. Proved: the
   winner is on the frontier, exactly when the choice does not depend on the order of the candidates (and two nodes that
   elect different heads otherwise), exactly when one of several heads stays, and that the weights stay on the simplex
   and converge geometrically.
   Modules: `Pareto`, `Nash`, `Conflict`, `Weights`.
4. **cJSON** (`managed_components/espressif__cjson/cJSON`). The sibling list with its head-to-tail link as a heap of
   nodes, the printer into a growing buffer, the recursive-descent parser, and JSON Pointers (RFC 6901). Proved: every
   list operation and every run of them implements the sequence operation, the parser reads exactly the texts of a
   grammar stated apart from it, parsing a printed value gives the value back if and only if it nests at most 1000 deep,
   string decoding stays inside its size estimate on every input, a preallocated buffer suffices if and only if it has
   one byte to spare behind text and NUL, every value read from any text survives printing and parsing, and the pointer
   built for a node of a parsed document leads to that node.
   Modules: `SiblingList`, `CText`, `JsonStrings`, `JsonLiterals`, `ParseStrings`, `ParseLiteral`, `JsonTree`,
   `ParseBuffers`, `PrintedText`, `PrintBuffers`, `JsonPrinter`, `JsonRoundTrip`, `JsonClient`, `JsonAccepted`,
   `JsonGrammar`, `PointerTokens`, `JsonPointer`, `JsonDocument`.

`Words` holds machine words, status codes and shared arithmetic.

Where the code and its own comments disagree, the model follows the code:

- The packed chunk header is 36 bytes; the comment at `storage_manager.c:59` says 32.
- The 90 percent test multiplies in 32 bits: from 42,949,673 used bytes on the product wraps, and a store can be full
  without being purged (`StorageManager.FullStoreIsMissed`).
- `huffman_bound` computes in a 32-bit `size_t` and wraps from 2^27 input bytes on (`HuffmanDecode.BoundWraps`).
- A batch pop cuts a damaged tail off the log, single pops leave it; and a batch pop of a log whose count was never
  seeded leaves the count 0 (`MslgFormat.BatchOfAnyFile`, `StorageManager.Storage.PopBatch`).
- cJSON's header asks for 5 spare bytes when printing into a given buffer; text, NUL and one byte more are exactly what
  is needed (`JsonPrinter.PrintPreallocated`).
- A `\u` escape with a wrong hexadecimal digit is not refused but decodes to a NUL byte (`JsonStrings.BadHexIsNul`).
- An empty token is accepted as array index 0, and indices are cut to 32 bits (`PointerTokens.EmptyTokenIsZero`,
  `PointerTokens.IndexExactIff`); a pointer that does not start with a slash evaluates to the whole document
  (`JsonPointer.NoSlashIsRoot`).
- Appending reports success whatever the first `prev` is. `sort_object` (`cJSON_Utils.c:595-602`) can leave it null, and
  then nothing is added, or at an inner child, and then all children behind that one are cut off
  (`SiblingList.AddItemToArray`).
- Popped payloads carry no terminator but are put back as C strings, so a put-back text is the record only when a NUL
  happens to follow the buffer (`Drain.TextKeptIff`); compressed chunks are put back as compressed bytes.
- The filter records a number before the role check and the write, so a reading can be acknowledged and stored nowhere
  (`Pipeline.AckedButNowhere`).
- Three cluster heads with close scores can all yield (`Conflict.ThreeHeadsCanAllYield`), and with nearly equal Nash
  products two nodes can elect different heads (`Nash.TwoNodesDisagree`).

## Model

| member | source | states |
|---|---|---|
| `HuffmanOptimal.ForestOptimal` | ms_node/components/compression/huffman.c:215-233 | For any weights and any depths that satisfy Kraft's inequality, repeatedly merging the two smallest nodes costs no more bits |
| `HuffmanOptimal.StepOptimal` | ms_node/components/compression/huffman.c:215-233 | Any feasible depths for a forest give feasible depths for the forest after one merge that cost no more in total |
| `HuffmanOptimal.Siblings` | ms_node/components/compression/huffman.c:218-219 | Some feasible depths that cost no more give the two smallest weights equal depth |
| `HuffmanTree.MergeKeeps` | ms_node/components/compression/huffman.c:225-230 | A merge keeps the total weight and every symbol's leaves, and adds the weights of the two smallest to the cost |
| `HuffmanTree.HuffmanOfFacts` | ms_node/components/compression/huffman.c:176-233 | The tree built from a frequency table has exactly one leaf for each used symbol, with its frequency, and none for the others |
| `HuffmanLengths.KraftEquality` | ms_node/components/compression/huffman.c:193-276 | The code lengths satisfy sum 2^-len = 1, and 1/2 for a single symbol |
| `HuffmanLengths.UsedSymbolsGetCodes` | ms_node/components/compression/huffman.c:193-276 | A symbol has a code length, of 1 to 32, exactly when it occurs |
| `HuffmanLengths.OptimalAmongKraft` | ms_node/components/compression/huffman.c:163-276 | The lengths minimise the total number of bits among all length tables that satisfy Kraft's inequality |
| `PrefixCodes.KraftInequality` | ms_node/components/compression/huffman.c:163-276 | Every prefix-free set of words satisfies Kraft's inequality, which is what optimality is measured against |
| `HuffmanTheorems.OptimalAmongPrefixCodes` | ms_node/components/compression/huffman.c:163-276 | No prefix code for the used symbols needs fewer bits than the computed lengths |
| `HuffmanTheorems.AtMostEightBitsPerByte` | ms_node/components/compression/huffman.c:163-276 | The encoded body is never longer than eight bits per input byte |
| `HuffmanDepth.MergeKeepsGraded` | ms_node/components/compression/huffman.c:150-161 | Merging the two smallest, the first one of equals, keeps every tree left in the forest at least as heavy as the children of each merged one, and heavier where the order of equals requires it |
| `HuffmanDepth.GradedWeight` | ms_node/components/compression/huffman.c:215-233 | A tree that keeps this, of height d, weighs at least Lightest(d) |
| `HuffmanDepth.LightestIsFib` | ms_node/components/compression/huffman.c:215-233 | Lightest(d) is 2 Fib(d + 1) - 1 from d = 2 on |
| `HuffmanDepth.DepthNeedsInput` | ms_node/components/compression/huffman.c:215-264 | A codeword of d bits needs at least Lightest(d) input bytes |
| `HuffmanDepth.SlowTableIsDeep` | ms_node/components/compression/huffman.c:215-264 | The bound is attained: for every d from 4 to 254, some table of Lightest(d) bytes, or of any greater number, gives a tree of height d |
| `HuffmanDepth.ShortInputsAreAccepted` | ms_node/components/compression/huffman.c:256-262 | The refusal of lengths over 32 cannot happen below 11,405,773 = 2 Fib(34) - 1 input bytes |
| `HuffmanDepth.RefusedFrom` | ms_node/components/compression/huffman.c:256-262 | Some table of n bytes is refused for a length over 32 if and only if n is at least 11,405,773 |
| `HuffmanBuild.PickMinNode` | ms_node/components/compression/huffman.c:150-161 | The result is the first living node of least frequency, and -1 exactly when no node lives |
| `HuffmanBuild.BuildCodeLengths` | ms_node/components/compression/huffman.c:163-276 | The lengths array is exactly the specified Huffman lengths, with the error for an empty table or a length over 32, and the maximum is an upper bound that is reported |
| `HuffmanBuild.MergeAll` | ms_node/components/compression/huffman.c:214-233 | The loop over the node and alive arrays leaves one living node that represents the specified tree |
| `HuffmanBuild.AssignLengths` | ms_node/components/compression/huffman.c:247-270 | The explicit-stack walk writes every leaf's depth, 0 for absent symbols, and the greatest depth, and refuses exactly when that is over 32 |
| `CanonicalCodes.CodeInterval` | ms_node/components/compression/huffman.c:307-319 | In a Kraft-feasible table the canonical code of a symbol is the start of its own dyadic interval, behind all shorter or earlier ones |
| `CanonicalCodes.CodeFits` | ms_node/components/compression/huffman.c:307-319 | Every canonical code fits its length, so no bit is lost in the 32-bit shift |
| `CanonicalCodes.CodewordsIncomparable` | ms_node/components/compression/huffman.c:307-319 | No canonical code is a prefix of another |
| `CanonicalCodes.SortIsUnique` | ms_node/components/compression/huffman.c:283-305 | The comparison is total on distinct symbols, so any sorting of the list gives the same order |
| `CanonicalCodes.BuildCanonicalCodes` | ms_node/components/compression/huffman.c:290-323 | For any length table the array gets the codes of section 3.2.2 of RFC 1951, cut to 32 bits; lengths over 32 and empty tables are refused |
| `DecodeTrie.InsertSymbol` | ms_node/components/compression/huffman.c:340-356 | Inserting a word makes the trie's nodes the prefixes of all words so far, with the symbol at the end of its own, and fails only when they do not fit |
| `DecodeTrie.BuildDecodeTree` | ms_node/components/compression/huffman.c:331-360 | The trie's nodes are exactly the distinct prefixes of the code words, each carries the symbol whose word it is, and building fails exactly when they do not fit |
| `TrieSize.CompleteTrieSize` | ms_node/components/compression/huffman.c:331-360 | A complete code for n symbols has exactly 2n - 1 distinct prefixes |
| `TrieSize.EncoderTrieFits` | ms_node/components/compression/huffman.c:331-360 | The trie of encoder lengths uses at most 511 nodes, so building it never runs out |
| `BitIO.TopByte` | ms_node/components/compression/huffman.c:105-116 | Taking the top eight bits out of the accumulator splits its bit string after eight bits |
| `BitIO.ShiftIn` | ms_node/components/compression/huffman.c:101-103 | Shifting a code in appends its bits, and no bit leaves the 64-bit accumulator |
| `BitIO.BitWriter.PutBits` | ms_node/components/compression/huffman.c:92-118 | The bits written so far are extended by exactly the code's bits, most significant first; at most 7 bits wait in the accumulator, and it fails only when the buffer is full |
| `BitIO.BitWriter.Flush` | ms_node/components/compression/huffman.c:120-129 | The waiting bits are padded with zeros to a whole byte |
| `BitIO.BitReader.GetBit` | ms_node/components/compression/huffman.c:138-148 | The bits come back in order, most significant first, and reading fails exactly at the end |
| `Endian.Le32RoundTrip` | ms_node/components/compression/huffman.c:71-83 | The least byte stands first, and reading undoes the writing of a 32-bit word |
| `HuffmanCodec.FrequenciesSum` | ms_node/components/compression/huffman.c:380-383 | The frequencies add up to the input length |
| `HuffmanCodec.OccurrencesCount` | ms_node/components/compression/huffman.c:380-383 | Each frequency is the number of times the byte occurs in the input |
| `HuffmanCodec.CountBytes` | ms_node/components/compression/huffman.c:380-383 | The counting loop computes how often each byte occurs |
| `HuffmanCodec.WriteHeader` | ms_node/components/compression/huffman.c:394-400 | Magic, length and the 256 lengths are written in front |
| `HuffmanCodec.FlushedIsPack` | ms_node/components/compression/huffman.c:402-414 | The bytes written by the bit writer are the packed concatenation of the codes |
| `HuffmanCodec.HuffmanCompress` | ms_node/components/compression/huffman.c:371-425 | The output is exactly header and packed code words, nothing behind it changes, and it fails exactly for empty input, over-long codes, lack of memory or lack of room |
| `HuffmanDecode.DecodeLoop` | ms_node/components/compression/huffman.c:482-506 | Walking the trie bit by bit decodes what the code table says, for any table and any bytes |
| `HuffmanDecode.HuffmanDecompress` | ms_node/components/compression/huffman.c:427-515 | For every input the result, data or error, is the specified one, and nothing is written behind the data, or behind the room on an error |
| `HuffmanDecode.Refusals` | ms_node/components/compression/huffman.c:427-480 | By the bytes of the header, in this order: under 264 bytes, magic, declared length over the room, lengths over 32, no length at all, no memory or more than 2048 trie nodes are refused, each with its error; else decoding decides |
| `HuffmanDecode.DecodeOutcome` | ms_node/components/compression/huffman.c:482-506 | For any table: decoding succeeds when the bits start with n codewords; it ends in InvalidSize when they end inside or in front of a codeword, and in Fail when they leave the codewords behind |
| `HuffmanDecode.DecodeEncoded` | ms_node/components/compression/huffman.c:482-506 | In a prefix-free code, decoding the concatenated words gives the symbols, whatever bits follow |
| `HuffmanDecode.CodecRoundTrip` | ms_node/components/compression/huffman.c:371-515 | Decompressing a compressed input with any bytes behind it gives the input, whenever compression succeeds and the room suffices |
| `HuffmanDecode.RoundTrip` | ms_node/components/compression/huffman.c:371-515 | The two functions one after the other restore the input in the output array |
| `HuffmanDecode.CompressedSize` | ms_node/components/compression/huffman.c:371-425 | A successful compression yields at most 264 + n bytes |
| `HuffmanDecode.ShortInputsCompress` | ms_node/components/compression/huffman.c:371-425 | Every non-empty input below 11,405,773 bytes compresses |
| `HuffmanDecode.RefusedLengths` | ms_node/components/compression/huffman.c:371-425 | Some input of n bytes does not compress, given memory and room, if and only if n is 0 or at least 11,405,773 |
| `HuffmanDecode.RefusedBecause` | ms_node/components/compression/huffman.c:371-392 | The empty input is refused as an invalid argument, any other one only as too long, for its codewords or itself |
| `HuffmanDecode.BoundSuffices` | ms_node/components/compression/huffman.c:362-369 | huffman_bound is enough for every input below 2^27 bytes, and is 264 + 4n exactly there |
| `HuffmanDecode.BoundWraps` | ms_node/components/compression/huffman.c:362-369 | At 2^27 bytes the 32-bit bound has wrapped to 264 |
| `MslgFormat.HeaderRoundTrip` | ms_node/components/storage_manager/storage_manager.c:60-71 | The readers see the written header fields again |
| `MslgFormat.HeaderLayout` | ms_node/components/storage_manager/storage_manager.c:60-71 | Every byte of the header by its offset, the fields no reader looks at included |
| `MslgFormat.FrontOfFile` | ms_node/components/storage_manager/storage_manager.c:735-846 | What the scan and a pop do with the front of any file, by its bytes: no header, no magic, a cut-off payload, no memory, or a whole chunk |
| `MslgFormat.FrontChunk` | ms_node/components/storage_manager/storage_manager.c:810-846 | At the front of a log a reader finds the first chunk's header and payload, and behind it the log of the others |
| `MslgFormat.ScanCountsChunks` | ms_node/components/storage_manager/storage_manager.c:735-755 | The header scan of a log counts its chunks |
| `MslgFormat.BatchOfLog` | ms_node/components/storage_manager/storage_manager.c:928-962 | On a log a batch takes whole chunks from the front, as many as asked for, present and allocatable, and leaves the log of the rest; the chunk whose allocation failed is kept |
| `MslgFormat.BatchRefinesSinglePops` | ms_node/components/storage_manager/storage_manager.c:777-1033 | A batch pop takes the same chunks and leaves the same file as that many single pops |
| `MslgFormat.BatchOfAnyFile` | ms_node/components/storage_manager/storage_manager.c:777-1033 | On any file the batch takes the chunks single pops take, and leaves the same rest if and only if it stopped at its limit, the end of the file or a failed allocation; otherwise it cuts off the whole damaged tail, or just 36 bytes without magic |
| `StorageManager.CountHeaders` | ms_node/components/storage_manager/storage_manager.c:727-755 | The scan loop computes the specified count on any file |
| `StorageManager.CopyTail` | ms_node/components/storage_manager/storage_manager.c:995-1009 | The 1024-byte block copy reproduces the tail exactly, or fails when a block cannot be written |
| `StorageManager.TakeBatch` | ms_node/components/storage_manager/storage_manager.c:928-962 | The read loop takes exactly the specified batch from any file |
| `StorageManager.CollectLog` | ms_node/components/storage_manager/storage_manager.c:562-640 | The decoding loop collects exactly the specified bytes from any file, and ends early at a chunk whose payload or decompression buffer cannot be allocated |
| `StorageManager.ReadFront` | ms_node/components/storage_manager/storage_manager.c:562-640 | What decoding makes of the front of any file, by its bytes: nothing of a chunk whose magic, length, checksum or decompressed length is wrong, or whose buffers are missing; else its data, and then what the rest gives |
| `StorageManager.ReadBack` | ms_node/components/storage_manager/storage_manager.c:562-640 | On a log of stored records the decoding gives the first bytes of their concatenation, up to the room and the first missing buffer, whichever mix of raw and compressed chunks was stored |
| `StorageManager.Storage.PurgeIfFull` | ms_node/components/storage_manager/storage_manager.c:109-150 | Without information, or for a size of 0, nothing changes; below 42,949,673 used bytes all data and the count are dropped if and only if 10 * used >= 9 * total |
| `StorageManager.WrappedUsage` | ms_node/components/storage_manager/storage_manager.c:114-117 | With q the number of times the 32-bit product 100 * used wraps, the store counts as nearly full if and only if 100 * used - q * 2^32 >= 90 * total; the product wraps exactly from 42,949,673 bytes on |
| `StorageManager.FullStoreIsMissed` | ms_node/components/storage_manager/storage_manager.c:114-117 | A full store of 42,949,673 bytes is not purged, one of a byte less is |
| `StorageManager.Storage.WriteMslgChunk` | ms_node/components/storage_manager/storage_manager.c:255-338 | The chunk is appended behind what the purges leave if and only if the write or its one retry after a purge succeeds, the count follows, and every failure leaves the log as it was; the log is purged exactly when the store is nearly full before the write or after a failed one |
| `StorageManager.Storage.WriteCompressed` | ms_node/components/storage_manager/storage_manager.c:485-534 | One chunk holding the data is appended: compressed if and only if that is enabled, 1024 bytes of stack are free, the data has at least 1024 bytes, a buffer and the compressor succeed, and header and payload become smaller by more than a twentieth; raw otherwise |
| `StorageManager.Storage.Clear` | ms_node/components/storage_manager/storage_manager.c:373-386 | The log is empty and the count 0 |
| `StorageManager.Storage.GetChunkCount` | ms_node/components/storage_manager/storage_manager.c:712-758 | The answer is the number of chunks, and the count is seeded, unless the lock is missed |
| `StorageManager.Storage.PopChunk` | ms_node/components/storage_manager/storage_manager.c:777-894 | Success takes exactly the first chunk off the log; every error, each with its own status, leaves log and count unchanged |
| `StorageManager.Storage.PopBatch` | ms_node/components/storage_manager/storage_manager.c:907-1033 | Success takes exactly the batch off the front; every error leaves the log unchanged; from a seeded count the count stays right, from -1 it becomes 0 |
| `StorageManager.Storage.ReadAllDecompressed` | ms_node/components/storage_manager/storage_manager.c:536-670 | The first max_len - 1 bytes of the decoded log are returned, with the errors for no room and no memory |
| `StorageManager.WriteThenRead` | ms_node/components/storage_manager/storage_manager.c:485-652 | Records stored one after the other, empty ones included, are read back as the first bytes of their concatenation, up to the first missing buffer, given a codec that undoes itself |
| `StorageManager.RunKeepsCount` | ms_node/components/storage_manager/storage_manager.c:331-1026 | After any sequence of writes, pops, batch pops, purges, clears and counts from a seeded count, the cached count equals the number of chunks a scan finds |
| `Drain.WriteRecord` | ms_node/components/storage_manager/storage_manager.c:485-534 | In terms of records, a write appends its text to what its purges leave, or leaves just that, exactly as lock, file and usage decide; a calm one appends the text in the form that size, flags and compressor call for |
| `Drain.StateMachine.Requeue` | ms_node/main/state_machine.c:1041-1128 | Any popped chunks are put back in order, each as the string found in its buffer, purges and failed writes included; calm writes store each raw or compressed as the time limit and its size call for |
| `Drain.StateMachine.RequeueFailed` | ms_node/main/state_machine.c:1108-1128 | After a failed send the chunk itself goes back as the string found in the data that was sent, the others as before |
| `Drain.StateMachine.SendBatch` | ms_node/main/state_machine.c:1036-1130 | Exactly the records in front of the first late, undecodable or unsent chunk are handed to acknowledged sends, in order, and the others are put back |
| `Drain.StateMachine.DrainPass` | ms_node/main/state_machine.c:1022-1139 | Of a log L and k = min(24, |L|), a pass delivers the records L[..j] and leaves L[k..] followed by the texts put back for L[j..k], under every pattern of sends, deadline, decompression, memory contents, failed writes and purges; with calm writes also in which form each text is stored |
| `Drain.PutPayloadForms` | ms_node/main/state_machine.c:1041-1083 | Put back for lack of time, only chunks that were compressed may be compressed again; put back undecoded, all may |
| `Drain.FailedForms` | ms_node/main/state_machine.c:1108-1128 | After a failed send decompressed data goes back raw, and everything else may be compressed |
| `Drain.TextKeptIff` | ms_node/main/state_machine.c:1045-1047 | The string found in a popped buffer is its contents if and only if these hold no NUL and a NUL follows in memory |
| `Drain.PassRotatesIff` | ms_node/main/state_machine.c:1022-1139 | When the writes succeed without a purge, the log afterwards is L[k..] + L[j..k] if and only if each unsent record is found again in its buffer |
| `Drain.TextPassRotatesIff` | ms_node/main/state_machine.c:1022-1139 | Over the firmware's own short records that is so if and only if a NUL follows each of these buffers |
| `Drain.CompressedIsNotFound` | ms_node/main/state_machine.c:1045-1047 | A compressed chunk that is put back as stored, with a NUL behind it, is never the record again |
| `Drain.PassConserves` | ms_node/main/state_machine.c:1022-1139 | Delivered, logged and dropped records and those put back account for the log before the pass and the texts put back, under all writes and purges |
| `Dedup.StepKeepsValid` | ms_node/main/esp_now_manager.c:49-105 | Every packet keeps at most 8 nodes, all distinct, with at most 32 distinct numbers each |
| `Dedup.AddIsPush` | ms_node/main/esp_now_manager.c:97-102 | Writing at the ring index and advancing it pushes the number and drops the oldest of 32 |
| `Dedup.RingMembers` | ms_node/main/esp_now_manager.c:89-95 | The check loop over the first count slots sees exactly the ring |
| `Dedup.DedupTable.FindOldest` | ms_node/main/esp_now_manager.c:71-78 | The evicted entry is the first one of oldest last packet |
| `Dedup.DedupTable.TouchNode` | ms_node/main/esp_now_manager.c:53-87 | The node's entry is refreshed, added, or put in place of the oldest |
| `Dedup.DedupTable.ShouldStore` | ms_node/main/esp_now_manager.c:49-105 | Table and answer are those of the specified step |
| `DedupRuns.NeverRejectsNew` | ms_node/main/esp_now_manager.c:204-236 | A rejected pair has passed before: no new reading is ever dropped as a duplicate |
| `DedupRuns.EvictionNeedsEight` | ms_node/main/esp_now_manager.c:70-86 | A node loses its entry only after eight other nodes were heard since its last packet |
| `DedupRuns.Tracking` | ms_node/main/esp_now_manager.c:49-105 | From the packet that passes on, the number is remembered until 32 others passed, or the node lost its entry with eight others heard since its last packet |
| `DedupRuns.PassesTwice` | ms_node/main/esp_now_manager.c:49-105 | If a pair passes twice, then in between 32 other numbers of the node passed, or the node lost its entry with eight others heard since its last packet |
| `DedupRuns.WindowIsTight` | ms_node/main/esp_now_manager.c:30-31 | After exactly 32 other numbers the same number does pass again |
| `Pipeline.StepConserves` | ms_node/components/storage_manager/storage_manager.c:20-33 | Every step of any task keeps appended + garbled = acknowledged + in hand + logged + lost |
| `Pipeline.StoreAndForward` | ms_node/main/state_machine.c:1022-1139 | Over every interleaving of appends, pops, sends, put-backs, purges and receptions the accounts balance, and every acknowledged record arrived at the head |
| `Pipeline.HeadHolds` | ms_node/main/esp_now_manager.c:204-353 | The head's log holds exactly the records whose packet passed the filter, found the role flag set and was written, with no purging write since |
| `Pipeline.StoredIff` | ms_node/main/esp_now_manager.c:204-353 | A reading, acknowledged or not, is in the head's log if and only if such a packet of it exists |
| `Pipeline.FirstDecides` | ms_node/main/esp_now_manager.c:204-353 | While the filter remembers a reading, only its first copied packet passes, so its role check and its write alone decide whether the reading is ever stored |
| `Pipeline.AckedButNowhere` | ms_node/main/esp_now_manager.c:225-236 | A run in which a reading is acknowledged and in neither log: its first packet passed the filter while the role flag was not set, and the retransmission was rejected |
| `Pipeline.AckedIsCarried` | ms_node/main/esp_now_manager.c:204-353 | At a head that always finds its role, memory and room, every acknowledged reading is in the head's log |
| `Pipeline.LoggedOrCarried` | ms_node/main/state_machine.c:1022-1139 | When moreover nothing is lost, every record is in the member's log, in the drain's hand, or carried in the head's log |
| `Pipeline.UndisturbedPass` | ms_node/main/state_machine.c:1022-1139 | The step machine can do every undisturbed pass, fully acknowledged ones included, with any put-back texts and write outcomes |
| `Network.PassIsRun` | ms_node/main/state_machine.c:1022-1139 | The drain method, run in one go, does a run of the step machine |
| `Network.Head.Process` | ms_node/main/esp_now_manager.c:263-353 | Filter, role check and write on the real table and log change them as the step machine's packet says, which records time, memory, mutex, role and the outcome of the write as they were met |
| `Network.Cluster.PopSome` | ms_node/main/state_machine.c:1033-1034 | The batch pop is the step machine's pop of as many records as fit, when the lock is free, there are some and the rest can be copied, and no step otherwise |
| `Network.Cluster.SendNext` | ms_node/main/state_machine.c:1039-1109 | At the next chunk the send is acknowledged and the head processes the record if and only if time is left, the chunk can be decompressed and the send succeeds; otherwise the drain stops, and goes on with the put-backs of that case |
| `Network.Cluster.PutBackNext` | ms_node/main/state_machine.c:1041-1128 | The next write of a requeue loop is a put-back step with the text found in the buffer, of the sent data after a failed send, in the form that case allows |
| `Network.Cluster.Perform` | ms_node/components/storage_manager/storage_manager.c:20-33 | Each call is a run of exactly one step where the drain is at its point and of none elsewhere, keeps log, hand, table and head log matched, and is acknowledged exactly when it has to be; a safe call loses nothing |
| `Network.RunSchedule` | ms_node/components/storage_manager/storage_manager.c:20-33 | Any schedule of calls on the real logs and table is a run of the step machine, and what was written is acknowledged, in hand, in the member's log or lost, plus what was put back changed; safe calls lose and change nothing |
| `Network.NothingIsLost` | ms_node/main/state_machine.c:1022-1139 | After safe calls and good receptions every record the schedule wrote is in one of the two logs or in the hand |
| `Pareto.ParetoDominates` | ms_node/main/election.c:90-104 | The loop decides domination: nowhere worse and somewhere better |
| `Pareto.ComputeParetoFrontier` | ms_node/main/election.c:110-129 | Flags mark exactly the undominated candidates, ranks count the dominated ones, nothing else changes |
| `Pareto.DominatedByFrontier` | ms_node/main/election.c:110-129 | Every candidate off the frontier is dominated by one on it |
| `Pareto.FrontierNotEmpty` | ms_node/main/election.c:110-129 | A non-empty list has a frontier |
| `Nash.NashProduct` | ms_node/main/election.c:152-172 | A candidate is valid if and only if its four utilities are above 0.1, and its product is then the sum of weight times logarithm of the surplus, metric by metric |
| `Nash.NashBargainingSelection` | ms_node/main/election.c:142-190 | The winner is the running pick over the acceptable frontier candidates |
| `Nash.Elect` | ms_node/main/election.c:391-425 | Of plausible candidates 0 is elected if and only if there are none, and else the id of one that no other candidate is better than, a single candidate included; ids, utilities and scores stay as they were |
| `Nash.WinnerIsUndominated` | ms_node/main/election.c:345-425 | That holds for every list, of one candidate or of more with their flags set |
| `Nash.BestBargainWins` | ms_node/main/election.c:391-425 | When an undominated candidate has all utilities above 0.1, one of these is elected, and its log product is at most one tolerance per candidate below that of any other |
| `Nash.BestScoreWins` | ms_node/main/election.c:391-425 | When there is none, an undominated candidate is elected whose score is at most one tolerance per candidate below that of any other |
| `Nash.PickWithinTolerance` | ms_node/main/election.c:174-182 | In general the winner is at most one tolerance per candidate below the best value |
| `Nash.BestIsKept` | ms_node/main/election.c:174-182 | The loop picks the lowest id of the greatest value, unless a lower id stands within the tolerance of that value |
| `Nash.OrderFreeIff` | ms_node/main/election.c:174-182 | All orderings of a list pick the same id if and only if no lower id stands within the tolerance of the best value |
| `Nash.SeparatedIsOrderFree` | ms_node/main/election.c:174-182 | Values that are equal or a tolerance apart are such a list |
| `Nash.ElectionOrderFreeIff` | ms_node/main/election.c:391-425 | The election gives the same head for every order of the candidates if and only if no lower id stands within the tolerance of the best deciding value, log product or fallback score |
| `Nash.ReorderedFlagged` | ms_node/main/election.c:110-129 | Reordering the candidates gives each the same frontier flag and rank |
| `Nash.TwoNodesDisagree` | ms_node/main/election.c:391-425 | Two nodes that hold the same two candidates in different order, with the same weights, elect different heads |
| `Nash.WinnerOnFrontier` | ms_node/main/election.c:391-425 | The elected node is on the frontier, it is the pick over the deciding list, and the last fallback is never reached |
| `Nash.FrontierKeepsMaximum` | ms_node/main/election.c:142-190 | Restricting the Nash product to the frontier does not lower its maximum, for non-negative weights and an increasing logarithm |
| `Nash.NodesAgree` | ms_node/main/election.c:391-425 | Two nodes with the same candidates, in any order and with any scores, and the same weights elect the same head, unless a lower id stands within the tolerance of the best log product |
| `Conflict.HeadMustYield` | ms_node/main/election.c:540-622 | The head yields if and only if its battery is below 0.2 and a verified member of the cluster has 0.2 or leads by more than 0.05, its trust or link quality is below 0.2, or a verified head is better by more than 0.01, or not worse by more than that and of lower id |
| `Conflict.HealthyHeadYields` | ms_node/main/election.c:580-621 | For a healthy head that sees all the others, the loop's answer is the relation between the heads |
| `Conflict.OneOfTwoYields` | ms_node/main/election.c:580-621 | Of two heads that see each other exactly one yields |
| `Conflict.AtMostOneStays` | ms_node/main/election.c:580-621 | Of any number of heads at most one does not yield |
| `Conflict.OneStaysIff` | ms_node/main/election.c:580-621 | Exactly one head stays if and only if no head of lower id comes close enough to the champion, the lowest id near the top score, to be tied with it |
| `Conflict.SeparatedLeavesOne` | ms_node/main/election.c:580-621 | With scores equal or more than 0.01 apart exactly one stays: the best score, then the lowest id |
| `Conflict.TwoHeadsLeaveOne` | ms_node/main/election.c:580-621 | Two heads leave exactly one, however close their scores are |
| `Conflict.ThreeHeadsCanAllYield` | ms_node/main/election.c:580-621 | Three heads with scores in steps below the margin can all yield |
| `Weights.NormalizeConfidence` | ms_node/main/metrics.c:520-547 | Normalised positive confidences lie on the simplex and keep the ratios of the exponentials |
| `Weights.ProjectOntoSimplex` | ms_node/main/metrics.c:583-600 | The two loops leave weights of sum 1 in the ratios of the old ones, those below 0.05 raised to it |
| `Weights.StellarWeights.Update` | ms_node/main/metrics.c:603-658 | For confidences on the simplex the targets sum to 1 in the ratios of 0.3, 0.2, 0.3, 0.2, each times 0.875 + half of its own confidence, and each settled weight moves by 0.05 of its distance to the target and 0.005 of that to its base weight |
| `Weights.TargetRatios` | ms_node/main/metrics.c:613-633 | So do the specified targets |
| `Weights.ConfidenceRaisesTarget` | ms_node/main/metrics.c:613-633 | Raising one confidence at the expense of others raises the target of the same metric |
| `Weights.TargetSettled` | ms_node/main/metrics.c:613-633 | For confidences on the simplex the target sums to 1 with no weight below 0.17, and its clamp changes nothing |
| `Weights.UpdateKeepsSettled` | ms_node/main/metrics.c:635-658 | An update keeps sum 1 and every weight at 0.17 or more; clamping and renormalising never change anything |
| `Weights.RunUpdates` | ms_node/main/metrics.c:603-658 | So do all updates from the initial weights, for any confidences |
| `Weights.Convergence` | ms_node/main/metrics.c:635-655 | For a fixed target the distance to the limit shrinks by 0.945 with every gradient step |
| `Weights.WeightsConverge` | ms_node/main/metrics.c:603-658 | So do the real weights, projection included, while the confidences stay the same |
| `SiblingList.GetArrayItem` | ms_node/managed_components/espressif__cjson/cJSON/cJSON.c:1907-1924 | The walk gives the child at the index, or null past the end |
| `SiblingList.GetArraySize` | ms_node/managed_components/espressif__cjson/cJSON/cJSON.c:1884-1905 | The walk counts the children modulo 2^32 and casts the count to int, so it is exact if and only if there are fewer than 2^31, and off by a multiple of 2^32 otherwise |
| `SiblingList.AddItemToArray` | ms_node/managed_components/espressif__cjson/cJSON/cJSON.c:2012-2043 | The item goes behind the child the first prev points to, and what followed that child is cut off; it appends if and only if that child is the last one, and a null first prev adds nothing; the links are well formed afterwards |
| `SiblingList.DetachItemViaPointer` | ms_node/managed_components/espressif__cjson/cJSON/cJSON.c:2243-2277 | Exactly the item is taken out, unlinked and returned; an unlinked item is refused; the list stays well linked |
| `SiblingList.DetachItemFromArray` | ms_node/managed_components/espressif__cjson/cJSON/cJSON.c:2279-2287 | The child at the index is taken out |
| `SiblingList.InsertItemInArray` | ms_node/managed_components/espressif__cjson/cJSON/cJSON.c:2319-2351 | The item is inserted before the child at the index, or appended past the end, and the list stays well linked |
| `SiblingList.ReplaceItemViaPointer` | ms_node/managed_components/espressif__cjson/cJSON/cJSON.c:2353-2400 | The replacement takes the item's place, also in lists of one or two children; replacing an item by itself changes nothing |
| `SiblingList.ReplaceItemInArray` | ms_node/managed_components/espressif__cjson/cJSON/cJSON.c:2402-2410 | The child at the index is replaced |
| `SiblingList.Bypass` | ms_node/managed_components/espressif__cjson/cJSON/cJSON.c:2250-2274 | What the pointer surgery of a detachment does to each neighbour's links |
| `SiblingList.BypassedDetaches` | ms_node/managed_components/espressif__cjson/cJSON/cJSON.c:2250-2274 | That surgery leaves a well-linked list of the other children |
| `SiblingList.SplicedInserts` | ms_node/managed_components/espressif__cjson/cJSON/cJSON.c:2019-2042 | Linking a node in before child k, or at the end, leaves a well-linked list with the node at k |
| `SiblingList.SwappedReplaces` | ms_node/managed_components/espressif__cjson/cJSON/cJSON.c:2365-2397 | The surgery of a replacement leaves a well-linked list with the new node at k |
| `SiblingList.PerformAll` | ms_node/managed_components/espressif__cjson/cJSON/cJSON.c:2012-2410 | Over any sequence of additions, insertions, detachments and replacements the heap list implements the sequence of children |
| `JsonStrings.DecodePrinted` | ms_node/managed_components/espressif__cjson/cJSON/cJSON.c:819-1068 | Decoding the printed body of a NUL-free string gives the string (section 7 of RFC 8259) |
| `JsonStrings.ScanPrinted` | ms_node/managed_components/espressif__cjson/cJSON/cJSON.c:832-854 | The scan finds the closing quote of a printed string, whatever follows |
| `JsonStrings.StepFits` | ms_node/managed_components/espressif__cjson/cJSON/cJSON.c:856-916 | Each decoded character or escape uses up at least as much of the size estimate as it writes |
| `JsonStrings.DecodeFits` | ms_node/managed_components/espressif__cjson/cJSON/cJSON.c:832-920 | On any body, well formed or not, the decoded bytes fit the estimate |
| `JsonStrings.Utf8RoundTrip` | ms_node/managed_components/espressif__cjson/cJSON/cJSON.c:762-810 | Every code point gets the UTF-8 bytes that stand for it (section 3 of RFC 3629) |
| `JsonStrings.SurrogateRoundTrip` | ms_node/managed_components/espressif__cjson/cJSON/cJSON.c:724-748 | A surrogate pair stands for the code point it was made from |
| `JsonStrings.BadHexIsNul` | ms_node/managed_components/espressif__cjson/cJSON/cJSON.c:661-695 | An escape with a wrong hexadecimal digit decodes to a NUL byte |
| `JsonStrings.UnitDecodes` | ms_node/managed_components/espressif__cjson/cJSON/cJSON.c:698-816 | An escaped code unit that is no surrogate, with digits in either case, gives the shortest UTF-8 sequence of its code point and takes six characters |
| `JsonStrings.PairDecodes` | ms_node/managed_components/espressif__cjson/cJSON/cJSON.c:698-816 | The escaped surrogate pair of a code point gives its UTF-8 sequence and takes twelve characters |
| `JsonStrings.BrokenPairIsRefused` | ms_node/managed_components/espressif__cjson/cJSON/cJSON.c:724-748 | A low surrogate in front, or a high one without a low one right behind it, is refused |
| `JsonStrings.LetterDecodes` | ms_node/managed_components/espressif__cjson/cJSON/cJSON.c:866-916 | Any other character is taken as it is; of the escapes without u exactly the eight of the RFC are accepted, the solidus among them |
| `JsonLiterals.ScanIff` | ms_node/managed_components/espressif__cjson/cJSON/cJSON.c:832-854 | The scan ends at the first quote with an even number of backslashes in front of it, and fails when there is none |
| `JsonLiterals.StepIff` | ms_node/managed_components/espressif__cjson/cJSON/cJSON.c:856-916 | Exactly which characters and escapes are decoded, to what and over how many characters |
| `JsonLiterals.LiteralIff` | ms_node/managed_components/espressif__cjson/cJSON/cJSON.c:819-946 | A string is read if and only if the text starts with a literal for it: unescaped closing quote, accepted pieces only, cut at the first NUL |
| `ParseStrings.ParseHex4` | ms_node/managed_components/espressif__cjson/cJSON/cJSON.c:661-695 | The loop computes the value of four hexadecimal digits, 0 when one is wrong |
| `ParseStrings.EncodeUtf8` | ms_node/managed_components/espressif__cjson/cJSON/cJSON.c:762-810 | The backward loop writes the UTF-8 form |
| `ParseStrings.Utf16LiteralToUtf8` | ms_node/managed_components/espressif__cjson/cJSON/cJSON.c:698-816 | Escape or surrogate pair are decoded to their bytes, and refused exactly when the pair is broken or cut off |
| `ParseLiteral.ScanLiteral` | ms_node/managed_components/espressif__cjson/cJSON/cJSON.c:832-854 | The loop finds the closing quote and counts the escape pairs in front of it |
| `ParseLiteral.DecodeAll` | ms_node/managed_components/espressif__cjson/cJSON/cJSON.c:856-923 | The decoding loop writes exactly the decoded bytes into a buffer of the estimated size, never past it |
| `PrintBuffers.PrintBuffer.PrintStringPtr` | ms_node/managed_components/espressif__cjson/cJSON/cJSON.c:949-1068 | The literal is written with exactly the counted length, in the plain and in the escaping branch |
| `PrintBuffers.CountEscapes` | ms_node/managed_components/espressif__cjson/cJSON/cJSON.c:976-1000 | The escape count is exactly what printing adds to the length |
| `ParseBuffers.ParseBuffer.SkipWhitespace` | ms_node/managed_components/espressif__cjson/cJSON/cJSON.c:1085-1108 | White space is skipped; at the end of the buffer the offset steps back by one |
| `ParseBuffers.ParseBuffer.ParseString` | ms_node/managed_components/espressif__cjson/cJSON/cJSON.c:819-946 | String and new offset are the specified ones, or it fails |
| `ParseBuffers.ParseBuffer.ParseNumber` | ms_node/managed_components/espressif__cjson/cJSON/cJSON.c:307-408 | The run of number characters is handed to strtod, and the offset moves by what that took |
| `ParseBuffers.ParseBuffer.ParseValue` | ms_node/managed_components/espressif__cjson/cJSON/cJSON.c:1363-1415 | Value, offset and restored depth are those of the grammar function, on every text |
| `ParseBuffers.ParseBuffer.ParseArray` | ms_node/managed_components/espressif__cjson/cJSON/cJSON.c:1492-1587 | The element loop reads exactly the specified array |
| `ParseBuffers.ParseBuffer.ParseObject` | ms_node/managed_components/espressif__cjson/cJSON/cJSON.c:1652-1767 | The member loop reads exactly the specified object |
| `ParseBuffers.ParseWithLengthOpts` | ms_node/managed_components/espressif__cjson/cJSON/cJSON.c:1111-1200 | A whole text is parsed as specified, with or without the check for a NUL behind the value |
| `JsonGrammar.ReadsIff` | ms_node/managed_components/espressif__cjson/cJSON/cJSON.c:1363-1767 | For every text, reading yields a value and a rest if and only if the text spells the value by the grammar, with white space and control characters between the tokens, in front of the rest, and it nests within what is left of the 1000 levels |
| `JsonGrammar.DocumentIff` | ms_node/managed_components/espressif__cjson/cJSON/cJSON.c:1111-1200 | The same for whole texts, behind a byte order mark and white space, with nothing but white space up to a final NUL behind when that is asked for |
| `PrintBuffers.PrintBuffer.Ensure` | ms_node/managed_components/espressif__cjson/cJSON/cJSON.c:485-568 | Room is made, keeping what was written, if and only if the buffer has it or may grow, the allocator can provide twice the room asked for, or INT_MAX where that is too much, and the total is no more than INT_MAX |
| `PrintBuffers.PrintBuffer.UpdateOffset` | ms_node/managed_components/espressif__cjson/cJSON/cJSON.c:571-581 | The offset moves exactly behind the text |
| `PrintBuffers.PrintBuffer.PrintNumber` | ms_node/managed_components/espressif__cjson/cJSON/cJSON.c:591-658 | The number text stands behind the offset; more than 25 characters are refused |
| `PrintBuffers.PrintBuffer.PrintValue` | ms_node/managed_components/espressif__cjson/cJSON/cJSON.c:1418-1489 | Exactly the specified text of the value is appended to what was written, NUL-terminated; it succeeds whenever text and two more characters fit |
| `PrintBuffers.PrintBuffer.PrintArray` | ms_node/managed_components/espressif__cjson/cJSON/cJSON.c:1590-1649 | The same for arrays |
| `PrintBuffers.PrintBuffer.PrintObject` | ms_node/managed_components/espressif__cjson/cJSON/cJSON.c:1770-1880 | The same for objects, compact or formatted |
| `PrintedText.PrintedIsText` | ms_node/managed_components/espressif__cjson/cJSON/cJSON.c:1418-1489 | No printed text contains a NUL, so strlen measures it |
| `PrintedText.StringLayout` | ms_node/managed_components/espressif__cjson/cJSON/cJSON.c:949-1068 | A printed string is the texts of its characters between quotes: a letter escape, u00 with two lower-case digits, or the character itself |
| `PrintedText.NumberLayout` | ms_node/managed_components/espressif__cjson/cJSON/cJSON.c:591-658 | A number that is a 32-bit integer is printed as its shortest decimal numeral, any other one as the writer has it |
| `PrintedText.ArrayLayout` | ms_node/managed_components/espressif__cjson/cJSON/cJSON.c:1590-1649 | A printed array is the texts of its elements, separated by commas, or by commas and blanks |
| `PrintedText.ObjectLayout` | ms_node/managed_components/espressif__cjson/cJSON/cJSON.c:1770-1880 | Formatted, a printed object is one line for each member, key, colon, tab, value and comma, indented by one tab more than the closing brace |
| `PrintedText.CompactLayout` | ms_node/managed_components/espressif__cjson/cJSON/cJSON.c:1770-1880 | Compact, it is the keys, colons and values separated by commas |
| `JsonPrinter.Print` | ms_node/managed_components/espressif__cjson/cJSON/cJSON.c:1234-1297 | The text is delivered, and always is when memory suffices |
| `JsonPrinter.PrintPreallocated` | ms_node/managed_components/espressif__cjson/cJSON/cJSON.c:1343-1360 | Printing succeeds if and only if the buffer has one character to spare behind text and NUL, and then holds the text |
| `JsonRoundTrip.StringBack` | ms_node/managed_components/espressif__cjson/cJSON/cJSON.c:819-1068 | Reading a printed string gives the string and the text behind it |
| `JsonRoundTrip.NumberBack` | ms_node/managed_components/espressif__cjson/cJSON/cJSON.c:307-408 | Reading a printed number gives the number, when the C library reads back what it writes |
| `JsonRoundTrip.ValueBack` | ms_node/managed_components/espressif__cjson/cJSON/cJSON.c:1363-1880 | Inside any text, reading a printed value gives the value and the text behind it if it nests within the limit, and fails otherwise |
| `JsonRoundTrip.PrintThenParse` | ms_node/managed_components/espressif__cjson/cJSON/cJSON.c:1363-1880 | Printing, formatted or not, and then parsing is the identity if and only if the value nests at most 1000 deep |
| `JsonRoundTrip.DocumentRoundTrip` | ms_node/managed_components/espressif__cjson/cJSON/cJSON.c:1142-1200 | The same for whole NUL-terminated documents |
| `JsonClient.PrintAndParse` | ms_node/managed_components/espressif__cjson/cJSON/cJSON.c:1142-1360 | Whatever the modelled printer delivers, the modelled parser reads as the same value again, or refuses it as too deep |
| `JsonAccepted.ParsedIsProper` | ms_node/managed_components/espressif__cjson/cJSON/cJSON.c:1363-1767 | Every value read from any text has NUL-free strings and keys and nests within the limit that is left |
| `JsonAccepted.ParsePrintParse` | ms_node/managed_components/espressif__cjson/cJSON/cJSON.c:1142-1880 | Parsing any accepted text, printing the value, formatted or not, and parsing that gives the first value again, when its numbers are read back exactly |
| `PointerTokens.EscapeRoundTrip` | ms_node/managed_components/espressif__cjson/cJSON/cJSON_Utils.c:173-195 | Unescaping undoes escaping (section 3 of RFC 6901) |
| `PointerTokens.EscapeInjective` | ms_node/managed_components/espressif__cjson/cJSON/cJSON_Utils.c:173-195 | Different names get different tokens |
| `PointerTokens.EscapeOf` | ms_node/managed_components/espressif__cjson/cJSON/cJSON_Utils.c:173-195 | Names are escaped character by character: ~ as ~0, / as ~1, everything else as itself |
| `PointerTokens.UnescapeIff` | ms_node/managed_components/espressif__cjson/cJSON/cJSON_Utils.c:120-155 | A token without slash stands for a name if and only if it is that name escaped; all others are invalid |
| `PointerTokens.EscapeSlashFree` | ms_node/managed_components/espressif__cjson/cJSON/cJSON_Utils.c:173-195 | A token contains no slash |
| `PointerTokens.PointerEncodedLength` | ms_node/managed_components/espressif__cjson/cJSON/cJSON_Utils.c:157-170 | The length is that of the escaped name |
| `PointerTokens.EncodeStringAsPointer` | ms_node/managed_components/espressif__cjson/cJSON/cJSON_Utils.c:173-195 | Exactly the escaped name and its NUL are written, nothing else changes |
| `PointerTokens.ComparePointers` | ms_node/managed_components/espressif__cjson/cJSON/cJSON_Utils.c:120-155 | A name matches if and only if the token is valid and stands for it, up to case when asked for; a missing name never matches |
| `PointerTokens.MatchesIff` | ms_node/managed_components/espressif__cjson/cJSON/cJSON_Utils.c:120-155 | A token matches if and only if it is an alike name escaped |
| `PointerTokens.AlikeIff` | ms_node/managed_components/espressif__cjson/cJSON/cJSON_Utils.c:120-155 | Names are alike when they are equal, or, with case ignored, equal up to the two cases of each letter |
| `PointerTokens.DecodeArrayIndex` | ms_node/managed_components/espressif__cjson/cJSON/cJSON_Utils.c:274-299 | Digits without leading zero are read as a 32-bit index, everything else is refused |
| `PointerTokens.IndexRoundTrip` | ms_node/managed_components/espressif__cjson/cJSON/cJSON_Utils.c:228-235 | Every index below 2^32 is printed and read back |
| `PointerTokens.IndexExactIff` | ms_node/managed_components/espressif__cjson/cJSON/cJSON_Utils.c:274-299 | The decoded index is the token's value if and only if that fits 32 bits |
| `PointerTokens.IndexIff` | ms_node/managed_components/espressif__cjson/cJSON/cJSON_Utils.c:274-299 | Exactly the tokens of decimal digits without a leading zero are indices, taken modulo 2^32 |
| `PointerTokens.EmptyTokenIsZero` | ms_node/managed_components/espressif__cjson/cJSON/cJSON_Utils.c:274-299 | The empty token means index 0 |
| `JsonPointer.JoinMember` | ms_node/managed_components/espressif__cjson/cJSON/cJSON_Utils.c:238-249 | Slash, escaped name and the rest are joined in a buffer that just holds them |
| `JsonPointer.FindPointerFromObjectTo` | ms_node/managed_components/espressif__cjson/cJSON/cJSON_Utils.c:198-259 | The loop and recursion find the specified pointer to the first node with the address |
| `JsonPointer.GetItemFromPointer` | ms_node/managed_components/espressif__cjson/cJSON/cJSON_Utils.c:301-346 | The loop over the tokens leads where the specification says, for every pointer |
| `JsonPointer.FollowIff` | ms_node/managed_components/espressif__cjson/cJSON/cJSON_Utils.c:301-346 | A pointer leads to a node if and only if its first token is the index of a child of an array, or denotes a child of an object and none before it, and the rest leads on from there; below a scalar nothing is found |
| `JsonPointer.FindThenFollow` | ms_node/managed_components/espressif__cjson/cJSON/cJSON_Utils.c:198-346 | The pointer exists exactly when the node does, and following it leads to the node |
| `JsonPointer.EveryNodeIsReached` | ms_node/managed_components/espressif__cjson/cJSON/cJSON_Utils.c:198-346 | In a tree whose sibling keys differ, every node is what its own pointer evaluates to |
| `JsonPointer.MemberReachedIff` | ms_node/managed_components/espressif__cjson/cJSON/cJSON_Utils.c:301-346 | A member's pointer leads to it if and only if no earlier sibling has an alike name, with or without case |
| `JsonPointer.NoSlashIsRoot` | ms_node/managed_components/espressif__cjson/cJSON/cJSON_Utils.c:301-346 | A pointer that does not start with a slash leads to the whole document |
| `JsonDocument.SameNumberSameNode` | ms_node/managed_components/espressif__cjson/cJSON/cJSON_Utils.c:198-235 | In the tree built for a value, nodes numbered in document order have different numbers |
| `JsonDocument.PointerIntoDocument` | ms_node/managed_components/espressif__cjson/cJSON/cJSON_Utils.c:198-346 | In the document parsed from any accepted text whose objects have no two alike keys, the pointer built for a node exists and evaluates to the node |

## Left out

- Null pointer arguments of the codec, storage and election functions; the sibling list keeps them as nullable references.
- Sensors, battery ADC, BLE, Wi-Fi, HTTP, LED, NVS and logging code: hardware and foreign calls.
- miniz and CRC-32 are parameters: a codec whose decompression undoes its compression, and any checksum function.
- Clocks, radio results, mutex timeouts, allocation and file-system failures are parameters; partial writes and failed
  renames are not modelled.
- Frames other than stored records: status, schedule and binary sensor frames, compressed frames, and trust updates.
- An acknowledged send means that the head processed the frame once; further copies of it are frames of their own.
- The head's own readings, the collection of its log, and the reset of the filter when the radio is restarted.
- Pipeline.FirstDecides: excludes frames that meet a busy mutex, which the code lets through without the filter.
- The plain-text queue functions, usage statistics and data.txt of the storage manager.
- exp, log, tanh and rounding: exponentials are positive inputs, the logarithm is any function (increasing where stated),
  floats are reals.
- The Lyapunov value, the convergence flag, the utility functions and the building of the candidate list.
- The member branch of the re-election check and the legacy election.
- Slot exclusivity between members: the receiver restarts each slot when the message arrives.
- Overlapping input and output buffers of the codec.
- JsonTree.ValueInt: the integer field of a number is taken to be the saturated number, as the constructors set it.
- Numbers beyond 32-bit integers go through parameters for printf and strtod; NaN and infinity are not reals. A strtod
  that claims to have read more than it was given is treated as a failure.
- Strings and keys that are null pointers, raw items, and printing with allocation hooks but without realloc.
- JsonStrings.PrintChars: lengths are unbounded, so the 32-bit overflow of the escape count is not modelled.
- The error position after a failed parse, and allocation failures inside the parser.
- Deleting and duplicating trees, references to items, and the case-insensitive object lookup of cJSON.c.
- SiblingList.DetachItemViaPointer: an item that is linked into another list is outside the caller's contract.
- SiblingList.ReplaceItemViaPointer: an item that is no child of the parent is outside the caller's contract.
- SiblingList.InsertItemInArray: detaching, inserting and replacing take a first prev at the last child or null; only
  appending and the walks cover one at an inner child. The merge sort of object members itself is not modelled.
- JsonPointer.FindPointerFromObjectTo: works on trees as values with node addresses, and members of objects have names;
  the list walk itself is in SiblingList.
- Minify, JSON Patch, merge patch and pointer decoding in place.
