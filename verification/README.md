# Verified cores of bongos

A Dafny model of the pure cores of the bongos operating system: the parts of its kernel, boot code and
libraries that work on fixed-size state without touching hardware. Each core keeps the form of the C code it
models. Structures that the C code updates in place are classes with the same fields, loops are loops, and every
operation is proved against a specification that is stated without reference to how the operation works. The main
results are theorems about those specifications.

Check the project with `dafny verify dfyconfig.toml`.

## What is proved

- **Compression** (`Bits`, `Huffman`, `HuffmanComplete`, `DeflateFormat`, `DeflateTables`, `InflateSpec`, `Inflate`,
  `Deflate`, `KnownAnswers`, `Zlib`). `DeflateFormat` is a grammar: what a stream of blocks *writes*, following
  sections 3.2.2 to 3.2.7 of RFC 1951. `InflateSpec` is a reader, and reader and grammar describe exactly the same
  streams (`ReadsExactly`), so no input can be read in two ways (`Unambiguous`). The inflater, with its byte-wise bit
  buffer, counting-sort decode tables and overlapping copies, computes that reader on every input, including the
  status of every malformed one. The encoder's output always reads back as the data (`DeflateInflate`,
  `ZlibRoundTrip`) and is never longer than nine bits a byte and ten more. But for the empty code and a single code of
  one bit, the accepted codes are exactly those that decode every input (`HuffmanComplete.AcceptedExactly`), and every
  length, distance and run has its code (`DeflateTables`).
- **Locks** (`LockOrder`, `Lockdep`, `LockUsage`, `Validator`, `LockRuns`, `TicketLock`). The validator's
  breadth-first search is exact, a reported inversion is a real chain of recorded edges, and the recorded order stays
  acyclic. Over every history of acquires and releases, a class is reported for its interrupt contexts if and only if
  its locks were held both by a handler and where a handler could come in, unless another report cut that check short.
  In every interleaved run of any number of CPUs, with no report raised, no state has a circular wait, and following
  the waits from any waiting CPU ends at one that has a step to take (`NoCircularWait`, `NoDeadlock`). The ticket lock
  refines a queue of CPUs across counter wrap-around.
- **Page tables** (`PageTables`, `Paging`, `PageFlags`). The four-level builder refines a flat map from addresses to
  leaves: a mapped range translates as asked whichever leaf sizes were chosen, was unmapped before, and nothing else
  changes, not even when the call fails half-way. A conflict is reported exactly when the address is mapped or a table
  stands where the leaf would go. Bit by bit the flags are those asked for, and the leaf alone decides what a walk
  permits.
- **Physical memory** (`BuddyBlocks`, `FrameStates`, `PmmState`, `PmmFacts`, `Pmm`, `MemoryMap`, `MapPrecedence`,
  `Normalize`, `PmmMap`, `PmmInit`). The page states say exactly who owns each frame after every operation; free
  blocks are canonical, hence determined by the free frames alone; freeing is refused exactly when the block is not an
  allocated one or the slab or vmalloc still owns a page of it; and the frame balance the kernel prints holds from
  boot on. The memory-map normalizer computes the unique normal form of "highest rank wins at every address", and its
  output always passes the kernel's check. The page around a usable address lies in one usable region as it was handed
  in and meets no region of another known kind that was not dropped for wrapping.
- **Kernel address space** (`KvaSpace`, `Kva`). Free extents and live reservations partition the space, so freeing a
  live reservation never fails and freeing everything restores the one initial extent.
- **Object caches** (`SlabState`, `Slabs`, `SlabLayout`). Every slot is on its slab's free list, in the magazine or
  with a caller; a free is accepted exactly when the slot is with a caller.
- **Timers** (`TimerHeap`, `Timers`). Heap order, back-pointers and the hardware setting hold after every operation;
  every history of the queue is lawful, and in a lawful history callbacks never outnumber armings and nothing
  cancelled is called. Timers of one deadline run in the order they were armed.
- **Kernel symbols** (`LittleEndian`, `Uleb`, `Bpe`, `KsymFormat`, `KsymLookup`, `Ksym`). Looking an address up in an
  encoded table is a linear search in the original one, names included.
- **GIF frames** (`GifStream`, `GifPaint`, `GifLzw`, `GifEncode`). The table-and-stack decoder emits what the
  string-table decoder does and paints every pixel of a full frame once, interlaced or not. Whatever table strings a
  writer uses for a text, and however it cuts the bytes into sub-blocks, the decoder gives the text back.
- **Rasterizer** (`RasterSpec`, `Raster`, `RasterEdges`, `RasterArea`). Every coverage byte equals a formula that
  mentions no clip, band or cell, so a smaller clip changes no byte inside it. No value ever stored in a cell leaves
  the range of 32 bits. For closed contours a pixel of the clip that gets no byte has no coverage. The formula is the
  area: twice the sum of the winding numbers of the pixel's 65536 places, and less than 1/256 pixel short for each
  slanted piece.
- **Glob matching** (`Glob`). The single-backtrack loop decides the recursive definition.

`Sequences`, `Products`, `Words` and `Statuses` hold what several of these share.

Three places where the code does less than its comments suggest are stated exactly:

- `Glob.RightExactly`: the matching loop agrees with the definition for every pattern if and only if the name
  has no `*` before its last character; `Glob.StarInNameBreaks` gives the pattern for every other name.
- `Kva.FreeKeepsPartition`: an accepted free keeps the address space partitioned if and only if the range is one live
  reservation; `Kva.AcceptedExactly` says that any range of reserved addresses is accepted. `Kva.OverflowTest` and
  `Kva.WrappedFree`: the wrap test catches every wrapping range except those of size 2^64 - 4096, and such a free takes
  the reserved page below the address.
- `TicketLock.ExchangeIsSafe`: a try-lock whose compare-exchange succeeds found the lock free if and only if the number
  served since its load is a multiple of 2^32. `TicketLock.TryExchangeRefines`: exactly then is the step one of the
  queue. A window of fewer than 2^32 tickets suffices. `TicketLock.LongWindowBreaksExclusion` is a run from a fresh
  lock, wherever its counters start, after which the exchange leaves two holders.

## Model

| member | source | states |
|---|---|---|
| `Huffman.CountLengths` | libs/compress/inflate.c:62-68 | fails exactly on a length above 15; otherwise every count is the number of symbols of that length |
| `Huffman.CheckCounts` | libs/compress/inflate.c:69-89 | accepts exactly the vectors that are neither over-subscribed nor incomplete, apart from the empty code and a single code of one bit |
| `Huffman.UsedIsKraft` | libs/compress/inflate.c:77-85 | the running budget of the builder is the Kraft sum of the lengths |
| `Huffman.Offsets` | libs/compress/inflate.c:90-94 | where each length's symbols start: the number of shorter coded symbols |
| `Huffman.ListSymbols` | libs/compress/inflate.c:95-99 | the symbols end up sorted by length, then by value, each coded one once |
| `Huffman.HuffBuild` | libs/compress/inflate.c:58-101 | succeeds exactly on acceptable length vectors and then holds their canonical decode table |
| `Huffman.PrefixFree` | libs/compress/inflate.c:58-125 | among the canonical codes of an accepted vector none is a prefix of another symbol's |
| `HuffmanComplete.CompleteExactly` | libs/compress/inflate.c:69-89 | a code that is not over-subscribed decodes every string of 15 bits if and only if its Kraft sum is full |
| `HuffmanComplete.AcceptedExactly` | libs/compress/inflate.c:54-89 | accepted are no code, a code that decodes everything, and a single code of one bit except for code lengths |
| `Huffman.DecodeCode` | libs/compress/inflate.c:107-125 | decoding a symbol's code followed by any bits gives that symbol and leaves those bits |
| `InflateSpec.BodyComplete` | libs/compress/inflate.c:247-295 | every body the grammar writes is read back to its end, or reported as not fitting |
| `InflateSpec.BodySound` | libs/compress/inflate.c:247-295 | whatever is read as a body is one the grammar writes, with the same output |
| `InflateSpec.OpsComplete` | libs/compress/inflate.c:195-240 | every run-length coded list of code lengths is read back |
| `InflateSpec.OpsSound` | libs/compress/inflate.c:195-240 | whatever is read as such a list is one |
| `InflateSpec.HeaderComplete` | libs/compress/inflate.c:167-245 | every dynamic block header is read back to the two codes it describes |
| `InflateSpec.HeaderSound` | libs/compress/inflate.c:167-245 | whatever is read as a dynamic header is one |
| `InflateSpec.FixedTreesOk` | libs/compress/inflate.c:138-162 | the fixed codes are acceptable code-length vectors |
| `InflateSpec.StoredComplete` | libs/compress/inflate.c:309-335 | every stored block is read back past its alignment, or reported as not fitting |
| `InflateSpec.StoredSound` | libs/compress/inflate.c:309-335 | whatever is read as a stored block is one, its length matching the complement |
| `InflateSpec.StreamComplete` | libs/compress/inflate.c:297-363 | every written stream of blocks is read back, what follows is left alone, and one that does not fit is reported as such |
| `InflateSpec.StreamSound` | libs/compress/inflate.c:297-363 | whatever is read as a stream is one the grammar writes |
| `InflateSpec.ReadsExactly` | libs/compress/inflate.c:297-363 | an input is read to an output and an end if and only if it is a written stream with that output and end |
| `InflateSpec.Unambiguous` | libs/compress/inflate.c:297-363 | two ways to see an input as a stream give the same output and the same end |
| `Inflate.BitReader.constructor` | libs/compress/inflate.c:8-14 | the unread bits are those of the input, least significant first |
| `Inflate.BitReader.Bit` | libs/compress/inflate.c:17-29 | returns and drops the first unread bit; -1 exactly at the end |
| `Inflate.BitReader.Bits` | libs/compress/inflate.c:32-42 | reads an n-bit field, least significant bit first; fails exactly when too few bits are left |
| `Inflate.BitReader.Align` | libs/compress/inflate.c:309-311 | drops the rest of the current byte and nothing more |
| `Inflate.HuffDecode` | libs/compress/inflate.c:107-125 | finds the one symbol whose code comes next and consumes just that code, or reports that there is none |
| `Inflate.BuildFixedTrees` | libs/compress/inflate.c:138-162 | the tables are those of the fixed codes |
| `Inflate.FillRun` | libs/compress/inflate.c:219-224 | appends the run, or refuses it exactly when it passes the announced total |
| `Inflate.ReadRun` | libs/compress/inflate.c:209-236 | a run symbol with its extra bits does to the lengths what the reader says, or fails when it does |
| `Inflate.ReadClLengths` | libs/compress/inflate.c:181-189 | the 3-bit lengths land at the permuted symbols, the others stay 0; fails exactly at the end of input |
| `Inflate.StoreLength` | libs/compress/inflate.c:181-189 | the i-th length sent goes to the i-th symbol of the permutation |
| `DeflateTables.LengthSteps` | libs/compress/inflate.c:127-131 | each length code starts where the one before ends, up to 258 |
| `DeflateTables.LengthWidth` | libs/compress/inflate.c:130-131 | no extra bits for the first eight codes and the last, then one more for every four codes |
| `DeflateTables.LengthUnique` | libs/compress/inflate.c:127-131 | every length from 3 to 257 has exactly one code and extra value |
| `DeflateTables.LongestLength` | libs/compress/inflate.c:127-131 | 258 has the last code, and the one before it with all extra bits set |
| `DeflateTables.LengthRange` | libs/compress/inflate.c:127-131 | there are no other lengths |
| `DeflateTables.DistSteps` | libs/compress/inflate.c:132-136 | each distance code starts where the one before ends, up to 32768 |
| `DeflateTables.DistWidth` | libs/compress/inflate.c:135-136 | from the fifth code on one more extra bit for every two codes |
| `DeflateTables.DistanceUnique` | libs/compress/inflate.c:132-136 | every distance from 1 to 32768 has exactly one code and extra value |
| `DeflateTables.DistanceRange` | libs/compress/inflate.c:132-136 | there are no other distances |
| `DeflateTables.ClcOrder` | libs/compress/inflate.c:164-165 | the run symbols, zero, then outwards from eight in turn |
| `DeflateTables.ClcPlace` | libs/compress/inflate.c:164-165 | every symbol has its place in that order |
| `DeflateTables.ClLengthsAt` | libs/compress/inflate.c:181-189 | the lengths sent go to the symbols in that order, and the others have none |
| `DeflateTables.RunsUnique` | libs/compress/inflate.c:209-236 | repeats are of three to six and zeros of three to 138, each in one way |
| `DeflateTables.RunsExist` | libs/compress/inflate.c:209-236 | and each of them can be written |
| `KnownAnswers.StreamReads` | libs/compress/inflate.c:254-292 | a stream worked out from the standard's tables reads as its text |
| `KnownAnswers.StreamWritten` | libs/compress/deflate.c:127-181 | and is what the encoder writes for it, for every row stride |
| `Inflate.ReadCodeLengths` | libs/compress/inflate.c:195-240 | equals the functional reader of run-length coded lengths, errors included |
| `Inflate.BuildFromLengths` | libs/compress/inflate.c:177-245 | reads all code lengths of a dynamic header and builds both tables, or fails when the reader does |
| `Inflate.BuildDynamicTrees` | libs/compress/inflate.c:167-245 | the same for the whole header with its three counts |
| `Inflate.CopyFromBack` | libs/compress/inflate.c:287-292 | a copy whose source overlaps its destination repeats, byte by byte |
| `Inflate.ReadSymbol` | libs/compress/inflate.c:250-280 | the next literal, copy or end of block, with its extra bits, or an error |
| `Inflate.PutItem` | libs/compress/inflate.c:254-292 | the output grows by the literal or the copy; nothing to copy from and no room are told apart, and change nothing |
| `Inflate.InflateBlockData` | libs/compress/inflate.c:247-295 | output, rest of input and status are those of the body reader |
| `Inflate.InflateStored` | libs/compress/inflate.c:309-335 | output, rest of input and status are those of the stored-block reader |
| `Inflate.InflateCompressed` | libs/compress/inflate.c:336-347 | the same for a block under the fixed or a transmitted code |
| `Inflate.InflateRaw` | libs/compress/inflate.c:297-363 | status, output and number of bytes used are those of the stream reader, for every input |
| `Deflate.BitWriter.constructor` | libs/compress/deflate.c:8-15 | nothing written yet, and the window of the output is the one given |
| `Deflate.BitWriter.StoreByte` | libs/compress/deflate.c:17-29 | a full byte goes out without changing the bits written so far; nothing outside the window changes |
| `Deflate.BitWriter.PutBit` | libs/compress/deflate.c:17-29 | appends one bit to the stream written |
| `Deflate.BitWriter.Bits` | libs/compress/deflate.c:32-36 | appends a field, least significant bit first |
| `Deflate.BitWriter.Huffman` | libs/compress/deflate.c:40-44 | appends a code, most significant bit first |
| `Deflate.BitWriter.FlushByte` | libs/compress/deflate.c:46-50 | pads to a whole byte with zero bits |
| `Deflate.FixedLitCodeCanonical` | libs/compress/deflate.c:53-67 | the four-case table is the canonical code of the fixed literal lengths |
| `Deflate.FixedDistCodeCanonical` | libs/compress/deflate.c:71-74 | five-bit distance codes are the canonical code of the fixed distance lengths |
| `Deflate.EmitLength` | libs/compress/deflate.c:87-99 | appends the code and extra bits that stand for the length |
| `Deflate.EmitDistance` | libs/compress/deflate.c:101-113 | appends the code and extra bits that stand for the distance |
| `Deflate.FindSymbol` | libs/compress/deflate.c:88-93 | the search down a base table finds the last entry that is not larger |
| `Deflate.MatchLength` | libs/compress/deflate.c:119-125 | the longest agreement with the data that many bytes back, up to the limit |
| `Deflate.CopyOfMatch` | libs/compress/deflate.c:115-125 | copying a match back reproduces the data, overlapping or not |
| `Deflate.FindMatch` | libs/compress/deflate.c:136-153 | the longer of the matches three bytes and one row back, the former on a tie; none if and only if both are below three bytes |
| `Deflate.EmitItem` | libs/compress/deflate.c:154-164 | appends one literal or copy and moves past the data it stands for |
| `Deflate.EmitBlockStart` | libs/compress/deflate.c:131-132 | appends the bits for a last block under the fixed codes |
| `Deflate.Finish` | libs/compress/deflate.c:170-180 | end of block and padding; succeeds exactly when everything fitted the window |
| `Deflate.TokensRun` | libs/compress/deflate.c:136-164 | running the chosen items gives the data, whatever the row stride |
| `Deflate.DeflateFixed` | libs/compress/deflate.c:127-181 | writes the encoding of the data, succeeds exactly when it fits, and changes nothing outside its window |
| `Deflate.DeflateCost` | libs/compress/deflate.c:127-181 | the encoding takes at most nine bits a byte and ten more |
| `Deflate.DeflateInflate` | libs/compress/deflate.c:127-181 | inflating the encoding, whatever follows it, gives the data back and uses exactly the encoded bytes |
| `Zlib.Adler32` | libs/compress/zlib.c:6-14 | the loop computes the running checksum |
| `Zlib.AdlerRunning` | libs/compress/zlib.c:6-14 | checksumming in pieces is checksumming the whole |
| `Zlib.AdlerIsRfcChecksum` | libs/compress/zlib.c:6-14 | started at 1 it is the checksum of RFC 1950: the sum of bytes and the sum of its prefixes, modulo 65521 |
| `Zlib.ZlibInflate` | libs/compress/zlib.c:16-57 | accepts exactly well-formed containers whose checksum agrees, and gives their data and length |
| `Zlib.HeaderFields` | libs/compress/zlib.c:21-34 | the header is accepted by its fields, bit by bit, as the standard lays them out |
| `Zlib.ZlibDeflate` | libs/compress/zlib.c:59-79 | writes the container, or fails exactly when it does not fit |
| `Zlib.PutBigEndian` | libs/compress/zlib.c:72-76 | appends the checksum, most significant byte first |
| `Zlib.ZlibRoundTrip` | libs/compress/zlib.c:16-79 | unpacking a container, whatever follows it, gives the data and the container's length |
| `Zlib.ZlibCost` | libs/compress/zlib.c:59-79 | a bound on the container's length that depends only on the data's |
| `Lockdep.LockdepGraph.constructor` | kernel/include/lockdep-core.h:55-63 | an empty graph: no classes, no edges |
| `Lockdep.LockdepGraph.ClassOf` | kernel/sync/lockdep-core.c:15-36 | finds the class of a key or registers it; refuses exactly a missing key or name, or a new key in a full table |
| `Lockdep.LockdepGraph.HasEdge` | kernel/sync/lockdep-core.c:38-43 | the adjacency matrix holds exactly the recorded edges |
| `Lockdep.LockdepGraph.EdgeFind` | kernel/sync/lockdep-core.c:45-52 | the index of an edge, -1 exactly when it is not recorded |
| `Lockdep.LockdepGraph.StartSearch` | kernel/sync/lockdep-core.c:56-66 | only the source is seen and queued |
| `Lockdep.LockdepGraph.Expand` | kernel/sync/lockdep-core.c:66-79 | every successor of the head gets queued once, with a parent one edge before it |
| `Lockdep.LockdepGraph.BfsFind` | kernel/sync/lockdep-core.c:56-82 | true if and only if a chain of edges leads from source to target |
| `Lockdep.LockdepGraph.DependsOn` | kernel/sync/lockdep-core.c:84-89 | true if and only if a nonempty chain leads from one registered class to a different one |
| `Lockdep.FindSegment` | kernel/sync/lockdep-core.c:92-98 | where the held entries of the current context start: all from there on are of it, and the one before is not |
| `Lockdep.LockdepGraph.BuildPath` | kernel/sync/lockdep-core.c:102-120 | consecutive recorded edges that end at the target, the whole chain unless marked as truncated |
| `Lockdep.LockdepGraph.FindInversion` | kernel/sync/lockdep-core.c:170-184 | an inversion is reported if and only if some held class of the segment is reachable, with a real chain to it |
| `Lockdep.LockdepGraph.CheckAcquire` | kernel/sync/lockdep-core.c:128-186 | the verdict in the order the checks are made, with the held lock and chain it blames |
| `Lockdep.LockdepGraph.MarkUsage` | kernel/sync/lockdep-core.c:188-195 | only the class's usage bit for the context is set |
| `Lockdep.LockdepGraph.AddOrderEdges` | kernel/sync/lockdep-core.c:207-226 | adds exactly the edges from held classes of the segment, or stops at a full table |
| `Lockdep.LockdepGraph.CommitAcquire` | kernel/sync/lockdep-core.c:197-238 | usage, edges unless withheld, and the held entry; nothing else changes |
| `Lockdep.CommitKeepsAcyclic` | kernel/sync/lockdep-core.c:197-238 | edges committed after a clean check keep the order acyclic, all of them or only some |
| `Lockdep.LockdepGraph.Acquire` | kernel/sync/lockdep.c:213-221 | check then commit, edges withheld after a report; the order stays acyclic in every case |
| `Lockdep.HeldStack.constructor` | kernel/include/lockdep-core.h:50-53 | nothing held |
| `Lockdep.HeldFind` | kernel/sync/lockdep-core.c:241-248 | the topmost entry for a lock, -1 exactly when it is not held |
| `Lockdep.LockdepGraph.CheckRelease` | kernel/sync/lockdep-core.c:250-267 | not held, irq-inconsistent or fine, each exactly when it applies |
| `LockUsage.IrqVerdict` | kernel/sync/lockdep-core.c:156-168 | an acquire that passes the checks before is irq-inconsistent if and only if marking the class for it would set both marks |
| `LockUsage.IrqHistory` | kernel/sync/lockdep-core.c:156-168 | said of the past: in a handler what was ever interruptible, with interrupts on what a handler ever had |
| `LockUsage.ToldStep` | kernel/sync/lockdep-core.c:188-206 | the marks of a class keep saying how its locks were held |
| `LockUsage.ExactStep` | kernel/sync/lockdep-core.c:128-282 | every clash is caught and nothing else, unless another report cut the check short |
| `LockUsage.ReleaseJudged` | kernel/sync/lockdep-core.c:250-282 | a release with interrupts on finds what an acquire would have |
| `LockUsage.NeverBoth` | kernel/sync/lockdep-core.c:156-168 | a class without such a report never has both marks |
| `LockUsage.HandlerReported` | kernel/sync/lockdep-core.c:156-162 | a handler never gets unreported what some CPU holds where it can be interrupted |
| `LockUsage.InterruptedReported` | kernel/sync/lockdep-core.c:163-168 | nor does anyone, with interrupts on, what a handler holds |
| `Lockdep.LockdepGraph.CommitRelease` | kernel/sync/lockdep-core.c:269-283 | the topmost entry goes and those above shift down; a lock not held changes nothing |
| `Validator.LockMap.constructor` | kernel/include/lockdep.h:22-26 | no class yet |
| `Validator.Kernel.constructor` | kernel/sync/lockdep.c:22-28 | on, with an empty graph and no history |
| `Validator.Kernel.ResolveClass` | kernel/sync/lockdep.c:172-186 | the remembered class, or the one of the lock's key, registered if new; badly made locks and a full table are told apart exactly |
| `Validator.Kernel.Acquire` | kernel/sync/lockdep.c:188-226 | nothing while off or for the validator's own output; otherwise class, verdict, held entry and edges, and off once a table is full; after every call the order is acyclic and the reports made are those the history calls for |
| `Validator.Kernel.AcquireClass` | kernel/sync/lockdep.c:212-221 | the same for a lock whose class is known |
| `Validator.Kernel.Release` | kernel/sync/lockdep.c:228-262 | the topmost entry goes even while off; the order never changes, and the history gains the lock's last context |
| `Validator.Kernel.ReleaseClass` | kernel/sync/lockdep.c:252-257 | check, commit and note while on |
| `LockRuns.StepInv` | kernel/sync/spinlock.c:38-83 | every step of every CPU keeps the invariant linking order, held stacks and ticket queues |
| `LockRuns.RunInv` | kernel/sync/spinlock.c:38-83 | hence every run does |
| `LockRuns.NoCircularWait` | kernel/sync/lockdep.c:188-226 | in every run from rest in which nothing is reported, no state has a circular wait |
| `LockRuns.WaitEnds` | kernel/sync/spinlock.c:38-83 | following waits from any CPU ends at one that does not wait |
| `LockRuns.NotWaitingCanEnter` | kernel/sync/spinlock.c:38-54 | a spinning CPU that waits for nobody can enter |
| `LockRuns.LastGoesOn` | kernel/sync/spinlock.c:38-83 | a CPU that is waited for and waits for nobody has an enabled step: release, queue, enter or finish; only a try just won may be reported instead |
| `LockRuns.NoDeadlock` | kernel/sync/lockdep.c:188-262 | in every reachable state a waiting CPU's chain of waits ends at one that has such a step |
| `TicketLock.StepRefines` | kernel/include/spinlock-raw.h:18-51 | each atomic step on the two 32-bit counters is a step of a queue of CPUs, unless an exchange succeeds on tickets that came round |
| `TicketLock.RunRefines` | kernel/include/spinlock-raw.h:18-51 | hence every run without such an exchange is a run of the queue |
| `TicketLock.ShortRunIsRun` | kernel/include/spinlock-raw.h:38-45 | a run whose try windows all span fewer than 2^32 tickets has no such exchange |
| `TicketLock.MutualExclusionAndFifo` | kernel/include/spinlock-raw.h:28-51 | only the head of the queue holds the lock, the lock is free exactly when the queue is empty, and the head can always enter |
| `TicketLock.TicketsDistinct` | kernel/include/spinlock-raw.h:31-36 | outstanding tickets differ, across wrap-around |
| `TicketLock.ExchangeIsSafe` | kernel/include/spinlock-raw.h:18-45 | a successful compare-exchange found the lock free if and only if the number served since the load is a multiple of 2^32; a short window suffices |
| `TicketLock.TryExchangeRefines` | kernel/include/spinlock-raw.h:40-45 | the exchange is a step of the queue if and only if it does not succeed on tickets that came round |
| `TicketLock.LongWindowBreaksExclusion` | kernel/include/spinlock-raw.h:18-45 | from a fresh lock, wherever its counters start, a run with 2^32 tickets inside one try window leads to two holders |
| `PageTables.EntryParts` | boot/common/paging.c:56-62 | address and flags share no bit, so both can be read back from an entry |
| `PageTables.WalkFrame` | boot/common/paging.c:156-197 | a write changes no walk that does not pass through the entry |
| `PageTables.LeafWritten` | boot/common/paging.c:56-62 | a leaf in an absent entry maps the addresses it covers, which were unmapped, and no others |
| `PageTables.AllocWellFormed` | boot/common/paging.c:19-52 | hanging in a new table keeps the pool a tree |
| `PageTables.AllocInvisible` | boot/common/paging.c:19-52 | and changes no translation |
| `PageTables.NotTaken` | boot/common/paging.c:34-62 | where the walk meets an absent entry, neither a mapping nor a table is in a leaf's way |
| `Paging.PtBuilder.constructor` | boot/common/paging.c:6-17 | a pool whose first page is the root maps nothing |
| `Paging.PtBuilder.GetOrAllocTable` | boot/common/paging.c:19-52 | the table below an entry, made if absent, with no translation and no leaf's way changed; a conflict means the address is mapped, and running out means nothing is in the way |
| `Paging.PtBuilder.WriteLeaf` | boot/common/paging.c:56-62 | adds exactly the leaf's addresses, or changes nothing; a conflict if and only if the address is mapped or a table stands there |
| `Paging.ChosenFits` | boot/common/paging.c:82-113 | the chosen leaf size is allowed, divides both addresses and fits, and no larger one does |
| `Paging.MappedStep` | boot/common/paging.c:74-130 | a leaf behind the part done extends it: mapped as asked, unmapped before, nothing else changed |
| `Paging.PtBuilder.MapLeaf` | boot/common/paging.c:74-129 | one turn maps exactly one leaf of the chosen size, or changes no translation; a conflict if and only if the address is mapped or a table stands where the leaf would |
| `Paging.PtBuilder.MapRange` | boot/common/paging.c:64-132 | the part done translates address by address as asked, was unmapped before, and all else is unchanged, on success and on failure; a conflict names what is in the way |
| `Paging.PtBuilder.Lookup` | boot/common/paging.c:156-197 | finds exactly the leaf the tables translate an address to |
| `PageFlags.AddressBits` | boot/common/include/paging.h:22-22 | an entry's address is its bits 12 to 51 and its flags are the others |
| `PageFlags.IndexBits` | boot/common/paging.c:75-118 | each table index is nine bits of the address |
| `PageFlags.LeafFlagBits` | boot/common/paging.c:83-120 | a leaf has the flags asked for, and bit 7 as well if it is large |
| `PageFlags.FlagsAsAsked` | boot/common/paging.c:64-132 | every address of the part mapped has, bit by bit, the flags asked for, but for bit 7 on a large leaf |
| `PageFlags.SmallLeaves` | boot/common/paging.c:82-122 | without large leaves there is none |
| `PageFlags.LeafDecides` | boot/common/paging.c:31-33 | whether an address can be written or executed is decided by the leaf alone |
| `PageFlags.RangePermits` | boot/common/paging.c:31-132 | a range is writable and executable exactly as asked |
| `BuddyBlocks.MergeCanonical` | kernel/mm/buddy.c:18-44 | freeing keeps the free blocks disjoint and fully merged, and adds exactly the block's frames |
| `BuddyBlocks.SplitCanonical` | kernel/mm/buddy.c:46-75 | allocating does too, and takes exactly the block's frames |
| `BuddyBlocks.WholeBlock` | kernel/mm/buddy.c:18-75 | a block whose frames are all free lies inside one free block |
| `BuddyBlocks.CanonicalUnique` | kernel/mm/buddy.c:18-75 | the free frames determine the free blocks |
| `BuddyBlocks.FreeUndoesAlloc` | kernel/mm/buddy.c:18-75 | freeing what was just allocated restores the free blocks exactly |
| `PmmState.FramesOfBlock` | kernel/mm/buddy.c:18-75 | a block of order k is 2^k frames |
| `PmmState.BlockRange` | kernel/mm/buddy.c:18-75 | namely the run that starts at its head |
| `PmmState.BuddyHeads` | kernel/mm/buddy.c:25-37 | flipping bit k of a head gives the buddy, clearing it the merged block |
| `PmmState.SameChunk` | kernel/mm/pmm-internal.h:16-25 | no block crosses a zone boundary or the end of a span |
| `PmmState.CountBlock` | kernel/mm/buddy.c:23-23 | adding a block adds 2^k frames to its own zone and none to the other |
| `PmmState.MergeStep` | kernel/mm/buddy.c:25-37 | absorbing the free buddy keeps page states, lists and owners in step |
| `PmmState.LandStep` | kernel/mm/buddy.c:39-43 | so does putting the merged block on its list |
| `PmmState.TakeStep` | kernel/mm/buddy.c:55-60 | so does taking a block off its list |
| `PmmState.SplitStep` | kernel/mm/buddy.c:62-70 | so does giving back the upper half |
| `PmmState.GrantStep` | kernel/mm/pmm.c:284-330 | so does handing the block out |
| `PmmState.TakeBackStep` | kernel/mm/pmm.c:332-361 | so does taking an allocated block back |
| `PmmState.CachePutStep` | kernel/mm/pmm.c:247-254 | so does putting a frame in front of its zone's cache |
| `PmmState.CacheTakeStep` | kernel/mm/pmm.c:256-265 | so does taking one out |
| `PmmState.CacheGrantStep` | kernel/mm/pmm.c:241-244 | so does handing one out |
| `PmmFacts.SpansClosed` | kernel/mm/pmm-map.c:13-16 | spans of whole top-order blocks contain every buddy of every frame in them |
| `PmmFacts.BuddyTest` | kernel/mm/buddy.c:25-30 | the buddy's page says whether the buddy is a free block of the same order |
| `PmmFacts.HeadTest` | kernel/mm/pmm.c:181-196 | a possible head's page says whether a free block there covers the frame |
| `PmmFacts.SomeHeadCovers` | kernel/mm/pmm.c:181-196 | a frame is in a free block exactly when the head of some order says so |
| `PmmFacts.PageSays` | kernel/mm/pmm.c:143-203 | each page state says exactly which owner the frame has |
| `PmmFacts.Conservation` | kernel/mm/pmm.c:551-559 | in each zone the managed frames are split into free blocks, cache and allocated blocks, and the counters are their sizes |
| `PmmFacts.Totals` | kernel/mm/pmm.c:536-561 | summed over both zones the counters are the sizes of those sets |
| `PmmFacts.FreeBlocksRestored` | kernel/mm/buddy.c:18-75 | with the same allocations and caches the free blocks are the same, whatever happened in between |
| `PmmFacts.GrantKeepsManaged` | kernel/mm/pmm.c:284-361 | handing out and taking back changes no frame's being managed |
| `PmmFacts.RangeAddsManaged` | kernel/mm/pmm.c:363-408 | freeing reserved frames adds exactly them |
| `Pmm.LargestOrder` | kernel/mm/pmm.c:389-395 | the largest legal order that is aligned here and fits |
| `Pmm.Allocator.constructor` | kernel/mm/pmm.c:697-699 | every page of the spans is reserved and nothing is managed |
| `Pmm.Allocator.FrameValid` | kernel/mm/pmm.c:111-125 | the binary search decides whether a frame is in some span |
| `Pmm.Allocator.FreeBlock` | kernel/mm/buddy.c:18-44 | frees and merges upwards; the free blocks become the merge of the old ones with the block |
| `Pmm.Allocator.AllocBlock` | kernel/mm/buddy.c:46-75 | takes a block of the smallest sufficient order and splits it; fails exactly when there is none and then changes nothing |
| `Pmm.Allocator.SplitDown` | kernel/mm/buddy.c:62-70 | halving leaves the lowest block of the order asked for, and the upper halves free |
| `Pmm.Allocator.CacheAlloc` | kernel/mm/pmm.c:224-245 | a cached frame, after filling an empty cache; fails exactly when cache and zone are both empty |
| `Pmm.Allocator.Refill` | kernel/mm/pmm.c:226-240 | moves frames from free blocks to the cache; the available frames stay the same |
| `Pmm.Allocator.CacheFree` | kernel/mm/pmm.c:247-267 | the frame becomes available, its zone's cache is the old one with it in front, less the overflow, and the overflow is merged into the free blocks |
| `Pmm.Allocator.TrimCache` | kernel/mm/pmm.c:256-266 | an overfull cache gives its oldest frames to the free blocks; availability is unchanged |
| `Pmm.Allocator.Uncache` | kernel/mm/pmm.c:256-265 | one frame moves from the cache and is merged into the free blocks; availability is unchanged |
| `Pmm.Allocator.DrainCaches` | kernel/mm/pmm.c:269-282 | both caches end up empty; availability is unchanged |
| `Pmm.Allocator.AllocPages` | kernel/mm/pmm.c:284-330 | each status exactly when it applies, a block that was available and is now allocated, from the high zone unless it cannot serve, and all of it below 4 GiB when that is asked |
| `PmmFacts.LowZone` | kernel/mm/pmm-internal.h:23-25 | the low zone is the frames whose addresses are below 4 GiB |
| `Pmm.Allocator.AllocFrom` | kernel/mm/pmm.c:297-316 | the same for one zone |
| `Pmm.Allocator.InsideFreeBlock` | kernel/mm/pmm.c:181-196 | whether the frame is in a free block |
| `Pmm.Allocator.AnyOwned` | kernel/mm/pmm.c:171-175 | whether some page of the block belongs to the slab or vmalloc |
| `Pmm.Allocator.ValidateForFree` | kernel/mm/pmm.c:143-203 | the verdict is the one the owners dictate: double free, not a head, wrong order, reserved, owned or freeable |
| `Pmm.Allocator.FreePages` | kernel/mm/pmm.c:332-361 | a freeable block stops being allocated and its frames become available, with the exact new caches and free blocks; anything else is refused and changes nothing |
| `Pmm.Allocator.AddFreeRange` | kernel/mm/pmm.c:363-408 | succeeds exactly on page-aligned ranges of reserved frames and then frees exactly those |
| `Pmm.Allocator.CheckReserved` | kernel/mm/pmm.c:380-384 | whether every frame of the range is present and reserved |
| `Pmm.Allocator.AddBlock` | kernel/mm/pmm.c:396-403 | one aligned block of reserved frames becomes free |
| `Pmm.Allocator.OpenPages` | kernel/mm/pmm.c:396-398 | just the block's pages stop being reserved |
| `Pmm.Allocator.GetStats` | kernel/mm/pmm.c:536-561 | the three figures are the numbers of managed, available and allocated frames |
| `MemoryMap.Round` | boot/common/memmap.c:60-88 | usable memory shrinks and other memory grows to page boundaries, by less than a page; exactly what wraps or holds no page is dropped |
| `MemoryMap.KindAtWins` | boot/common/memmap.c:151-165 | an address has a kind exactly when that kind covers it and nothing ranked higher does |
| `MemoryMap.KindIgnoresOrder` | boot/common/memmap.c:151-165 | the kind does not depend on the order or repetition of the regions |
| `MemoryMap.NormalUnique` | boot/common/memmap.c:115-185 | a sorted, disjoint, page-aligned, fully joined map is determined by the kinds it gives |
| `MemoryMap.NormalFormUnique` | boot/common/memmap.c:115-185 | so there is one normal form for a set of regions |
| `MemoryMap.NormalFixed` | boot/common/memmap.c:115-185 | a normal map is its own normal form |
| `MemoryMap.ShorterBelow` | boot/common/memmap.c:166-183 | cutting a normal map off makes it no longer, so running out of room early means the whole does not fit |
| `MemoryMap.CheckMap` | kernel/core/bootinfo.c:90-123 | accepts exactly maps that are sorted, disjoint, page-aligned, of known kinds, without empty or wrapping regions and with their spare fields clear |
| `MemoryMap.NormalAccepted` | kernel/core/bootinfo.c:90-123 | every normal map, stored with clear spare fields, passes that check |
| `Normalize.CollectPoints` | boot/common/memmap.c:117-125 | the end points of the rounded regions, and no others |
| `Normalize.SortPoints` | boot/common/memmap.c:129-137 | sorted in place, same elements |
| `Normalize.Insert` | boot/common/memmap.c:130-136 | one insertion extends the sorted part |
| `Normalize.DropRepeats` | boot/common/memmap.c:139-144 | strictly increasing, same elements |
| `Normalize.BestKind` | boot/common/memmap.c:151-165 | the kind of the segment is the kind of its first address |
| `Normalize.ExtendNormal` | boot/common/memmap.c:166-183 | appending or joining a segment keeps the map normal |
| `Normalize.SweepStep` | boot/common/memmap.c:146-183 | one segment extends the part of the normal form that is done |
| `Normalize.NormalizeMap` | boot/common/memmap.c:115-185 | yields the normal form of the input; fails exactly when no normal form fits |
| `MapPrecedence.PrevailsExactly` | boot/common/memmap.c:86-165 | an address has a kind if and only if that kind covers it and every other known kind that does comes before it in one list |
| `MapPrecedence.UsableExactly` | boot/common/memmap.c:86-165 | it is usable if and only if a usable region covers it and none of another known kind does |
| `MapPrecedence.UsablePages` | boot/common/memmap.c:55-84 | the page around a usable address lies in one usable region as handed in, and shares no byte with another kind's |
| `PmmMap.AddSpanCovers` | kernel/mm/pmm-map.c:64-81 | the spans then cover the range widened to whole top-order blocks, stay disjoint and ordered |
| `PmmMap.UsableSplits` | kernel/mm/pmm-map.c:117-136 | every usable frame is withheld, out of reach or in one of the usable ranges |
| `PmmMap.SpansBacked` | kernel/mm/pmm-map.c:64-146 | the spans hold exactly the top-order blocks that touch managed memory |
| `MapPrecedence.ManagedKinds` | kernel/mm/pmm-map.c:18-29 | the kinds with pages are those that give way to the firmware's own |
| `PmmMap.UsableAscends` | kernel/mm/pmm-map.c:117-136 | the usable ranges ascend and each comes from a usable region |
| `PmmMap.OfKindOrdered` | kernel/mm/pmm-map.c:98-115 | the recorded ranges of one kind keep the map's order |
| `PmmMap.MapScan` | kernel/mm/pmm-map.c:83-151 | succeeds exactly when the tables suffice, gives spans, ranges and totals of the map, and the usable frames balance |
| `PmmInit.Early.constructor` | kernel/mm/early.c:25-34 | nothing taken yet |
| `PmmInit.Early.AllocPages` | kernel/mm/early.c:48-66 | takes from the top of the highest range with room; fails exactly when none has |
| `PmmInit.Early.WasAllocated` | kernel/mm/early.c:85-101 | a frame was handed out exactly when it is usable and not left over |
| `PmmInit.EarlyPhase` | kernel/mm/pmm.c:666-690 | succeeds exactly when there are enough usable frames, and the frames left add up |
| `PmmInit.FreeFrames` | kernel/mm/pmm.c:697-710 | freeing reserved frames cannot fail and adds exactly them |
| `PmmInit.FreeRest` | kernel/mm/pmm.c:697-710 | exactly what the early allocator left becomes managed |
| `PmmInit.Init` | kernel/mm/pmm.c:621-713 | fails exactly on a map that does not fit the tables, has nothing to manage or too little memory; otherwise the frame balance holds |
| `PmmInit.Memory.constructor` | kernel/mm/pmm.c:621-713 | nothing reclaimed yet |
| `PmmInit.Memory.CheckMeminfo` | kernel/mm/pmm.c:563-611 | the balance the kernel checks holds in every valid state |
| `PmmInit.Memory.AllocPages` | kernel/mm/pmm.c:284-330 | allocation keeps the balance; a refusal changes nothing |
| `PmmInit.Memory.FreePages` | kernel/mm/pmm.c:332-361 | so does freeing |
| `PmmInit.Memory.ReclaimRanges` | kernel/mm/pmm.c:443-473 | exactly the ranges' frames inside the window become managed, counted once each |
| `PmmInit.Memory.ReclaimLoader` | kernel/mm/pmm.c:475-504 | returning the loader's memory keeps the balance |
| `PmmInit.Memory.ReclaimAcpi` | kernel/mm/pmm.c:506-534 | so does returning the firmware's tables |
| `KvaSpace.FewExtents` | kernel/mm/kva-internal.h:47-54 | n reservations leave at most n + 1 free extents |
| `KvaSpace.AllFree` | kernel/mm/kva-internal.h:41-55 | with nothing reserved the whole space is one extent |
| `KvaSpace.TakeFront` | kernel/mm/kva.c:25-45 | carving a reservation from an extent's front keeps the partition |
| `KvaSpace.PutBackPartition` | kernel/mm/kva.c:75-97 | putting one back, joined to its neighbours, does too |
| `Kva.KvaState.constructor` | kernel/mm/kva.c:7-13 | one extent, nothing reserved |
| `Kva.KvaState.RemoveAt` | kernel/mm/kva.c:34-37 | shifts the later extents down |
| `Kva.KvaState.InsertAt` | kernel/mm/kva.c:92-96 | shifts them up |
| `Kva.KvaState.Join` | kernel/mm/kva.c:75-97 | one of four ways: join both neighbours, one of them, or insert; refused exactly when the table is full and neither touches |
| `Kva.KvaState.Alloc` | kernel/mm/kva.c:15-46 | first fit with a guard page on each side; each error exactly when it applies, and then nothing changes |
| `Kva.KvaState.Free` | kernel/mm/kva.c:48-100 | accepted exactly when no check refuses the range and the table has room; the range becomes free and joins its neighbours; for a live reservation that always happens and keeps the partition |
| `Kva.NeighboursDecide` | kernel/mm/kva.c:61-73 | in a sorted table only the two neighbours can overlap a range |
| `Kva.LiveNotRefused` | kernel/mm/kva.c:48-73 | a live reservation meets none of the reasons to refuse |
| `Kva.OverflowTest` | kernel/mm/kva.c:52-56 | the wrap test fires if and only if the range wraps and its size is not 2^64 - 4096 |
| `Kva.AcceptedExactly` | kernel/mm/kva.c:48-73 | a range inside the space is accepted if and only if every address of it is reserved |
| `Kva.FreeKeepsPartition` | kernel/mm/kva-internal.h:41-55 | an accepted free keeps the partition if and only if the range is one live reservation |
| `Kva.WrappedFree` | kernel/mm/kva.c:52-56 | of size 2^64 - 4096 a free is no reservation's, and is accepted if and only if the page below is reserved |
| `GifStream.CodeReader.constructor` | libs/gfx/gif.c:288-295 | the unread bits are those of the sub-blocks' contents |
| `GifStream.CodeReader.Fill` | libs/gfx/gif.c:299-318 | buffers bytes across sub-blocks without changing what is to come; fails exactly when too few bits are left |
| `GifStream.CodeReader.ReadCode` | libs/gfx/gif.c:298-323 | takes the next bits across sub-blocks; fails exactly when fewer are left |
| `GifPaint.NextRowOrder` | libs/gfx/gif.c:259-272 | between a row and the next none is left out, interlaced or not |
| `GifPaint.PassRows` | libs/gfx/gif.c:259-260 | up to each pass the rows drawn are the multiples of eight, four, two and one |
| `GifPaint.Painter.constructor` | libs/gfx/gif.c:245-257 | nothing drawn, the whole frame left |
| `GifPaint.Painter.Put` | libs/gfx/gif.c:276-286 | draws at the cursor and moves on; the canvas stays the painting of what was emitted |
| `GifPaint.PaintedAt` | libs/gfx/gif.c:276-286 | a visited place shows its own index's colour unless that is the transparent one |
| `GifPaint.PaintedElsewhere` | libs/gfx/gif.c:276-286 | any other place is untouched |
| `GifPaint.FullFrame` | libs/gfx/gif.c:259-286 | when nothing is left every pixel was visited exactly once |
| `GifLzw.TableGrows` | libs/gfx/gif.c:406-410 | a new entry leaves the strings of all older codes as they are |
| `GifLzw.Decoder.constructor` | libs/gfx/gif.c:359-362 | an empty table |
| `GifLzw.Decoder.Expand` | libs/gfx/gif.c:333-347 | the stack holds the code's string in reverse; for a table code it never fails |
| `GifLzw.Decoder.DrawStack` | libs/gfx/gif.c:350-354 | draws the string in order, as far as the frame has room |
| `GifLzw.Decoder.DrawCode` | libs/gfx/gif.c:385-402 | draws a known code's string, or for the next code the previous string and its first index |
| `GifLzw.Decoder.AddEntry` | libs/gfx/gif.c:406-410 | the next code stands for the previous string and one index more |
| `GifLzw.Decoder.DrawNext` | libs/gfx/gif.c:385-415 | draws one code's string, defines the next code while there is one, and keeps the code width right |
| `GifLzw.WidthStep` | libs/gfx/gif.c:411-413 | codes widen exactly when the next code no longer fits, up to 12 bits |
| `GifLzw.WidthHolds` | libs/gfx/gif.c:411-413 | the width is the least that holds the next code, at most 12 |
| `GifLzw.DrawFrame` | libs/gfx/gif.c:359-418 | emits the indices of the string-table decoder and fails exactly when it does |
| `GifEncode.DecodeSpelled` | libs/gfx/gif.c:359-418 | whatever strings of its table a writer uses for a text, decoding the packed codes gives the text |
| `GifEncode.SubBlocksRead` | libs/gfx/gif.c:298-318 | however data is cut into sub-blocks it is read back whole |
| `GifEncode.FrameRead` | libs/gfx/gif.c:298-418 | so a frame's data gives the decoder the frame's indices |
| `GifEncode.EverySpelling` | libs/gfx/gif.c:359-418 | every text can be written |
| `Uleb.Write` | tools/ksyms/ksyms-encode.c:71-80 | the loop writes the base-128 digits, low first |
| `Uleb.ReadNumber` | kernel/core/ksym.c:44-64 | reads every written 64-bit number back and stops behind it |
| `Bpe.CountPairs` | tools/ksyms/ksyms-encode.c:101-107 | each count is the number of places where the pair occurs |
| `Bpe.ChoosePair` | tools/ksyms/ksyms-encode.c:109-142 | the most frequent pair worth a token, the lowest on a tie; none exactly when no pair is worth one |
| `Bpe.ReplacePair` | tools/ksyms/ksyms-encode.c:149-161 | replaces the pair from left to right |
| `Bpe.ReplacedExpands` | tools/ksyms/ksyms-encode.c:144-161 | with the new token the rewritten name still means the same |
| `Bpe.ReplaceAll` | tools/ksyms/ksyms-encode.c:149-161 | so do all names |
| `Bpe.Compress` | tools/ksyms/ksyms-encode.c:93-166 | the compressed names expand to the originals, for every list of names |
| `KsymFormat.Sections` | tools/ksyms/ksyms-encode.c:251-285 | where header, index, token directory, token pool and stream stand in the blob |
| `KsymFormat.FrontReads` | kernel/core/ksym.c:118-134 | reading the first half of a written header gives its fields |
| `KsymFormat.BackReads` | kernel/core/ksym.c:118-134 | so does reading the second half |
| `KsymFormat.EntryAt` | tools/ksyms/ksyms-encode.c:214-237 | entry i stands where the entries before it end |
| `KsymFormat.IndexAt` | tools/ksyms/ksyms-encode.c:222-228 | index entry k stands at 16 k |
| `KsymLookup.ExpandToken` | kernel/core/ksym.c:96-105 | appends a token as far as the buffer has room |
| `KsymLookup.ExpandName` | kernel/core/ksym.c:70-111 | expands an encoded name, cut to the buffer |
| `KsymLookup.HeaderOf` | kernel/core/ksym.c:118-134 | the header of a written blob passes all checks |
| `KsymLookup.HeaderSays` | tools/ksyms/ksyms-encode.c:251-269 | the header gives the stream's place and length if and only if both fit 32 bits |
| `KsymLookup.FindBlock` | kernel/core/ksym.c:144-164 | the binary search finds the last block that starts at or below the address |
| `KsymLookup.ReadEntry` | kernel/core/ksym.c:186-199 | an entry gives its distance and where its name stands |
| `KsymLookup.ScanBlock` | kernel/core/ksym.c:179-208 | finds the last symbol of the block at or below the address |
| `KsymLookup.SearchBlock` | kernel/core/ksym.c:166-208 | which is the last one of the whole table |
| `KsymLookup.Lookup` | kernel/core/ksym.c:113-219 | on a written blob finds the covering symbol with its name, and nothing exactly when there is none |
| `Ksym.CheckPlaced` | tools/ksyms/ksyms-encode.c:193-200 | symbols ascend strictly and lie in the text range |
| `Ksym.Encode` | tools/ksyms/ksyms-encode.c:189-287 | accepts exactly placed symbols whose names and numbers fit, and writes their table |
| `Ksym.Streams` | tools/ksyms/ksyms-encode.c:214-237 | one pass writes the stream and the index |
| `Ksym.TokenSections` | tools/ksyms/ksyms-encode.c:239-249 | one pass writes directory and pool |
| `Ksym.EncodeThenLookup` | kernel/core/ksym.c:113-219 | when the header's fields fit, looking up in the encoded table is a linear search in the original, names included |
| `Ksym.LookupSlid` | kernel/core/ksym.c:221-235 | the same for a kernel loaded elsewhere, with addresses moved |
| `Glob.GlobMatch` | kernel/core/cmdline.c:95-124 | terminates, and decides the recursive definition when no `*` stands before the name's last character |
| `Glob.RunMatches` | kernel/core/cmdline.c:95-124 | from every state the loop decides whether this or a later try succeeds |
| `Glob.StarInNameBreaks` | kernel/core/cmdline.c:95-124 | for any other name a pattern that matches is rejected |
| `Glob.RightExactly` | kernel/include/cmdline.h:15-18 | so the loop is right for all patterns if and only if the name is of that kind |
| `RasterSpec.RiseBounds` | libs/gfx/raster.c:27-48 | the rounded height along an edge is monotone and exact at both ends |
| `RasterSpec.SumsFit` | libs/gfx/raster.c:12-13 | the sums over n edges are at most 2^8 n of height and 2^17 n of area |
| `RasterSpec.EdgeXBetween` | libs/gfx/raster.c:27-37 | along an edge x stays between the ends |
| `RasterSpec.InterpolationFits` | libs/gfx/gfx-internal.h:73-75 | with coordinates within 2^30 both interpolation products stay below 2^62 |
| `RasterSpec.ReachShift` | libs/gfx/raster.c:53-56 | coverage does not depend on where the band's left side is |
| `Raster.Bump` | libs/gfx/raster.c:57-103 | adds to one cell, and may only be called where the sum fits 32 bits |
| `Raster.CoverMoved` | libs/gfx/raster.c:12-13 | while a piece is being added, cell by cell, no cover cell is more than 256 from where it was |
| `Raster.AreaMoved` | libs/gfx/raster.c:12-13 | nor an area cell more than 2^17 |
| `Raster.CellsFit` | libs/gfx/raster.c:12-13 | with at most 8192 edges every cell is within 2^30, with room for one more edge while there is one |
| `Raster.SegHeight` | libs/gfx/raster.c:40-48 | the height between two places is the difference of what lies left of them |
| `Raster.AddRowPiece` | libs/gfx/raster.c:57-103 | adds exactly the piece's height and area to each cell of its row, what lies left of the clip going to the first |
| `Raster.AddSlanted` | libs/gfx/raster.c:85-102 | the same for a slanted piece, cell by cell |
| `Raster.AddEdge` | libs/gfx/raster.c:170-189 | adds an edge to every row it crosses, and every cell still fits |
| `Raster.EdgeInBand` | libs/gfx/raster.c:175-189 | cuts the edge at the rows |
| `Raster.SweepRow` | libs/gfx/raster.c:190-206 | the running sum turns the cells into coverage bytes |
| `Raster.FillBand` | libs/gfx/raster.c:165-208 | every row of a band gets the coverage of the formula |
| `Raster.FindBounds` | libs/gfx/raster.c:130-139 | the box around all edges |
| `Raster.Fill` | libs/gfx/raster.c:121-210 | every pixel of the clip gets the coverage of the formula, whatever the bands; too many edges are refused |
| `Raster.ClipIndependent` | libs/gfx/raster.c:53-56 | under a smaller clip each of its pixels gets the very same byte |
| `RasterEdges.EdgeClimb` | libs/gfx/flatten.c:32-41 | whichever way a segment runs, its edge's height in a row is how far it moves down that row |
| `RasterEdges.Flattener.constructor` | libs/gfx/flatten.c:14-18 | no edges, no contour |
| `RasterEdges.Flattener.AddEdge` | libs/gfx/flatten.c:28-65 | appends the segment's edge unless it is level or misses the clip's rows; refused exactly when the list is full |
| `RasterEdges.Flattener.Line` | libs/gfx/flatten.c:104-108 | adds the segment to the point and keeps every row balanced but for the open contour |
| `RasterEdges.Flattener.Close` | libs/gfx/flatten.c:110-115 | goes back to the contour's start; while the list has room every row of the clip is then balanced |
| `RasterEdges.Flattener.Move` | libs/gfx/flatten.c:163-171 | closes the contour and starts another |
| `RasterEdges.SumsOutside` | libs/gfx/raster.c:5-10 | left, above and below the edges' box all sums are 0, right of it they are the height of the row |
| `RasterEdges.NothingOutside` | libs/gfx/raster.c:9-10 | where a row's heights cancel, its pixels outside the box have no coverage |
| `RasterEdges.FillComplete` | libs/gfx/raster.c:130-151 | for closed contours every pixel of the clip gets its coverage, or gets no byte and has none |
| `RasterArea.PlainValue` | libs/gfx/raster.c:76-103 | an edge that is upright or off the pixel's columns contributes twice its lines times the columns right of it |
| `RasterArea.ValueIsArea` | libs/gfx/raster.c:5-10 | the value of a pixel with such edges is twice the sum of the winding numbers of its 65536 places |
| `RasterArea.WholePixel` | libs/gfx/raster.c:195-204 | a pixel wound around as a whole is full or empty, as the rule has it |
| `RasterArea.RectanglePath` | libs/gfx/flatten.c:28-65 | a rectangle's path, from any corner and in either direction, leaves its two upright edges |
| `RasterArea.RectangleByte` | libs/gfx/raster.c:195-204 | for a rectangle a pixel's byte is 255 times the part of it inside, rounded |
| `RasterArea.RectangleInside` | libs/gfx/raster.c:195-204 | and 255 wholly inside |
| `RasterArea.RectangleTwice` | libs/gfx/raster.c:197-203 | the same contour twice covers what is inside under one rule and leaves it out under the other |
| `RasterArea.SlantedArea` | libs/gfx/raster.c:91-103 | a slanted piece contributes the exact area right of it, less than 1/256 pixel short |
| `RasterArea.EdgeXClose` | libs/gfx/raster.c:27-37 | along an edge x is less than one unit off the line |
| `TimerHeap.SiftUpStep` | kernel/core/time-core.c:134-145 | one swap upwards leaves one possible violation, higher up |
| `TimerHeap.SiftDownStep` | kernel/core/time-core.c:147-164 | one swap with the earlier child leaves one, lower down |
| `TimerHeap.RootFirst` | kernel/core/time-core.c:202-212 | nothing in a heap comes before its root |
| `TimerHeap.RemovedHeap` | kernel/core/time-core.c:186-200 | moving the last timer into the gap needs sifting in one direction only, and the test picks it |
| `Timers.TimerQueue.constructor` | kernel/core/time-core.c:166-172 | an empty queue |
| `Timers.TimerQueue.Place` | kernel/core/time-core.c:129-132 | slot and back-pointer change together |
| `Timers.TimerQueue.SiftUp` | kernel/core/time-core.c:134-145 | restores heap order and back-pointers, same timers |
| `Timers.TimerQueue.EarlierChild` | kernel/core/time-core.c:150-156 | the child that comes first |
| `Timers.TimerQueue.SiftDown` | kernel/core/time-core.c:147-164 | restores heap order and back-pointers, same timers |
| `Timers.TimerQueue.Insert` | kernel/core/time-core.c:174-184 | adds the timer with the next sequence number; fails exactly when full |
| `Timers.TimerQueue.Remove` | kernel/core/time-core.c:186-200 | removes exactly that timer, from wherever it is |
| `Timers.TimerQueue.Reprogram` | kernel/core/timekeeping.c:48-60 | outside an expiry pass the hardware is set for the earliest timer, or stopped |
| `Timers.TimerQueue.InitTimer` | kernel/core/timekeeping.c:115-127 | a timer not armed becomes idle and usable |
| `Timers.TimerQueue.Withdraw` | kernel/core/timekeeping.c:134-138 | an armed timer leaves the queue; the others stay |
| `Timers.TimerQueue.Enqueue` | kernel/core/timekeeping.c:139-143 | a timer not armed is queued for the deadline, or left unchanged when full |
| `Timers.TimerQueue.Arm` | kernel/core/timekeeping.c:129-149 | each status exactly when it applies; a refused timer is unchanged |
| `Timers.TimerQueue.Cancel` | kernel/core/timekeeping.c:151-171 | succeeds exactly on an armed timer or one waiting to be run, and makes it idle |
| `Timers.TimerQueue.BeginExpiry` | kernel/core/timekeeping.c:177-196 | exactly the due timers are collected, by deadline, and those of one deadline in the order of their armings in the history |
| `Timers.WhenArmed` | kernel/core/timekeeping.c:129-149 | of a pending timer the last event is its arming |
| `Timers.TimerQueue.RunNext` | kernel/core/timekeeping.c:197-204 | the next collected timer is called exactly when nothing has cancelled, re-armed or reset it |
| `Timers.TimerQueue.EndExpiry` | kernel/core/timekeeping.c:205-207 | the hardware is set again |
| `Timers.CallsBounded` | kernel/core/timekeeping.c:129-207 | in every lawful history a timer's callbacks never outnumber its armings |
| `Timers.ArmedBetween` | kernel/include/timekeeping.h:48-55 | between a cancel, a reset or a callback and the next callback the timer was armed again |
| `SlabState.PopOk` | kernel/mm/slab-core.c:92-99 | popping takes the first free object and keeps the link array a list of the free ones |
| `SlabState.PushOk` | kernel/mm/slab-core.c:101-106 | so does pushing a busy one |
| `SlabState.DropSlab` | kernel/mm/slab.c:216-227 | a slab with all objects free can go: nobody has one of them |
| `Slabs.Carve` | kernel/mm/slab-core.c:82-90 | all objects are free, in order |
| `Slabs.SlabCache.constructor` | kernel/mm/slab.c:250-278 | an empty cache |
| `Slabs.SlabCache.Rehome` | kernel/mm/slab.c:191-210 | the slab ends on the list its free count calls for |
| `Slabs.SlabCache.ReleaseOne` | kernel/mm/slab.c:216-227 | only a slab with all objects free is given back |
| `Slabs.SlabCache.Reclaim` | kernel/mm/slab.c:216-227 | empty slabs beyond the limit are given back, no other changes |
| `Slabs.SlabCache.PushObject` | kernel/mm/slab.c:236-245 | an object returns to its own slab |
| `Slabs.SlabCache.TakeOne` | kernel/mm/slab.c:271-276 | one object moves from slab to magazine |
| `Slabs.SlabCache.TakeFrom` | kernel/mm/slab.c:271-276 | as many as needed and there |
| `Slabs.SlabCache.Grow` | kernel/mm/slab.c:131-171 | a new slab, all free, joins the cache |
| `Slabs.SlabCache.Refill` | kernel/mm/slab.c:250-278 | the magazine stays empty exactly when no slab has a free object and no page is to be had |
| `Slabs.SlabCache.Alloc` | kernel/mm/slab.c:421-464 | hands out an object nobody had; fails exactly when there is none |
| `Slabs.SlabCache.TakeLast` | kernel/mm/slab.c:442-445 | the magazine's top goes to the caller |
| `Slabs.SlabCache.IsHeld` | kernel/mm/slab.c:473-490 | the free-list mark and the magazine together say whether a slot is with a caller |
| `Slabs.SlabCache.MakeRoom` | kernel/mm/slab.c:500-516 | a full magazine gives its oldest batch back |
| `Slabs.SlabCache.Deposit` | kernel/mm/slab.c:517-518 | the object goes from the caller to the magazine's top |
| `Slabs.SlabCache.Free` | kernel/mm/slab.c:473-535 | accepted exactly when the slot is with a caller; a refusal changes nothing |
| `Slabs.SlabCache.FlushFront` | kernel/mm/slab.c:346-352 | the oldest objects return to their slabs, the rest keep their order |
| `Slabs.SlabCache.Shrink` | kernel/mm/slab.c:354-362 | afterwards every slab has an object with a caller |
| `SlabLayout.MostObjects` | kernel/mm/slab-core.c:42-54 | the largest number of objects that fits |
| `SlabLayout.ComputeLayout` | kernel/mm/slab-core.c:36-69 | there is a layout for every legal size and alignment, of the smallest order with four objects if any |
| `SlabLayout.SlotsApart` | kernel/mm/slab-core.c:26-34 | header, link array, redzones and objects do not overlap, and objects are aligned |
| `SlabLayout.IndexExact` | kernel/mm/slab-core.c:71-80 | an offset has an index exactly when it is the start of that object |

## Left out

Within the modelled cores:

- Lockdep.LockdepGraph.HasEdge: the adjacency words are a boolean matrix here; packing bits into words is not modelled.
- Validator.Kernel.Acquire: the graph's own lock, the panic check, stack traces, the text of reports and the reports a kernel test expects are left out.
- LockRuns.NoCircularWait: locks are taken in process context only, because the validator deliberately does not order locks across interrupt contexts. Every validated acquire records all its edges: the edge table is never full in these runs. Preemption counts are left out.
- TicketLock.StepRefines: the atomic operations are sequentially consistent steps; memory ordering is left out.
- Paging.PtBuilder.MapRange: assumes, as its callers ensure, a physical range below 2^52 and flags that are present and hold no address bits.
- Paging.PtBuilder.constructor: the pool is zeroed by construction; a page-aligned, nonempty pool below 2^52 is assumed.
- Pmm.Allocator.FreeBlock: intrusive lists are sequences of frames and page pointers are frame numbers; freeBlocks counters are the lists' lengths.
- Pmm.Allocator.AllocPages: zeroing, poison, reference counts and the allocator's lock are left out, and there is one CPU's cache.
- PmmInit.Init: how many frames the page array and its tables take is a parameter, and mapping them and looking them up through the direct map are left out.
- Kva.KvaState.Free: the live count is taken to be below 2^32, as its field is.
- GifLzw.DrawFrame: starts at the frame's data; parsing the container, disposal and timing are left out. The canvas is a two-dimensional array instead of a row-major one.
- Bpe.Compress: names are rewritten as values, not in place in one buffer; allocation failure is left out.
- Ksym.EncodeThenLookup: says nothing of tables whose stream starts at or is longer than 4 GiB. The encoder accepts them and `KsymLookup.HeaderSays` says that their headers are wrong; which lookups then fail depends on the bytes read instead.
- KsymLookup.Lookup: on a blob the encoder did not write it states termination, no reading outside the blob and the two possible results, and nothing about which one.
- RasterEdges.Flattener.Line: points are given in fixed point, and the edge list does not run out of memory; rounding coordinates and cutting curves into segments are left out.
- Raster.Fill: scratch allocation failure is left out, and bands are two-dimensional arrays.
- Timers.TimerQueue.Arm: timers are numbered records and the clock is a parameter; one CPU, after initialization.
- Slabs.SlabCache.Free: starts from a resolved slab and slot; finding them from a pointer, redzones, poison and constructors are left out.
- Slabs.SlabCache.Alloc: which slabs the page allocator would supply is a parameter; one cache and one CPU.

Other parts of the repository:

- Filesystems, networking, cryptography, audio, drivers, the user interface, applications and the C library.
- Boot menus, firmware calls, video modes, ACPI parsing, the console, logging and panic output.
- PNG, JPEG and BMP containers, curves, stroking and blending.
- vmm and vmalloc, which mostly wrap architecture code.
