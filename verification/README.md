# ProsperoAI core models

A Dafny model of the parts of ProsperoAI that carry its hardest invariants, with the
properties its comments and headers promise proved for all inputs and all runs. Each part
models the C code at its own level: objects whose methods update fields and buffers are
classes with the same branches, loops and error returns, and every such method is proved
against a specification on values, about which the main results are lemmas.

**Static memory planning** (`memory/planner.c`, `graph/graph.c`, `scheduler/scheduler.c`;
files `Mem`, `Seqs`, `Planner`, `PlannerSafety`, `PlannerTheorems`, `PlannerBuild`, `Tensor`,
`Net`, `TopoSort`, `Lifetimes`, `Graph`, `Execution`, `Executor`). A graph of
single-assignment values is sorted by Kahn's algorithm, each value gets a lifetime in
epochs, and a sweep with a best-fit coalescing free list packs all values into one region.
The end result is `Executor.PlanAndExecute`: running the ops by epoch over the planned
region gives every output the contents that private storage for every value gives.

**Buddy allocator** (`memory/allocator.c`; files `BuddyTree`, `BuddyMemory`, `BuddySteps`,
`BuddyFacts`, `Buddy`). Memory is an array of 8-byte words with in-band headers,
backpointers and intrusive lists. A ghost tree of blocks says what the words mean; every
operation keeps headers, lists, counters and full coalescing in step with it.

**Prospero Protocol** (`protocol/crc32.c`, `protocol/frame.c`, `protocol/connection.c`; files
`Bytes`, `Crc32`, `Frame`, `Streams`, `Sessions`, `Protocol`, `ProtocolRuns`, `Handshake`,
`Reassembly`, `Endpoint`, `Connection`). The CRC against its bitwise definition, the frame
codec, the handlers, stream bracketing over every run, the two-party handshake over every
interleaving, and reassembly from arbitrary fragments.

**Prospero IR** (`ir/ir.c`, `ir/ir_graph.c`; files `Ir`, `IrRoundTrip`, `IrCode`, `IrGraph`). The
builders, the flat serialization with its checksum, the decoder's bounds and consistency
checks, and the bridge from graphs to programs and back.

**JSON gateway** (`gateway/json.c`; files `Json`, `JsonRoundTrip`, `JsonTrim`, `JsonDoc`,
`JsonParser`, `JsonWriter`). The recursive-descent parser with its depth, node and string
limits filling a node pool with sibling links and a string arena, the writer, and the round
trip between them.

**Codecs** (`compression/kraken_decode.c`, `models/tokenizer.c`, `models/quantize.c`; files
`LzCopy`, `LzRuns`, `Tokenizer`, `TokenizerCode`, `Quantize`). The LZ match copy with the
exact condition under which it is LZ77, the command interpreter, the tokenizer's lossless
round trip with its exact condition, and the quantizer's error bound over exact reals.

## What the proofs found

- `pai_mem_align_up` wraps at 2^64 inside the planner's sweep. `PlannerTheorems.WrapOverlaps`
  gives two requests that then share bytes; `RunInvExactly` says exactly which sweeps keep
  their invariant. Rounding up the region can wrap too, and then OK comes with region_bytes 0
  (`RegionExactly`, `RegionWraps`).
- `kk_copy_match` is not LZ77 when the distance is below 8, the match is longer than the
  distance and no multiple of it (`LzCopy.FaithfulExactly`), although its comment claims all
  small distances (`LzCopy.UnfaithfulDiffers`). A match of distance 0 never ends
  (`LzCopy.CopyEndsExactly`). A far match with a positive offset is always refused
  (`LzRuns.FarOnlyToChunk`).
- The ranked merges of the tokenizer are either idle or harmful. A merge that fires on any text
  makes its own text undecodable (`Tokenizer.FiringFails`), and a merge into the token that
  spells its pair never fires, because greedy matching takes that token first
  (`Tokenizer.SpelledMergeIdle`). `pai_tok_add_merge` accepts merges into ids without a token
  (`Tokenizer.UnknownResultFails`).
- `pai_tok_finalize` lets the 256 byte-fallback ids wrap for very high token ids, and then
  encoding is not reversible, or only if the low tokens agree with their bytes
  (`Tokenizer.RoundTripExactly`, `Tokenizer.WrappedFallbackFails`, `Tokenizer.LowTokenFails`).
- The 32-bit `flags` of a frame keep only their low 16 bits on the wire (`Frame.RoundTrip`).
- A graph with an op that has no input or no output can be saved as an IR blob, but the
  decoder then refuses it; `IrRoundTrip.RoundTrip` and `IrGraph.SaveAndLoad` say exactly
  when loading succeeds.
- A JSON string may contain NUL (as `\u0000`), but the writer stops at it
  (`JsonTrim.NulLost`); writing and parsing gives the tree back exactly if no string holds one
  (`JsonTrim.TrimSame`).
- A stream frame with request id 0 finds a free slot of the stream table and is treated as
  belonging to an open stream (`ProtocolRuns.StreamZeroUnbracketed`);
  `ProtocolRuns.ZeroBracketedExactly` says exactly which runs that spoils.

## Model

| member | source | states |
|---|---|---|
| `Mem.AlignUpBounds` | memory/mem.h:17-27 | without wrap-around, align_up yields an aligned value less than one alignment above its argument |
| `Mem.AlignUpLeast` | memory/mem.h:17-27 | and that value is the least such one |
| `Mem.AlignUpWraps` | memory/mem.h:17-27 | once `v + align` passes 2^64 the result is 0 |
| `Mem.CeilLog2` | memory/mem.h:29-43 | least exponent whose power of two reaches v, clamped to 63 |
| `Mem.FloorLog2` | memory/mem.h:45-55 | greatest exponent whose power of two does not exceed v |
| `Planner.AllocCmpTransitive` | memory/planner.c:28-46 | the sort comparison is a preorder, so sorting by it is meaningful |
| `PlannerBuild.SortByCmp` | memory/planner.c:155-170 | the sorted entries are a permutation of the requests in comparison order |
| `PlannerBuild.FreeList.Insert` | memory/planner.c:98-142 | the in-place linked list realises the insertion with coalescing, and drops the range when the pool is exhausted |
| `PlannerBuild.FreeList.Take` | memory/planner.c:233-262 | best-fit search, unlinking and giving back both ends of the range |
| `PlannerBuild.ReleaseEnded` | memory/planner.c:191-205 | exactly the live records that have ended return to the free list |
| `PlannerSafety.InsertSeparated` | memory/planner.c:98-142 | insertion keeps the ranges sorted, disjoint and non-adjacent inside the cursor, dropped ranges included |
| `PlannerSafety.InsertClear` | memory/planner.c:98-142 | no range that was disjoint from the free list and the inserted range meets the new free list |
| `PlannerSafety.ReleaseLayout` | memory/planner.c:191-205 | free and live ranges stay pairwise disjoint inside [0, cursor) when ended requests are released |
| `PlannerSafety.CarveLayout` | memory/planner.c:233-262 | the same when a block is carved out of a free range |
| `PlannerTheorems.RunInv` | memory/planner.c:175-287 | after every sweep in which no step that extends the region wraps, requests with intersecting lifetimes or pinned ones have disjoint, aligned ranges below the cursor |
| `PlannerTheorems.RunInvExactly` | memory/planner.c:175-287 | the invariant holds after every prefix exactly if no extending step wraps |
| `PlannerTheorems.WrappedStep` | memory/planner.c:264-276 | a step that wraps is placed at offset 0 and sets the cursor back |
| `PlannerTheorems.WrappedSafeIff` | memory/planner.c:264-276 | whether that step already makes live requests share bytes |
| `PlannerSafety.FitsInside` | memory/planner.c:208-231 | a free range that passes the best-fit test holds the aligned block, also where rounding its offset wraps |
| `PlannerTheorems.RunPeak` | memory/planner.c:222-231 | without pinned requests, peak_live is exactly the maximum over all steps of the live bytes |
| `PlannerTheorems.RunNaive` | memory/planner.c:268-306 | with one common alignment the cursor never exceeds naive_bytes |
| `PlannerTheorems.RoomSuffices` | memory/planner.c:264-276 | requests whose padded sizes sum to at most 2^64 neither wrap nor overflow |
| `PlannerTheorems.ExtendFreshIff` | memory/planner.c:264-276 | extending the region yields a fresh range exactly when the cursor leaves room for the alignment below 2^64 |
| `PlannerTheorems.WrapOverlaps` | memory/planner.c:264-276 | two accepted requests, live together, that the wrapped sum places on the same bytes |
| `PlannerTheorems.PlanTheorem` | memory/planner.c:144-313 | the returned plan: offsets in insertion order are disjoint, aligned and inside region_bytes exactly if rounding the region up does not wrap; peak_live is exact and then at most region_bytes |
| `PlannerTheorems.RegionExactly` | memory/planner.c:289-296 | region_bytes covers the cursor exactly if the arena alignment fits below 2^64, and is 0 otherwise |
| `PlannerTheorems.RegionWraps` | memory/planner.c:289-296 | an accepted request for which OK comes with region_bytes 0 |
| `PlannerTheorems.NaiveTheorem` | memory/planner.c:289-306 | with one alignment and no arena alignment region_bytes is at most naive_bytes and reuse_bytes is their difference |
| `PlannerTheorems.RoomyPlan` | memory/planner.c:144-313 | a caller-checkable bound on the sizes under which no step wraps |
| `PlannerBuild.MemPlanner.SetArenaAlign` | memory/planner.c:54-60 | accepts exactly the powers of two |
| `PlannerBuild.MemPlanner.AddCommon` | memory/planner.c:62-83 | accepts exactly the well-formed requests while there is room, and appends them |
| `PlannerBuild.SweepAll` | memory/planner.c:172-287 | the sweep loop refines the specification run and scatters the offsets back to insertion order |
| `PlannerBuild.MemPlanner.Build` | memory/planner.c:144-313 | NOMEM exactly when the region would overflow; otherwise the plan is the sweep's, and sound exactly if the region's end fits, as long as no step wraps |
| `Tensor.ContiguousSize` | tensor/tensor.c:62-92 | the byte size is element count times element size, refused exactly when it or a partial product overflows |
| `Net.EpochsAcyclic` | graph/graph.c:117-182 | a graph with producer-before-consumer epochs has no dependency cycle |
| `Net.StuckCycle` | graph/graph.c:165-182 | a nonempty set of ops each fed by the set contains a cycle |
| `TopoSort.Kahn.Relax` | graph/graph.c:150-163 | one input position lowers one indegree, never below zero, and enqueues the op exactly when it reaches zero, also with repeated inputs |
| `TopoSort.Kahn.Drain` | graph/graph.c:145-164 | the queue holds distinct ops, and is emptied in order |
| `TopoSort.OrderEpochs` | graph/graph.c:165-182 | a complete queue makes the epochs a permutation of 0..n-1 with every producer before its consumers |
| `TopoSort.IncompleteCycle` | graph/graph.c:165-175 | an incomplete queue proves a cycle |
| `Graph.Graph.AddValue` | graph/graph.c:16-44 | accepted exactly for sizes that fit and power-of-two alignments; the new value |
| `Graph.Graph.AddOp` | graph/graph.c:46-101 | accepted exactly when operands exist, outputs have no producer and none repeats: single assignment is kept |
| `Graph.Graph.Sort` | graph/graph.c:117-182 | OK exactly when the op graph is acyclic; on OK the epochs are valid, on failure nothing changed |
| `Lifetimes.ReadInLifetime` | graph/graph.c:211-262 | every read of a value falls strictly inside its lifetime |
| `Lifetimes.LifetimeNonEmpty` | graph/graph.c:211-262 | exactly when a lifetime is nonempty, and its bounds |
| `Graph.Graph.ValueLifetimes` | graph/graph.c:210-262 | the arrays hold first definition and last use of every value |
| `Graph.Graph.ValueLifetimesPersistent` | graph/graph.c:192-208 | the same, with producer-less values kept to the end |
| `Graph.Graph.MemoryPlan` | graph/graph.c:264-328 | fails as a cycle or an unplannable value demands; otherwise the plan lays out every lifetime |
| `Execution.RunsAgree` | graph/graph.c:264-316 | after any number of steps every value whose lifetime is running has the same contents in the shared region as in private storage, for any deterministic ops |
| `Execution.OpInputsPreserved` | graph/graph.c:264-316 | every op reads from the region what it would read from private storage |
| `Execution.OutputsPreserved` | graph/graph.c:264-316 | every output ends with the contents of the private run |
| `Execution.ProducerlessConstant` | graph/graph.c:192-208 | no op writes a value without producer |
| `Execution.PersistentReload` | graph/graph.c:192-208 | under the persistent plan a whole run leaves all producer-less bytes as they were |
| `Execution.RerunOutputs` | graph/graph.c:192-208 | so any number of reruns on the same region gives the same outputs |
| `Execution.PlanIsLayout` | graph/graph.c:264-316 | a plan of the graph satisfies what execution needs of a layout |
| `Executor.BuildSchedule` | scheduler/scheduler.c:133-219 | the schedule lists the op of every epoch, and its gap check never fires on a sorted graph |
| `Executor.Execute` | scheduler/scheduler.c:346-632 | the step loop over the region is the shared run |
| `Executor.PlanAndExecute` | graph/graph.c:264-316 | planning and execution together: OK exactly for acyclic graphs whose kept values have a lifetime, and then every output equals that of private storage |
| `BuddyTree.BuddyIsSibling` | memory/allocator.c:199-201 | offset xor size is the other half of the parent block |
| `BuddyTree.AlignedIff` | memory/allocator.c:10-10 | block positions of an order are exactly the multiples of its size |
| `BuddyTree.PutCoalesced` | memory/allocator.c:151-167 | allocating never leaves two free buddies |
| `BuddyTree.FreeCoalesced` | memory/allocator.c:197-215 | freeing next to a buddy that is not free leaves no two free buddies |
| `BuddyTree.MergeCoalesced` | memory/allocator.c:197-213 | nor does merging with a free one |
| `BuddyTree.NoFreeMeansBlocked` | memory/allocator.c:148-157 | without a free block of the order or above, every aligned range of that order meets an allocated block |
| `BuddyTree.FreeMeansRange` | memory/allocator.c:148-157 | with one, some aligned range meets none |
| `BuddyTree.AllFreeIsOne` | memory/allocator.c:197-215 | a coalesced region without allocated blocks is one free block |
| `BuddyTree.ReleaseUndoesSpine` | memory/allocator.c:160-213 | releasing a block right after splitting restores the blocks |
| `BuddyMemory.HeaderTest` | memory/allocator.c:20-36 | wherever a block starts and whatever order is asked for, the header test is true exactly for a whole free block of that order |
| `BuddyMemory.RepPayload` | memory/allocator.c:20-22 | no write to a payload word changes what any header says |
| `BuddyMemory.UsedApart` | memory/allocator.c:128-177 | allocated blocks do not overlap |
| `BuddyMemory.ChainRemove` | memory/allocator.c:62-74 | redirecting one link removes exactly that block from its list |
| `BuddySteps.PopStep` | memory/allocator.c:51-60 | popping a block keeps headers, lists, coalescing and count for all others |
| `BuddySteps.SplitStep` | memory/allocator.c:161-168 | so does splitting and pushing the right half |
| `BuddySteps.FillUsedStep` | memory/allocator.c:170-177 | writing header and backpointer of the allocated block completes the state |
| `BuddySteps.TakeUsedStep` | memory/allocator.c:190-195 | taking an allocated block back |
| `BuddySteps.MergeStep` | memory/allocator.c:198-213 | unlinking the free buddy and joining it keeps everything else |
| `BuddySteps.FillFreeStep` | memory/allocator.c:215-216 | the merged block becomes free and joins its list |
| `BuddyFacts.ClampedLog` | memory/allocator.c:139-146 | the clamped logarithm is the least order that holds payload, worst alignment gap and header, or exceeds the region |
| `BuddyFacts.AlignedPayload` | memory/allocator.c:174-176 | the first aligned address behind a header, on a word boundary |
| `BuddyFacts.PayloadFits` | memory/allocator.c:139-177 | the payload lies inside its block behind header and backpointer |
| `BuddyFacts.NoFreeIffAllBlocked` | memory/allocator.c:148-157 | the scan finds nothing exactly when every aligned range of the order meets an allocated block |
| `BuddyFacts.PutKeepsUsed` | memory/allocator.c:159-177 | allocating leaves every live block as it is |
| `BuddyFacts.ReleaseKeepsUsed` | memory/allocator.c:190-216 | freeing one leaves every other live block as it is |
| `BuddyFacts.PayloadsDisjoint` | memory/allocator.c:7-18 | payloads of live blocks share no byte |
| `BuddyFacts.BytesPartition` | memory/allocator.h:34-34 | allocated and free blocks partition the region |
| `BuddyFacts.DrainedIsOneBlock` | memory/allocator.c:197-216 | once used_bytes is 0 the region is one block on the list of max_order and all other lists are empty |
| `BuddyFacts.SiblingTest` | memory/allocator.c:198-206 | during a merge the xor and the header test find exactly a free buddy that is on its list |
| `Buddy.Buddy.Init` | memory/allocator.c:76-89 | accepts exactly nonnull power-of-two regions of at least 128 bytes aligned to their size |
| `Buddy.Buddy.Push` | memory/allocator.c:44-49 | header, link and list head after a push |
| `Buddy.Buddy.Pop` | memory/allocator.c:51-60 | the first free block of the order, or none |
| `Buddy.Buddy.Remove` | memory/allocator.c:62-74 | the walk unlinks the block if it is on the list and changes nothing otherwise |
| `Buddy.Buddy.SmallestFree` | memory/allocator.c:148-155 | the least order with a free block |
| `Buddy.Buddy.SplitDown` | memory/allocator.c:160-168 | the left spine with free right halves |
| `Buddy.Buddy.Alloc` | memory/allocator.c:128-177 | NULL exactly for a malformed or oversized request or when every aligned range of its order meets an allocated block, and then nothing changed; otherwise the new blocks, the aligned payload, the counters, all old payloads kept |
| `Buddy.Buddy.MergeHeldUp` | memory/allocator.c:197-213 | merging goes all the way up |
| `Buddy.Buddy.Dealloc` | memory/allocator.c:179-218 | a live block is released and fully merged; null, foreign and already freed pointers change nothing |
| `Buddy.Buddy.LiveMayFree` | memory/allocator.c:183-192 | the pointer of a live block is always recognised |
| `Buddy.Buddy.UserWrite` | memory/allocator.c:20-22 | user writes to payloads keep every invariant |
| `Buddy.Buddy.UsedCount` | memory/allocator.c:220-223 | used_bytes is the sum of allocated block sizes |
| `Buddy.Buddy.Avail` | memory/allocator.c:225-228 | the rest is the sum of free block sizes |
| `Buddy.AllocThenFree` | memory/allocator.c:128-218 | allocating and freeing again restores blocks, count and all payload words |
| `Crc32.LookupIsShift` | protocol/crc32.c:14-24 | a table lookup stands for eight register shifts |
| `Crc32.ByteIsBits` | protocol/crc32.c:38-41 | one byte through the table is eight steps of the bit-at-a-time CRC |
| `Crc32.UpdateIsBitwise` | protocol/crc32.c:31-43 | the table-driven update is the bitwise reflected CRC of the message bits, for every byte string |
| `Crc32.UpdateAppend` | protocol/protocol.h:246-250 | hashing in chunks is hashing the concatenation |
| `Crc32.CrcInjective` | protocol/crc32.c:38-41 | distinct registers stay distinct under the same data |
| `Crc32.BurstDetected` | protocol/crc32.c:14-43 | two different windows of at most 32 bits never lead to the same register |
| `Crc32.CorruptionDetected` | protocol/crc32.c:14-43 | any change confined to four consecutive bytes changes the checksum |
| `Crc32.Table.Build` | protocol/crc32.c:14-24 | the nested loops fill the table |
| `Crc32.Table.Upd` | protocol/crc32.c:31-43 | the loop with the lazily built table computes the bitwise CRC |
| `Crc32.Table.OneShot` | protocol/crc32.c:50-54 | the checksum of a byte string |
| `Bytes.LeToLe` | protocol/frame.c:18-57 | reading back a little-endian field gives the value |
| `Bytes.LeInjective` | protocol/frame.c:39-57 | different field bytes are different values |
| `Frame.RoundTrip` | protocol/frame.c:64-143 | decoding an encoded frame gives every field back, the flags modulo 2^16, and the checksum matches |
| `Frame.CorruptionRejected` | protocol/frame.c:145-172 | corruption of at most four consecutive bytes inside one region other than the length field is always rejected |
| `Frame.Encode` | protocol/frame.c:64-112 | the buffer holds the wire image; refused exactly for oversized payloads, the compression flag or too small a buffer, and then untouched |
| `Frame.Validate` | protocol/frame.c:145-172 | OK exactly for a well-formed header with matching checksum |
| `Streams.BeginTable` | protocol/connection.c:296-309 | a stream opens exactly when it is not open and a slot is free, with ordinal 0, and no other stream changes |
| `Streams.EndTable` | protocol/connection.c:311-318 | ending closes that stream and no other |
| `Streams.BumpTable` | protocol/connection.c:420-422 | counting a token advances the ordinal of its stream only, modulo 2^32 |
| `Streams.StreamTable.BeginStream` | protocol/connection.c:296-309 | the loop over the slots: PROTOCOL if the stream is open, NOMEM if no slot is free, else the first free slot takes the id with ordinal 0 |
| `Streams.StreamTable.EndStream` | protocol/connection.c:311-318 | the loop over the slots clears the slot of the id, if it has one |
| `Sessions.SkipBound` | protocol/connection.c:234-244 | at most 17 ids in a row are zero or open, so the search for a session id ends |
| `Sessions.Registry.Open` | protocol/connection.c:226-254 | a nonzero id that is not open, the next such one also after wrap-around; fails exactly when the table is full |
| `Sessions.Registry.Close` | protocol/connection.c:256-267 | that id is no longer open and every other one is as before |
| `Protocol.PairRoundTrip` | protocol/message.c:82-124 | a capability mask survives its payload |
| `ProtocolRuns.DispatchForward` | protocol/connection.c:430-644 | one frame never moves the state backwards, takes back no callback or sent frame, and keeps what was negotiated once open |
| `ProtocolRuns.RunForward` | protocol/connection.c:650-763 | the same over every run |
| `ProtocolRuns.DispatchInStep` | protocol/connection.c:327-424 | one frame keeps the stream table in step with the callbacks |
| `ProtocolRuns.Bracketed` | protocol/connection.c:320-326 | over every run and nonzero request id: data only after begin, no second begin while open, nothing after end or COMPLETE, token ordinals 0, 1, 2, ... modulo 2^32; open ids distinct |
| `ProtocolRuns.StreamZeroUnbracketed` | protocol/connection.c:286-294 | a run from the start, an accepted HELLO and a TOKEN, that reports a token of stream 0 without a beginning |
| `ProtocolRuns.ZeroDispatch` | protocol/connection.c:327-424 | one frame breaks the bracket of id 0 exactly if it is a well-formed stream frame without START that names id 0 while a slot is free |
| `ProtocolRuns.ZeroBracketedExactly` | protocol/connection.c:286-294 | so for id 0 a run is bracketed exactly if it has no such frame |
| `Handshake.StepKeeps` | protocol/connection.c:430-576 | every step of either side keeps the system invariant |
| `Handshake.Agreement` | protocol/connection.c:480-546 | in every interleaving an open client and its server have equal negotiated capabilities, offered by both |
| `Handshake.NeverAfterNack` | protocol/connection.c:548-557 | once the server has refused, no continuation opens the client |
| `Handshake.Monotone` | protocol/protocol.h:495-500 | neither end steps back along NEW, NEGOTIATING, OPEN, CLOSED |
| `Reassembly.PrefixOfSent` | protocol/connection.c:650-763 | what is recovered from any part of the stream is a prefix of the frames sent, and nothing in it looks malformed |
| `Reassembly.AllArrived` | protocol/connection.c:650-763 | once the whole stream is read, all of them |
| `Endpoint.Endpoint.SendUnchecked` | protocol/connection.c:108-149 | the bytes handed to the transport are the wire image of the frame, or none |
| `Endpoint.Endpoint.StartNegotiation` | protocol/connection.c:430-458 | the HELLO and the new state |
| `Endpoint.Endpoint.HelloServer` | protocol/connection.c:480-525 | refuses the version, refuses for lack of capabilities, or agrees, as specified |
| `Endpoint.Endpoint.Stream` | protocol/connection.c:327-424 | the stream handler on the table arrays is its specification |
| `Endpoint.Endpoint.Receive` | protocol/connection.c:740-750 | dispatch; a rejected frame closes the connection |
| `Connection.Connection.FillHeader` | protocol/connection.c:662-702 | phase 1: header bytes are the next ones of the stream; closes only for a lost transport or a malformed header |
| `Connection.Connection.FillPayload` | protocol/connection.c:704-727 | phase 2: the same for the payload |
| `Connection.Connection.Deliver` | protocol/connection.c:729-752 | phase 3: dispatches exactly the frame that the bytes spell, or closes because they spell none |
| `Connection.Connection.Poll` | protocol/connection.c:650-763 | one poll dispatches at most 64 frames, does what a run over them does, and makes progress while bytes are there |
| `Connection.Connection.PollUntilIdle` | protocol/connection.c:650-763 | repeated polling ends, with nothing unread or the connection closed; what it does to the endpoint is one run over the frames it logs |
| `Connection.DispatchedIsPrefix` | protocol/connection.c:650-763 | for any fragmentation and any number of polls, the logged frames, over which each poll is a run, are a prefix of those sent, field by field |
| `Connection.DispatchedIsAll` | protocol/connection.c:650-763 | and all of them once all bytes are read and nothing closed the connection |
| `Connection.ReceiveAll` | protocol/connection.c:650-763 | a fresh connection that polls a whole stream does to its endpoint what one run over all frames sent does, whatever the pieces; over a prefix if the transport is lost; no false corruption |
| `IrRoundTrip.RoundTrip` | ir/ir.c:245-526 | decoding an encoded program gives every value, op and id list back, exactly when every op has an input and an output; otherwise the blob is refused |
| `IrRoundTrip.DecodeSound` | ir/ir.c:417-525 | whatever decodes obeys all builder rules, and saving and loading it again gives it back |
| `IrRoundTrip.TruncatedRejected` | ir/ir.h:224-225 | no proper prefix of a blob decodes, even with a matching checksum |
| `IrRoundTrip.CorruptionRejected` | ir/ir.h:224-225 | a change of at most four consecutive bytes in hashed header, checksum, reserved word or body is always refused |
| `IrRoundTrip.ValueReads` | ir/ir.c:271-290 | a value record read back gives every field |
| `IrRoundTrip.OpsRead` | ir/ir.c:464-504 | so do op records of any arity, unless one lacks operands |
| `IrCode.PutOp` | ir/ir.c:294-310 | the bytes of one op record, behind what was written, with nothing else touched |
| `IrCode.MeasureOps` | ir/ir.c:388-401 | the bounds pass succeeds exactly if the body holds all op records, and finds their end |
| `IrCode.ReadValue` | ir/ir.c:422-461 | a value record is accepted exactly if ranges, quantization, size and alignment are consistent |
| `IrCode.ReadOp` | ir/ir.c:464-503 | an op record is accepted exactly if its operands exist, its outputs are distinct and none is an input |
| `IrCode.IrProgram.AddValue` | ir/ir.c:26-59 | accepted exactly for known kinds, sizes that fit and power-of-two alignments; the new value |
| `IrCode.IrProgram.SetQuant` | ir/ir.c:61-80 | accepted exactly for existing values and consistent schemes |
| `IrCode.IrProgram.AddOp` | ir/ir.c:82-127 | accepted exactly when operands exist, outputs are distinct and none is consumed |
| `IrCode.IrProgram.EncodedSize` | ir/ir.c:225-243 | the length of the blob |
| `IrCode.IrProgram.Encode` | ir/ir.c:245-333 | the buffer holds the blob and is otherwise untouched; refused exactly if it is too small |
| `IrCode.IrProgram.Decode` | ir/ir.c:335-526 | the program of the blob, or the error; never a program that breaks a builder rule |
| `IrGraph.FromGraph` | ir/ir_graph.c:59-122 | succeeds exactly for known op kinds; the program mirrors values, ops, kinds and flags |
| `IrGraph.CanAddIff` | graph/graph.c:67-77 | the graph takes the next op of a program exactly if no earlier op has one of its outputs |
| `IrGraph.ToGraph` | ir/ir_graph.c:124-176 | succeeds exactly for single-assignment programs; the graph has its values, ops and flags |
| `IrGraph.SameProducer` | graph/graph.c:96-98 | the producer of a value is determined by the ops |
| `IrGraph.ThereAndBack` | ir/ir_graph.c:59-176 | a graph turned into a program and back is the same graph, epochs excepted |
| `IrGraph.SaveAndLoad` | ir/ir_graph.c:59-176 | converting, encoding, decoding and converting back: exactly when it succeeds, and then values, ops, producers and flags are the same |
| `JsonRoundTrip.EscapeRead` | gateway/json.c:784-831 | the escape the writer chooses for a byte is read back as that byte, for all 256 |
| `JsonRoundTrip.StringRead` | gateway/json.c:214-360 | a quoted string is read back byte for byte |
| `JsonRoundTrip.NumberRead` | gateway/json.c:148-210 | a printed integer is read back exactly |
| `JsonRoundTrip.ValueRead` | gateway/json.c:380-535 | the text of a value at any place, depth and node count is parsed to that value |
| `JsonRoundTrip.RoundTrip` | gateway/json.c:839-914 | parse(serialize(v)) is v for every tree within the limits |
| `JsonRoundTrip.ParsedWithin` | gateway/json.c:380-535 | nothing beyond the depth, node and string limits is ever accepted |
| `JsonRoundTrip.RoundTripExactly` | gateway/json.c:538-559 | so the round trip holds exactly within the limits |
| `JsonTrim.TrimSame` | gateway/json.c:855-858 | cutting strings at their first NUL changes nothing exactly if no string holds one |
| `JsonTrim.NulLost` | gateway/json.c:855-858 | an accepted text whose string the writer drops |
| `JsonParser.StringLoop` | gateway/json.c:214-360 | the loop decodes escapes, surrogate pairs and plain bytes as specified, or refuses |
| `JsonParser.NumberLoop` | gateway/json.c:148-210 | the loops over digits, fraction and exponent compute the specified number |
| `JsonParser.Doc.AppendChild` | gateway/json.c:364-377 | walking to the last sibling and linking behind it appends one child and changes no other node |
| `JsonParser.Doc.ItemsAt` | gateway/json.c:379-535 | the item loop leaves nodes that are exactly the parsed items in order |
| `JsonParser.Doc.MembersAt` | gateway/json.c:379-535 | the member loop does so with keys |
| `JsonParser.Doc.ValueAt` | gateway/json.c:380-535 | the new nodes and strings are the parsed tree, everything older unchanged; or the exact error |
| `JsonWriter.ParseDocument` | gateway/json.c:538-559 | the document of a text is its tree, or the error |
| `JsonWriter.Writer.Quote` | gateway/json.c:784-831 | the buffer is extended by the quoted string |
| `JsonWriter.Writer.Serialize` | gateway/json.c:839-914 | following sibling links writes the text of the tree |
| `JsonWriter.WriteAndParse` | gateway/json.c:538-914 | writing a document and parsing it gives the same tree, strings cut at NUL, in as many nodes |
| `LzCopy.ExpandAt` | compression/kraken_decode.c:137-140 | the byte-at-a-time copy repeats the last `dist` bytes |
| `LzCopy.FaithfulExactly` | compression/kraken_decode.c:137-172 | the block copy is the LZ77 expansion for all contents exactly when the distance is at least 8, or the match is no longer than it, or a multiple of it |
| `LzCopy.UnfaithfulDiffers` | compression/kraken_decode.c:164-171 | for every other distance and length some contents come out wrong |
| `LzCopy.ZeroStays` | compression/kraken_decode.c:164-171 | from position 0 no number of doubling turns gets anywhere |
| `LzCopy.CopyEndsExactly` | compression/kraken_decode.c:141-172 | a copy ends exactly if its distance is not 0 or there is nothing to copy |
| `LzCopy.CopyMatch` | compression/kraken_decode.c:141-172 | whether the copy ends, what it writes then, for every distance and length, and that it writes nothing else |
| `LzRuns.HangsExactly` | compression/kraken_decode.c:141-172 | so a match never ends exactly at distance 0 and a positive length |
| `LzRuns.FarOnlyToChunk` | compression/kraken_decode.c:580-596 | a far match with a positive offset is always refused, so far matches copy from the start of the chunk only |
| `LzRuns.DecodeFills` | compression/kraken_decode.c:531-696 | success fills the half exactly, keeps the history and uses every command |
| `LzRuns.Runs.Command` | compression/kraken_decode.c:549-673 | each command succeeds, fails or never ends as specified |
| `LzRuns.KkRuns` | compression/kraken_decode.c:531-696 | in mode 1 the interpreter returns as the specification does, with the same cursors, and unless some match was not faithful the buffer is the LZ77 expansion |
| `Tokenizer.BestIsBest` | models/tokenizer.c:142-160 | the scan finds the longest token that starts the text, the first of those |
| `Tokenizer.NoPairRemains` | models/tokenizer.c:195-213 | after the loop of a rank no pair of that rank is left |
| `Tokenizer.PairLocal` | models/tokenizer.c:185-195 | two adjacent greedy ids are the greedy output of their own text, whatever stood around it |
| `Tokenizer.GreedyHasNoPair` | models/tokenizer.c:185-213 | a pair that greedy matching does not yield for its own text occurs in no greedy output, so its merge never fires |
| `Tokenizer.IdleByText` | models/tokenizer.c:185-213 | below the highest id that is a check of one greedy match per merge |
| `Tokenizer.SpelledMergeIdle` | models/tokenizer.c:142-160 | a merge into the token that spells its pair never fires: greedy matching has taken that token already |
| `Tokenizer.FiringFails` | models/tokenizer.c:197-226 | a merge that fires at all makes its own text undecodable, whatever its result |
| `Tokenizer.UnknownResultFails` | models/tokenizer.c:70-110 | an accepted merge of two byte tokens into an id without a token |
| `Tokenizer.MergeSpells` | models/tokenizer.c:201-208 | merging a pair into a token that spells both changes no text, whatever the ids |
| `Tokenizer.RoundTrip` | models/tokenizer.h:5-7 | with readable ids and idle merges the ids are the greedy output, and decoding them gives back every byte string |
| `Tokenizer.RoundTripExactly` | models/tokenizer.c:112-226 | for every finalized vocabulary: all texts come back exactly if the 256 fallback ids behind the highest id fit in 32 bits (or wrap to 0..255 and agree with the tokens there) and no merge ever fires |
| `Tokenizer.WrappedFallbackFails` | models/tokenizer.c:112-123 | otherwise the byte 0 encodes to an id that decode rejects |
| `Tokenizer.LowTokenFails` | models/tokenizer.c:234-250 | with the highest id, a token below 256 that is not its own byte loses its text |
| `Tokenizer.HighestIdFails` | models/tokenizer.c:112-123 | a vocabulary with the highest id of all whose low token decodes to a wrong byte |
| `TokenizerCode.Tok.AddToken` | models/tokenizer.c:23-68 | accepted exactly for 1 to 255 bytes, a new id and a free place; the new vocabulary |
| `TokenizerCode.Tok.AddMerge` | models/tokenizer.c:70-110 | accepted exactly for known sides and a free place |
| `TokenizerCode.Tok.Finalize` | models/tokenizer.c:112-123 | the fallback base |
| `TokenizerCode.Tok.MatchPrefix` | models/tokenizer.c:142-160 | the loop finds the specified token |
| `TokenizerCode.Tok.RankLoop` | models/tokenizer.c:200-213 | the restarting loop with memmove ends and is the specified rank |
| `TokenizerCode.Tok.Encode` | models/tokenizer.c:162-226 | the ids, or the exact reason why not, with the caller's buffer untouched |
| `TokenizerCode.Tok.Decode` | models/tokenizer.c:228-275 | the text with its closing NUL, or the first reason why not |
| `TokenizerCode.EncodeDecode` | models/tokenizer.h:5-7 | encode and decode through buffers do what the specification says, and give back the text for exactly those vocabularies |
| `Quantize.NeverClamped` | models/quantize.c:111-118 | inside its group a value is never clamped |
| `Quantize.ErrorBound` | models/quantize.c:96-121 | rounding loses at most half a scale |
| `Quantize.StoreReads` | models/quantize.c:122-136 | packing in place stores exactly the value and changes no other element, for every parity |
| `Quantize.QuantizeAll` | models/quantize.c:73-142 | every element is stored with the scale of its own group, the padding nibble is zero, the group count is right |
| `Quantize.DequantizeAll` | models/quantize.c:145-181 | every element is scale times the stored value |
| `Quantize.QuantizeRoundTrip` | models/quantize.c:73-181 | for both widths, every group size and length, every element comes back within half the scale of its group |

## Left out

- Allocation failure of the C library (`malloc`, `calloc`) and the NULL-pointer argument checks; both only add early error returns.
- GPU, platform, desktop, HTTP, sockets, threads, files, logging and clocks: input/output plumbing.
- The bit-twiddling forms `v & (v - 1)`, `v & ~(align - 1)`, `off ^ size` and flag tests are modelled by their arithmetic meaning.
- PlannerTheorems.RunInv: assumes that no extending step wraps at 2^64, which the code does not check; `RunInvExactly` shows that the condition is exact and `WrapOverlaps` that requests can then share bytes.
- Executor.PlanAndExecute: for graphs whose sizes and alignments sum to less than 2^64; beyond that a plan may wrap.
- PlannerTheorems.RunPeak: speaks of plans without pinned requests; with pinned ones the code counts them differently.
- `pai_mem_plan_check_budget`, the region size query functions and the scheduler's device policies: easy members.
- The kernels that the scheduler calls are arbitrary deterministic functions from input contents to output contents.
- Buddy.Buddy.Init: regions of at most 2^30 bytes, the documented limit; the code does not check it. `pai_buddy_init_owned` and `pai_buddy_destroy` only wrap the C allocator.
- The order field of a block header and the padding beside it are one memory word; statistics counters other than used_bytes are unbounded integers.
- Buddy.Buddy.Dealloc: pointers that are neither null, foreign, stale nor live are undefined behaviour in the source and excluded.
- `protocol/transport_pipe.c` and the TCP transport: channels are byte queues that deliver arbitrary nonempty pieces or fail.
- Endpoint.Endpoint.SendUnchecked: the transport takes a whole frame or nothing; a failure between header and payload is not modelled.
- Callbacks do not call back into the connection; what they return is an arbitrary function of the frame's number.
- `conn_set_closed` drops a half-received frame at once; in the model the receive buffers of a closed connection are simply no longer looked at.
- The payload codecs of `protocol/message.c` other than the pair, token and stream-data decoders, and the text of ERROR replies, which is a parameter.
- ProtocolRuns.Bracketed: request id 0 is excluded, because there the claim is false; `ZeroBracketedExactly` gives the condition.
- LzRuns.KkRuns: delta-coded literals (mode 0) are not modelled, nor a half shorter than its start offset; the Huffman, RLE and container layers around the interpreter add parsing only.
- LzCopy.CopyMatch: the model gives up after as many doubling turns as there are bytes and reports that the copy never ends; the code would go on.
- The encoder `compression/kraken_encode.c`, and so any end-to-end LZ round trip.
- `pai_tok_serialize` and `pai_tok_deserialize`: a flat field list.
- Quantize.QuantizeRoundTrip: over exact reals; IEEE rounding of scale and product is not modelled.
- IrCode.IrProgram.Decode: after a refusal the program object is unspecified, as in the source, which leaves it half filled.
- `pai_ir_*_name` and the kernel IR.
- JsonWriter.Writer.Serialize: numbers other than integers of at most seven digits, which "%.7g" rounds or prints with an exponent.
- JsonParser.NumberLoop: numbers are exact reals; the rounding of doubles is not modelled.
- The growth of node pool, string arena and text buffers by `realloc`, and their 32-bit capacities.
- The accessors of a JSON document (`pai_json_member` and the like): easy members.
- Sampler, softmax, embeddings, KV cache, arena allocator and kernel lowering.
