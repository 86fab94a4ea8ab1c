# A verified model of AFL++ with the IgorFuzz layer

This project models five parts of the fuzzer and proves what they are for. Every module stands beside the
source file it models; `dafny verify dfyconfig.toml` checks the whole.

**Hashing (`engine/include/xxhash.h`).** `Xxh3`, `Xxh3OneShot` and `Xxh3Stream` model the long-input machinery
of XXH3: stripes of 64 bytes, blocks of stripes, a scramble at each block end, a 256-byte buffer in front. The
mixing routines are fields of a `Kernel`, as the header passes them as function pointers, so the theorem that
streaming equals one-shot hashing holds for any of them, every key and every way of cutting the input.
`Xxh32` and `Xxh64` do the same for the two older hashes of the "xxHash fast digest algorithm" specification.
`Mult128` and `Xxh3Lanes` hold the arithmetic: the portable 128-bit product, and the scalar, SSE2, AVX2 and
AVX-512 lanes; `Xxh3Dispatch` makes them a kernel and applies the streaming theorem to it. `Stripes`, `Words` and
`Bits` are shared.

**Coverage pruning.** `DominatorPruning` is the graph theorem behind PCGUARD and LTO block selection: on a flow
graph without critical edges the instrumented blocks that a run hits determine all blocks and edges it visits.
A concrete graph shows that the hypothesis is needed. `PredecessorPruning` is the rule of the GCC and LLVM
passes, with a decoder that rebuilds the path from the hits.

**The pooled list (`list.h`, `afl-prealloc.h`).** `PooledList` is the heap structure, proved against a sequence,
with exact accounting of the 64 embedded slots.

**The target runtime (`afl-compiler-rt.o.c`).** `Forkserver` and `ForkserverWords` model the handshake, the
loop and the status words; what the process does is recorded in a log, and the protocol is a predicate on logs.
`GuardIds` numbers the guards of all modules. `CmpLog` is the record of one comparison site.

**Coverage maps and helpers.** `CoverageBytes` says what a verdict means; `CoverageWords` and `CoverageSkim` are
the word-wise kernels and the scan; `CoverageShortcut` puts the scan in front of a kernel, and `CoverageCampaign` runs
the kernels over many traces and against each other. `GrowthBuffer` is `afl_realloc`, `RandBelow` the random
number below a limit.

## What the proofs found

- `next_pow2` returns the next power of two exactly when the predecessor of its argument has no 32 neighbouring
  zero bits below its highest bit: always up to 2^32, never for 2^n + 1 with n from 32 on (the step that shifts
  by 32 is missing). `afl_realloc` keeps room for the request unless adding the header wraps. Its comment says
  that a size below 1 frees the buffer; the code has no such case, and the model follows the code.
- With 32-bit draws `rand_below` never rejects anything, and is uniform only for limits that divide 2^32.
- A size within 8 of 2^64 wraps when `afl_realloc` adds its header, and gets a block of 64 bytes or the one there is
  (`GrowthBuffer.WrappedRequest`).
- Under the LLVM rule straight code of two blocks or more leaves no hit at all. The pass sees the runs of
  a function exactly if it has one block or a branch (`PredecessorPruning.LlvmSeesRun`); PCGUARD and LTO see every run.
- Guard IDs handed out after the forkserver started are below `__afl_final_loc` only when that is at least 6.
- `has_new_bits_unclassified` may rewrite the trace although it returns 0; its comment says otherwise. It keeps the
  comment's promise unless only bytes beyond the words in use show something new and the table changes some word
  (`CoverageShortcut.HasNewBitsUnclassified64`; a map of eight words where it fails is `ShowRewrittenTrace`). Guards
  numbered before the forkserver lie below the map size that the target reports, so they never write there, and a trace
  that is silent there keeps the promise; `__afl_coverage_interesting` (afl-compiler-rt.o.c:2395) writes wherever its
  caller says and can.
- On a map whose size modulo 8 is 1 to 4 the 64-bit kernel visits four bytes that the 32-bit one does not; verdict and
  virgin map then agree exactly when there is nothing new in those.
- `__cmplog_rtn_hook_strn` announces the larger of two lengths for both buffers. The announced bytes are its own
  exactly when both copies are equally long; `CmpLog.ShowStaleBytes` is a run in which the slot shows three bytes of an
  older call.
- The same hook asks about its first pointer when it validates the copy from the second. If exactly `len` bytes (fewer
  than 31, none of them zero) are readable behind the second pointer and one more behind the first, it copies one byte
  that is not readable: five bytes against six will do (`CmpLog.SecondCopyOverreads`). Otherwise the copy is readable.
- `__cmplog_ins_hookN` truncates a size of 32 or more in the 5-bit shape field, which therefore shows the largest size
  exactly when all are below 32.
- A mapped guard area ends one above the last ID, and is mapped again only when the last ID exceeds that end. Modules of
  a single guard therefore never cause it: without shared memory their IDs leave the allocated area as soon as they
  reach its size (`GuardIds.RegisterSingles`).
- The 32-bit and 64-bit classifiers agree exactly when the lookup table maps zero to zero.
- An empty map is reported as a map of size 1.
- A failed `reset_withSecret` has already emptied the state and stored the bad secret; no key describes the state
  until a later reset succeeds.

## Model

| member | source | states |
|---|---|---|
| `Xxh3Stream.StreamedEqualsOneShot` | engine/include/xxhash.h:5352-5543 | For every kernel, key (plain, secret of at least 136 bytes, seed) and cut of an input below 2^64 bytes, on a state used before in any way: reset, updates and digest give the one-shot hash of the joined input, for 64 and 128 bits; above 240 bytes the low half of the latter is the former |
| `Xxh3Stream.State.Update` | engine/include/xxhash.h:5387-5468 | An update appends its bytes to the data the state stands for and keeps the whole invariant; a missing input changes nothing |
| `Xxh3Stream.State.StateShape` | engine/include/xxhash.h:5429-5468 | In every reachable state: mixed bytes are a multiple of 256, nbStripesSoFar is the mixed stripes modulo the block length, 1 to 256 bytes are pending once data came, the stale buffer end is the end of the mixed bytes, a non-zero seed matches the cached secret |
| `Xxh3Stream.Absorb` | engine/include/xxhash.h:5413-5465 | An input that overflows the buffer leaves the lanes of all whole buffer lengths and the rest pending, with the last mixed stripe still behind it |
| `Xxh3Stream.State.ResetInternal` | engine/include/xxhash.h:5287-5310 | The internal reset empties the state, and keeps the cached secret in step with the seed |
| `Xxh3Stream.State.Reset` | engine/include/xxhash.h:5312-5319 | A plain reset gives a valid, empty state from any state |
| `Xxh3Stream.State.ResetWithSecret` | engine/include/xxhash.h:5321-5331 | It succeeds exactly for a present secret of at least 136 bytes; a failure leaves an emptied state that holds the bad secret and that no key describes, seed and cache in step |
| `Xxh3Stream.State.ResetWithSeed` | engine/include/xxhash.h:5333-5345 | The cached secret is right afterwards, although it is rebuilt only for a new seed; seed 0 is the plain reset |
| `Xxh3Stream.DigestLong` | engine/include/xxhash.h:5480-5518 | A digest finishes a copy of the lanes: all stripes that leave a byte, then the last 64 bytes, which may start in the stale buffer end |
| `Xxh3Stream.State.Digest64` | engine/include/xxhash.h:5521-5543 | The 64-bit digest is the one-shot hash of all bytes since the reset |
| `Xxh3Stream.State.Digest128` | engine/include/xxhash.h:6153-6187 | The 128-bit digest is the one-shot hash of all bytes since the reset; above 240 bytes its low half is the 64-bit one |
| `Xxh3Stream.ResetFor` | engine/include/xxhash.h:6105-6142 | Whichever reset is used, the state hashes like the one-shot entry point of that key |
| `Xxh3.ConsumeStripes` | engine/include/xxhash.h:5347-5382 | Mixing up to a block of stripes with at most one scramble equals mixing them one by one |
| `Xxh3.Accumulate` | engine/include/xxhash.h:4904-4919 | The accumulate loop is the stripe-by-stripe definition |
| `Xxh3.SoFarIsModulo` | engine/include/xxhash.h:5363-5380 | The position in the block is the number of stripes modulo the block length |
| `Xxh3.ConsumeSplit` | engine/include/xxhash.h:5363-5380 | Mixing a + n stripes is mixing a, then n |
| `Xxh3.Schedule` | engine/include/xxhash.h:4904-4971 | Stripe by stripe, by its index alone: which bytes are mixed under which bytes of the secret, and when the block end is scrambled |
| `Xxh3.LowHalfIsHash64` | engine/include/xxhash.h:5957-5961 | For every kernel and key, the low half of the 128-bit hash of a long input is its 64-bit hash |
| `Xxh3.HalvesOfLong` | engine/include/xxhash.h:5957-5963 | Both halves merge the same lanes: the low one under the 64 bytes that begin 11 bytes into the secret, the high one under those that end 11 bytes before its end, from the complement |
| `Xxh3OneShot.HashLongLoop` | engine/include/xxhash.h:4925-4971 | The block-wise loop computes the stripe-wise definition |
| `Xxh3OneShot.OneShot64` | engine/include/xxhash.h:5127-5181 | The three 64-bit entry points, short and long inputs |
| `Xxh3OneShot.OneShot128` | engine/include/xxhash.h:6036-6093 | The three 128-bit entry points; above 240 bytes their low half is the 64-bit hash |
| `Xxh32.StreamedEqualsOneShot` | engine/include/xxhash.h:2328-2455 | XXH32 streaming is the one-shot hash for every seed and cut, of any total length, beyond 2^32 too |
| `Xxh32.State.Count` | engine/include/xxhash.h:2361-2363 | large_len says exactly whether the true total is at least 16, although the total wraps at 2^32 |
| `Xxh32.State.Update` | engine/include/xxhash.h:2345-2432 | An update appends its bytes to what the state stands for |
| `Xxh32.State.Digest` | engine/include/xxhash.h:2435-2455 | The digest is the hash of all bytes since the reset |
| `Xxh32.OneShot` | engine/include/xxhash.h:2222-2273 | The one-shot function computes stripes, length, left-over bytes |
| `Xxh32.FinalizeRerolled` | engine/include/xxhash.h:2119-2137 | The rerolled loop is the specification's finish |
| `Xxh32.FinalizeSwitch` | engine/include/xxhash.h:2139-2202 | So is the switch over len & 15, label by label with its fall-throughs |
| `Xxh32.Cases12And8And4` | engine/include/xxhash.h:2143-2151 | The first group of labels |
| `Xxh32.Cases13And9And5` | engine/include/xxhash.h:2153-2162 | The second |
| `Xxh32.Cases14And10And6` | engine/include/xxhash.h:2164-2174 | The third |
| `Xxh32.Cases15To0` | engine/include/xxhash.h:2176-2195 | The fourth |
| `Xxh32.InitSpacing` | engine/include/xxhash.h:2334-2337 | How far apart the four lanes start |
| `Xxh64.StreamedEqualsOneShot` | engine/include/xxhash.h:2863-2988 | XXH64 streaming is the one-shot hash for every seed and cut below 2^64 bytes |
| `Xxh64.State.MaskedTotal` | engine/include/xxhash.h:2982-2985 | memsize always equals the total length modulo 32, and the finish sees exactly the pending bytes |
| `Xxh64.State.Update` | engine/include/xxhash.h:2880-2956 | An update appends its bytes to what the state stands for |
| `Xxh64.State.Digest` | engine/include/xxhash.h:2959-2988 | The digest is the hash of all bytes since the reset |
| `Xxh64.OneShot` | engine/include/xxhash.h:2753-2808 | The one-shot function computes stripes, length, left-over bytes |
| `Xxh64.FinalizeLoop` | engine/include/xxhash.h:2708-2745 | The finish uses exactly the bytes that the masked total leaves |
| `Xxh64.InitSpacing` | engine/include/xxhash.h:2869-2872 | How far apart the four lanes start |
| `Words.ReadShows64` | engine/include/xxhash.h:2593-2614 | The bytes of a number that was read are those in memory, lowest first |
| `Words.WriteRead64` | engine/include/xxhash.h:4108-4119 | Writing back what was read changes nothing |
| `Words.ReadWrite64` | engine/include/xxhash.h:4108-4119 | What was written reads back |
| `Bits.BitXor` | engine/include/xxhash.h:4745-4750 | Bit by bit, the exclusive or says where two numbers differ |
| `Bits.XorUndone` | engine/include/xxhash.h:4745-4750 | A second exclusive or undoes the first |
| `Stripes.Resume` | engine/include/xxhash.h:2377-2429 | Feeding more data is resuming at the left-over bytes, for any stripe length |
| `Mult128.PortableMult64to128` | engine/include/xxhash.h:3721-3735 | high * 2^64 + low is the product of any two 64-bit numbers |
| `Mult128.AddProducts` | engine/include/xxhash.h:3727-3735 | No intermediate sum wraps |
| `Mult128.Mul128Fold64` | engine/include/xxhash.h:3740-3755 | The fold of the portable product is the fold of the true product: bit i says whether bits i and 64 + i of the product differ |
| `Mult128.MiddleFormsAgree` | engine/include/xxhash.h:5729-5769 | The 32-bit and 64-bit forms add the same number modulo 2^64 |
| `Xxh3Lanes.AccumulateScalar` | engine/include/xxhash.h:4734-4750 | The scalar loop, which updates lanes crosswise in place, gives every lane its product and its neighbour's data |
| `Xxh3Lanes.AccumulateVector` | engine/include/xxhash.h:4160-4540 | The SSE2, AVX2 and AVX-512 forms give the same lanes |
| `Xxh3Lanes.AccumulateVecLane` | engine/include/xxhash.h:4294-4332 | Shuffles, 32-bit products and additions of one register amount to the lane formula |
| `Xxh3Lanes.ScrambleScalar` | engine/include/xxhash.h:4752-4773 | The scalar scramble, lane by lane |
| `Xxh3Lanes.ScrambleVector` | engine/include/xxhash.h:4217-4500 | The vector scrambles give the same lanes |
| `Xxh3Lanes.SplitProduct` | engine/include/xxhash.h:4350-4365 | The two 32-bit products recombine to the 64-bit product modulo 2^64 |
| `Xxh3Lanes.ScrambleUndone` | engine/include/xxhash.h:4752-4773 | A scramble loses nothing: lane and key give the lane before it back |
| `Xxh3Lanes.AvalancheUndone` | engine/include/xxhash.h:3770-3777 | Neither does the avalanche |
| `Xxh3Lanes.LanesShowBytes` | engine/include/xxhash.h:4741-4748 | Byte j of lane i is byte 8i + j in memory |
| `Xxh3Lanes.UnkeyedLane` | engine/include/xxhash.h:4744-4750 | Without a key, a lane gains its neighbour's word and the product of the halves of its own; without data, the product of the key's |
| `Xxh3Lanes.InitCustomSecretScalar` | engine/include/xxhash.h:4775-4846 | The scalar loop writes seed plus or minus the default secret, lane by lane |
| `Xxh3Lanes.InitCustomSecretVector` | engine/include/xxhash.h:4246-4540 | The vector loops write the same bytes |
| `Xxh3Lanes.SeedShows` | engine/include/xxhash.h:4775-4846 | Read back as words, the seeded secret differs from the default one by plus the seed in even words and minus the seed in odd ones |
| `Xxh3Lanes.SeedUndone` | engine/include/xxhash.h:4775-4846 | Seeding with the negated seed leads back |
| `Xxh3Lanes.MergeAccs` | engine/include/xxhash.h:4973-5010 | The merge of the lanes on the true 128-bit products |
| `Xxh3Lanes.PairsMultiply` | engine/include/xxhash.h:4973-4997 | Neighbouring lanes are multiplied with each other: where one equals its word of the secret, the other has no effect |
| `Xxh3Lanes.MergeAddsStart` | engine/include/xxhash.h:4981-4997 | The start of a merge is only added |
| `Xxh3Dispatch.Accumulate512` | engine/include/xxhash.h:4853-4889 | Every instruction set computes the kernel's accumulation |
| `Xxh3Dispatch.ZeroKey` | engine/include/xxhash.h:4734-4750 | In the kernel, the words of the stripe are the data: under a zero segment each lane gains its neighbour's word and the product of the halves of its own |
| `Xxh3Dispatch.ZeroStripe` | engine/include/xxhash.h:4734-4750 | And a zero stripe leaves only the products of the segment |
| `Xxh3Dispatch.ScrambleAcc` | engine/include/xxhash.h:4853-4889 | And its scramble |
| `Xxh3Dispatch.InitCustomSecret` | engine/include/xxhash.h:4853-4889 | And its seeded secret |
| `Xxh3Dispatch.Merge` | engine/include/xxhash.h:4981-5010 | And its merge of the lanes |
| `Xxh3Dispatch.StreamedOnLanes` | engine/include/xxhash.h:5352-5543 | Streaming equals one-shot hashing on these concrete lanes, for every key and cut |
| `DominatorPruning.PruningIsLossless` | engine/instrumentation/SanitizerCoveragePCGUARD.so.cc:535-592 | Without critical edges, two runs that hit the same instrumented blocks visited the same blocks |
| `DominatorPruning.LtoPruningIsLossless` | engine/instrumentation/SanitizerCoverageLTO.so.cc:1168-1231 | The same when the entry block is dropped |
| `DominatorPruning.HitsDetermineEdges` | engine/instrumentation/SanitizerCoveragePCGUARD.so.cc:645-668 | And they took the same edges |
| `DominatorPruning.WalkForward` | engine/instrumentation/SanitizerCoveragePCGUARD.so.cc:535-547 | From a full dominator that only one run visits, walking on meets an instrumented block that only that run visits |
| `DominatorPruning.WalkBackward` | engine/instrumentation/SanitizerCoveragePCGUARD.so.cc:550-562 | From any block that only one run visits, walking back meets one |
| `DominatorPruning.JoinIsFullDominator` | engine/instrumentation/SanitizerCoveragePCGUARD.so.cc:587-590 | A join right behind a full dominator is itself a full dominator, so the two rules never undo each other |
| `DominatorPruning.CriticalEdgesLoseCoverage` | engine/instrumentation/SanitizerCoveragePCGUARD.so.cc:648-652 | Without the split there is a graph and two runs with the same hits and different blocks |
| `DominatorPruning.EveryRunIsSeen` | engine/instrumentation/SanitizerCoverageLTO.so.cc:1210-1220 | Every run hits an instrumented block, also where the entry of a larger function is dropped |
| `DominatorPruning.LtoDropsEntry` | engine/instrumentation/SanitizerCoverageLTO.so.cc:1215-1220 | The rules of the two passes differ at the entry of functions of more than one block, and nowhere else |
| `DominatorPruning.CriticalExactly` | engine/instrumentation/SanitizerCoveragePCGUARD.so.cc:648-652 | An edge is critical exactly if there is another way out of its source and another way into its target |
| `DominatorPruning.WalkOn` | engine/instrumentation/SanitizerCoveragePCGUARD.so.cc:535-547 | From a full dominator a run goes on to an instrumented block that it dominates |
| `DominatorPruning.IsFullDominator` | engine/instrumentation/SanitizerCoveragePCGUARD.so.cc:535-547 | The loop over the successors decides full dominance |
| `DominatorPruning.IsFullPostDominator` | engine/instrumentation/SanitizerCoveragePCGUARD.so.cc:550-562 | The loop over the predecessors decides full post-dominance |
| `DominatorPruning.ShouldInstrumentBlock` | engine/instrumentation/SanitizerCoverageLTO.so.cc:1194-1231 | With right trees, the decision of either pass is the rule that the theorems are about |
| `PredecessorPruning.DecodeHits` | engine/instrumentation/afl-gcc-pass.so.cc:368-382 | The instrumented blocks hit decode back to the full path |
| `PredecessorPruning.GccPruningDecodes` | engine/instrumentation/afl-gcc-pass.so.cc:368-382 | GCC rule at ratio 100: same hits, same path, on every function |
| `PredecessorPruning.LlvmPruningDecodes` | engine/instrumentation/afl-llvm-pass.so.cc:640-699 | LLVM rule: same hits, same path |
| `PredecessorPruning.InstrumentBlock` | engine/instrumentation/afl-gcc-pass.so.cc:376-380 | The predecessor loop decides whether some predecessor can go elsewhere |
| `PredecessorPruning.SkipsBlock` | engine/instrumentation/afl-llvm-pass.so.cc:644-699 | So does the counting loop of the LLVM pass |
| `PredecessorPruning.LlvmSeesRun` | engine/instrumentation/afl-llvm-pass.so.cc:640-699 | The LLVM rule sees a run exactly if the function has a single block or branches somewhere |
| `PredecessorPruning.TwoBlocksUnseen` | engine/instrumentation/afl-llvm-pass.so.cc:672 | Two blocks in a row, whose only run leaves no hit |
| `PooledList.List.Append` | engine/include/list.h:70-94 | The element goes to the end of the sequence; only an exhausted pool with a failing malloc stops it |
| `PooledList.List.Remove` | engine/include/list.h:148-166 | The first occurrence goes, or the element was not there |
| `PooledList.List.Contains` | engine/include/list.h:170-180 | Membership |
| `PooledList.List.ForEachClear` | engine/include/list.h:102-144 | Every element is visited once, in order, and the list ends up empty |
| `PooledList.List.PreAlloc` | engine/include/afl-prealloc.h:58-88 | Below 64 the scan takes the first free slot, from 64 on the node comes from malloc; it is not linked and was not freed; the counter stays exact |
| `PooledList.List.Start` | engine/include/afl-prealloc.h:92-103 | The first append closes an empty ring around the head's own slot |
| `PooledList.List.ListFree` | engine/include/afl-prealloc.h:107-140 | The counter stays exact, no node is freed twice, and the fatal cases are not reached |
| `PooledList.SomeSlotFree` | engine/include/afl-prealloc.h:70-82 | A counter below the pool size leaves a free slot |
| `Forkserver.Server.Run` | engine/instrumentation/afl-compiler-rt.o.c:1120-1251 | Over every run: all events proper, at most one unreaped child, statuses never ahead of pids nor pids of commands; the commands are exactly the words up to the end of the pipe or the first round that does not come to its end, the rest is left in the pipe, and the loop ends in a child exactly when that round made one |
| `Forkserver.LeftOver` | engine/instrumentation/afl-compiler-rt.o.c:1120-1251 | Words are left over only behind a round in which a call failed or the child returned |
| `Forkserver.Server.Serve` | engine/instrumentation/afl-compiler-rt.o.c:1120-1251 | A round consumes one command; it goes on exactly when every call succeeds, and then its events are exactly: reap if killed, fork or wake, the pid, the wait, the status of that pid |
| `Forkserver.Server.Begin` | engine/instrumentation/afl-compiler-rt.o.c:1171-1218 | From the command to the running child, event by event |
| `Forkserver.AtMostOneChild` | engine/instrumentation/afl-compiler-rt.o.c:1171-1249 | Any log of proper events has at most one unreaped child and balanced messages |
| `Forkserver.ProperEverywhere` | engine/instrumentation/afl-compiler-rt.o.c:1171-1249 | Fork only without a child, SIGCONT only to a child last reported as stopped, a status only for the announced pid |
| `Forkserver.OnlyItsChildren` | engine/instrumentation/afl-compiler-rt.o.c:1171-1249 | Whatever is done about a child is done about one that was forked before and has not been reaped since |
| `Forkserver.StoppedStatuses` | engine/instrumentation/afl-compiler-rt.o.c:1240 | Which wait statuses are stops |
| `Forkserver.Server.WriteOff` | engine/instrumentation/afl-compiler-rt.o.c:1171-1181 | A stopped child that was killed is reaped before anything else |
| `Forkserver.Server.Launch` | engine/instrumentation/afl-compiler-rt.o.c:1183-1218 | Afterwards exactly one child runs, new or woken |
| `Forkserver.Server.Report` | engine/instrumentation/afl-compiler-rt.o.c:1222-1249 | The pid and the status of the same child go out, and stopping is remembered |
| `Forkserver.Runtime.Greet` | engine/instrumentation/afl-compiler-rt.o.c:1032-1118 | For every reply the first word is used exactly once, as the option reply or replayed as a command; a wanted dictionary is sent once, after its length; it fails only when a call does |
| `Forkserver.GreetWithReply` | engine/instrumentation/afl-compiler-rt.o.c:1060-1117 | Against a reply made of the option constants: the test-case memory is mapped exactly if its bit is set, the dictionary sent exactly if its bit is set and there is one, and the reply replayed as a command otherwise |
| `Forkserver.Runtime.ReadOptions` | engine/instrumentation/afl-compiler-rt.o.c:1070-1080 | The two tests of the reply |
| `Forkserver.Runtime.SendDictionary` | engine/instrumentation/afl-compiler-rt.o.c:1081-1108 | Whatever the short writes, the dictionary goes out complete, in order and once |
| `Forkserver.Session` | engine/instrumentation/afl-compiler-rt.o.c:1032-1251 | Handshake and loop together use the words of the pipe once and in order, all of them up to the first round that does not come to its end; without serving, a call of the handshake failed |
| `ForkserverWords.HelloOptions` | engine/instrumentation/afl-compiler-rt.o.c:1032-1049 | The receiver reads back exactly the reported options |
| `ForkserverWords.SnapshotOptions` | engine/instrumentation/afl-compiler-rt.o.c:779-784 | So it does from the snapshot greeting |
| `ForkserverWords.HelloMapSize` | engine/include/types.h:60-64 | And the map size, 1 to 2^23 |
| `ForkserverWords.SnapshotMapSize` | engine/include/types.h:60-64 | Also from the snapshot greeting |
| `ForkserverWords.GreetingIsNoError` | engine/include/types.h:40-59 | A greeting never looks like an error word or like an old version |
| `ForkserverWords.ErrorRoundTrip` | engine/instrumentation/afl-compiler-rt.o.c:203-212 | Error codes survive the trip |
| `GuardIds.RegisterAll` | engine/instrumentation/afl-compiler-rt.o.c:1514-1646 | Modules registering in any order and any number of times get pairwise distinct IDs from 6 to the last one, below the map size once it is mapped; start-up is aborted only where the map cannot be attached, or is shared, larger than AFL_MAP_SIZE and beyond the 2^23 that the tools accept |
| `GuardIds.RegisterSingles` | engine/instrumentation/afl-compiler-rt.o.c:1626-1644 | Any number of one-guard modules leaves the memory behind the map as it is; their IDs lie inside it exactly while they are below its size |
| `GuardIds.Runtime.RegisterFresh` | engine/instrumentation/afl-compiler-rt.o.c:1596-1644 | The IDs of a new range lie inside the memory behind the map exactly if the last one does, with the size of that memory after a possible remap |
| `GuardIds.MappedAreaCovers` | engine/instrumentation/afl-compiler-rt.o.c:553-572 | Mapping again, without shared memory, makes room for the last ID |
| `GuardIds.OwnSizeDecided` | engine/instrumentation/afl-compiler-rt.o.c:377-398 | AFL_MAP_SIZE decides the size whenever it exceeds the initial one, whatever the modules asked for |
| `GuardIds.Runtime.GuardInit` | engine/instrumentation/afl-compiler-rt.o.c:1514-1646 | One registration: nothing for a range seen before, fresh increasing IDs before the forkserver, reused IDs from 5 on after it, below the last ID exactly if that is at least 6 |
| `GuardIds.Runtime.MapShm` | engine/instrumentation/afl-compiler-rt.o.c:282-572 | The map size and last ID after mapping, in every environment, and exactly when it ends the process; the last ID never falls, a second call changes nothing |
| `GuardIds.Runtime.Early` | engine/instrumentation/afl-compiler-rt.o.c:1375-1456 | The constructors run once, and not at all when instrumentation is disabled |
| `GuardIds.Runtime.NumberLate` | engine/instrumentation/afl-compiler-rt.o.c:1570-1590 | Late registrations take the next IDs of a running counter, below the last ID exactly if that is at least 6 |
| `GuardIds.LateIdsCycle` | engine/instrumentation/afl-compiler-rt.o.c:1570-1590 | That counter cycles through 5 up to the last ID, exclusively |
| `GuardIds.Runtime.FillFresh` | engine/instrumentation/afl-compiler-rt.o.c:1602-1616 | The loop writes exactly the counted IDs |
| `GuardIds.FilledRises` | engine/instrumentation/afl-compiler-rt.o.c:1602-1616 | They rise strictly, and no ID in between is left out |
| `GuardIds.NextFresh` | engine/instrumentation/afl-compiler-rt.o.c:1600-1616 | The first guard gets the ID after the floor, each further one that is kept the next ID |
| `GuardIds.DistinctExtends` | engine/instrumentation/afl-compiler-rt.o.c:1600-1616 | Numbering a fresh range upwards keeps all IDs distinct |
| `CmpLog.Key.RecordIns` | engine/instrumentation/afl-compiler-rt.o.c:1650-1881 | Slot k modulo 32 holds call k for the last 32 calls since the kind changed, the shape is the 5-bit maximum, across the wrap of the 24-bit counter |
| `CmpLog.ShapeFieldIsMax` | engine/instrumentation/afl-compiler-rt.o.c:1808-1827 | The shape field is the largest shape seen exactly if every shape is below 32 |
| `CmpLog.Key.InsHook` | engine/instrumentation/afl-compiler-rt.o.c:1650-1793 | The hooks for 1, 2, 4 and 8 bytes record unequal operands only |
| `CmpLog.Key.InsHookN` | engine/instrumentation/afl-compiler-rt.o.c:1797-1843 | The hook for odd sizes stores high halves above 8 bytes |
| `CmpLog.Key.InsHook16` | engine/instrumentation/afl-compiler-rt.o.c:1845-1881 | The 16-byte hook records equal operands, too |
| `CmpLog.Key.RecordRtn` | engine/instrumentation/afl-compiler-rt.o.c:2130-2186 | Slot k modulo 8 holds call k for the last 8 calls since the kind changed; one slot changes, and behind the copied bytes it keeps what it held |
| `CmpLog.Key.RtnHook` | engine/instrumentation/afl-compiler-rt.o.c:2130-2186 | What the general hook logs |
| `CmpLog.Key.RtnHookStr` | engine/instrumentation/afl-compiler-rt.o.c:2084-2127 | What the string hook logs: nothing unless one string has two bytes before its zero; then the first string in the first buffer and the second one in the second, each with its zero or 31 bytes of it, and its own length |
| `CmpLog.StrCallShows` | engine/instrumentation/afl-compiler-rt.o.c:2084-2124 | The same of the recorded call |
| `CmpLog.Key.RtnHookStrn` | engine/instrumentation/afl-compiler-rt.o.c:2035-2081 | For any readable memory behind the two pointers: when the hook reads past it, and otherwise what it logs and stores |
| `CmpLog.StrnCallShows` | engine/instrumentation/afl-compiler-rt.o.c:2035-2076 | Where all bytes asked about are readable: each buffer shows its own string, up to its zero, the length compared and one more, or 31 bytes; nothing is logged exactly if both strings are empty |
| `CmpLog.ScansPastExactly` | engine/instrumentation/afl-compiler-rt.o.c:2040-2041 | strnlen leaves the readable memory exactly if that is shorter than the bound and holds no zero |
| `CmpLog.WrapKeepsSlot` | engine/include/cmplog.h:40-56 | Masking the wrapped counter still gives the call's index |
| `CmpLog.StrnShowsOwnBytes` | engine/instrumentation/afl-compiler-rt.o.c:2042-2076 | Over all prior contents of the slot: the announced bytes are the work of this call alone exactly when both lengths copied are equal, which full reports reduce to both strings ending at the same place or after 30 bytes |
| `CmpLog.DeterminedIsCopied` | engine/instrumentation/afl-compiler-rt.o.c:2071-2074 | For any logged call: the slot shows bytes of this call alone exactly when all announced bytes were copied |
| `CmpLog.StrShowsOwnBytes` | engine/instrumentation/afl-compiler-rt.o.c:2118-2121 | The unbounded string hook always shows its own bytes |
| `CmpLog.ShowStaleBytes` | engine/instrumentation/afl-compiler-rt.o.c:2035-2081 | A run of nine calls after which a slot shows three bytes of the first |
| `CmpLog.SecondCopyReadable` | engine/instrumentation/afl-compiler-rt.o.c:2040-2046 | Exactly when the copy from the second pointer, validated against the first, stays in readable memory |
| `CmpLog.SecondCopyOverreads` | engine/instrumentation/afl-compiler-rt.o.c:2040-2046 | Five readable bytes against six, where it does not |
| `CoverageBytes.VirginIsInitialMinusSeen` | engine/include/coverage-64.h:94-124 | For the byte-wise definition, which the campaigns of both kernels are proved to follow: the virgin map is its initial value without all bits seen |
| `CoverageBytes.CampaignBounds` | engine/include/coverage-64.h:94-124 | For the same definition: non-zero verdicts are at most as many as the initial set bits, 2-verdicts at most as many as the initial 0xff bytes, which are at most eight and one per byte |
| `CoverageCampaign.Campaign64` | engine/src/afl-fuzz-bitmap.c:209-242 | The 64-bit kernel run over any sequence of traces: its verdicts are the byte-wise ones, the virgin map ends as its initial value without all bits seen, non-zero verdicts use up set bits and 2-verdicts untouched bytes |
| `CoverageCampaign.Campaign32` | engine/src/afl-fuzz-bitmap.c:209-242 | The same of the 32-bit kernel |
| `CoverageBytes.VerdictCosts` | engine/include/coverage-64.h:101-122 | A verdict is non-zero exactly if it uses up a set bit, and 2 exactly if it uses up an untouched byte |
| `CoverageBytes.VerdictConcat` | engine/src/afl-fuzz-bitmap.c:227-235 | The verdict of a map is the largest of its parts |
| `CoverageWords.DiscoverWord64` | engine/include/coverage-64.h:92-124 | The 64-bit kernel raises the verdict to the byte-wise one and clears the seen bits |
| `CoverageWords.DiscoverWord32` | engine/include/coverage-32.h:82-112 | So does the 32-bit kernel |
| `CoverageWords.MeetIsVerdict64` | engine/include/coverage-64.h:96-101 | The word-wise shortcut misses nothing |
| `CoverageWords.MeetIsVerdict32` | engine/include/coverage-32.h:86-91 | The same for 32 bits |
| `CoverageWords.HasNewBits64` | engine/src/afl-fuzz-bitmap.c:209-242 | The map's verdict and the new virgin map, byte by byte; words out of use are untouched |
| `CoverageWords.HasNewBits32` | engine/src/afl-fuzz-bitmap.c:209-242 | The same for 32 bits |
| `CoverageCampaign.BothKernels` | engine/src/afl-fuzz-bitmap.c:209-242 | Both kernels run on one map of any size: verdicts and virgin maps agree, except for what is new in the half word that only the wide kernel visits |
| `CoverageCampaign.BothCampaigns` | engine/src/afl-fuzz-bitmap.c:209-242 | Both kernels run over any sequence of traces on one map of any size: if no trace shows anything in that half word, the verdicts are the same, one by one, and so is the final map, word by word |
| `CoverageSkim.Skim64` | engine/include/coverage-64.h:126-210 | For every table and vector unit, the scan returns 1 exactly if the classified map would get a non-zero verdict |
| `CoverageSkim.Skim32` | engine/include/coverage-32.h:114-128 | The same for 32 bits |
| `CoverageSkim.RoundAvx512` | engine/include/coverage-64.h:126-158 | One AVX-512 round finds a hot word exactly if there is one |
| `CoverageSkim.RoundAvx2` | engine/include/coverage-64.h:162-190 | One AVX2 round does |
| `CoverageSkim.ClassifyCounts64` | engine/include/coverage-64.h:69-90 | Every word with a hit is classified, the others are left alone |
| `CoverageSkim.ClassifyCounts32` | engine/include/coverage-32.h:59-80 | The same for 32 bits |
| `CoverageSkim.ClassifiedBytes64` | engine/include/coverage-64.h:69-90 | On the bytes of the map: every pair becomes the table's answer to it, unless the eight bytes around it are all zero |
| `CoverageSkim.ClassifiedBytes32` | engine/include/coverage-32.h:59-80 | The same with four bytes |
| `CoverageShortcut.HasNewBitsUnclassified64` | engine/src/afl-fuzz-bitmap.c:244-273 | The shortcut changes neither verdict nor virgin map; a zero result leaves the trace alone exactly under a condition on table, trace, virgin map and words in use |
| `CoverageShortcut.HasNewBitsUnclassified32` | engine/src/afl-fuzz-bitmap.c:244-273 | The same for 32 bits |
| `CoverageShortcut.ShowRewrittenTrace` | engine/src/afl-fuzz-bitmap.c:244-273 | A map of eight words, seven in use, whose trace is rewritten by a call that returns 0 |
| `CoverageShortcut.SilentBehindKeeps` | engine/src/afl-fuzz-bitmap.c:244-273 | A trace that is silent behind the words in use is never rewritten by such a call |
| `CoverageSkim.ClassifyAgrees` | engine/include/coverage-32.h:10-20 | The 32-bit and 64-bit classifiers agree exactly if the table maps zero to zero |
| `GrowthBuffer.NextPow2Exact` | engine/include/alloc-inl.h:606-627 | next_pow2 gives the least power of two exactly if the predecessor has no gap of 32 zero bits |
| `GrowthBuffer.NextPow2Misses` | engine/include/alloc-inl.h:606-627 | The inputs 2^n + 1, n at least 32, for which it does not |
| `GrowthBuffer.SmallHasNoGap` | engine/include/alloc-inl.h:606-627 | Numbers below 2^32 have no such gap |
| `GrowthBuffer.CeilPow2IsLeast` | engine/include/alloc-inl.h:606-608 | What rounding up to a power of two means |
| `GrowthBuffer.GeometricGrowth` | engine/include/alloc-inl.h:655-717 | Over all requests up to 2^32 bytes with header: capacities are powers of two from 64 on that at least double and cover every request; all blocks together are below twice the last |
| `GrowthBuffer.RequestDoubles` | engine/include/alloc-inl.h:680-695 | One request keeps that, covers its size and never shrinks |
| `GrowthBuffer.NextSizeIsCeil` | engine/include/alloc-inl.h:680-695 | Where next_pow2 is right, the block is the least power of two from 64 on that covers the size, or the size itself where that power does not fit |
| `GrowthBuffer.WrappedRequest` | engine/include/alloc-inl.h:675-684 | What a request gets whose size wraps when the header is added |
| `GrowthBuffer.RoomExactly` | engine/include/alloc-inl.h:678-695 | At any size there is room exactly if adding the header does not wrap |
| `GrowthBuffer.Buffer.AflRealloc` | engine/include/alloc-inl.h:662-717 | Contents survive growth, a failed realloc frees and nulls, a fitting request changes nothing |
| `GrowthBuffer.Buffer.Serve` | engine/include/alloc-inl.h:662-717 | A whole life of requests with failures: growth stays geometric, the last request fits |
| `RandBelow.Unbiased` | engine/include/afl-fuzz.h:1268-1280 | With 64-bit draws every result has the same number of accepted draws, and at most `limit` draws are rejected |
| `RandBelow.NarrowDrawsUnbiased` | engine/include/afl-fuzz.h:1268-1280 | With 32-bit draws nothing is rejected, and the result is uniform exactly if the limit divides 2^32 |
| `RandBelow.HitsCountResults` | engine/include/afl-fuzz.h:1268-1280 | The counts are those of the results of rand_below over the draws |
| `RandBelow.BelowOfDraw` | engine/include/afl-fuzz.h:1272-1280 | Draw by draw: an accepted one gives its remainder, a rejected one is skipped |
| `RandBelow.Rng.RandBelow` | engine/include/afl-fuzz.h:1251-1282 | The result is the first accepted draw modulo the limit; draws before it are skipped, reseeding happens when the counter runs out |
| `RandBelow.Rng.Tick` | engine/include/afl-fuzz.h:1257-1264 | The counter, its wrap under a fixed seed, and the exact refill and new draws after a reseed |
| `RandBelow.Rng.RandBelowDatalen` | engine/include/afl-fuzz.h:1287-1307 | No modulus is zero, the result is below the limit, and it combines draws that each continue where the one before stopped, across a reseed as well |
| `RandBelow.DatalenOfDraws` | engine/include/afl-fuzz.h:1287-1307 | From four accepted draws: which case is taken, what each draw is reduced by, and how many are used |
| `RandBelow.CombineIsRemainder` | engine/include/afl-fuzz.h:1291-1302 | The result is a remainder of the first draw by each later one plus one |
| `RandBelow.SeedOutlastsCall` | engine/include/afl-fuzz.h:1257-1264 | A fresh seed outlasts all draws of one call, so at most one reseed falls into it |
| `RandBelow.CombineStepsDown` | engine/include/afl-fuzz.h:1291-1302 | A first draw that leads to v + 1 has a neighbour that leads to v |
| `RandBelow.LowerIsLikelier` | engine/include/afl-fuzz.h:1284-1307 | In each of the three cases a result is never less likely than the next higher one |
| `RandBelow.NoneBeyond` | engine/include/afl-fuzz.h:1291-1302 | Results beyond a later draw never come up; without later draws each comes up once |

## Left out

- Hashes of at most 240 bytes under XXH3 and the bytes of its default secret are parameters of the kernel; the streaming theorem holds for all of them. The rounds, merges and avalanches of XXH32 and XXH64 are parameters likewise.
- The NEON, VSX and s390x forms of XXH3, alignment and byte-order variants, canonical representations, XXH3_generateSecret and the state allocation functions.
- XXH3 hash lengths are natural numbers below 2^64 where the one-shot functions take a size_t; 32-bit size_t is not modelled.
- Xxh3Stream.State.Digest64: totals of 2^64 bytes or more, where the stored length has wrapped, are excluded by its requires; so they are for `Xxh3Stream.State.Digest128` and for XXH64.
- LLVM and GCC intermediate code, pass registration, allow and deny lists; blocks that hold only `unreachable` or have no insertion point; ratios below 100, which drop coverage by design; the function-only and no-prune modes.
- DominatorPruning.PruningIsLossless: runs end in a block without successors; runs that are cut short by a crash or never end are not covered. Post-dominance is taken over such runs, which LLVM's virtual exit refines.
- PooledList.List.Append: memory exhaustion and the other fatal cases end the model's operation with a result instead of the process. LIST_FOREACH with a body that changes the list other than by clearing is not modelled.
- The snapshot forkserver loop, the SIGTERM handler, the child's side and persistent mode. Child outcomes, short writes and replies are arbitrary; waitpid may report a stop in every mode, which is more than a non-persistent target sees.
- GuardIds.Runtime.GuardInit: does not model the 32-bit wrap of IDs, because 2^32 guards exceed every map; AFL_DUMP_MAP_SIZE, which prints and exits, and selective coverage are left out; the shared-memory calls appear only as success or failure and the size of what they attach.
- CmpLog.Key.RtnHookStrn: what the record shows after the hook has read memory that is not readable.
- CmpLog key hashing, the null map, __sanitizer_cov_trace_switch and the remaining hooks. What area_is_valid reports is arbitrary. The two uses of one row share memory in the source; here the contents seen after a change of kind are arbitrary.
- The bitmap_changed flag; the actual_counts sum of the IgorFuzz layer, which truncates on 32 bits; simplify_trace; the contents of the lookup tables.
- afl_realloc_exact, next_p2, the canary allocator and the allocation tracker.
- The random generator itself: draws are an arbitrary finite stream. C leaves the order of the calls in rand_below_datalen open; the model takes left to right, and no stated property depends on it.
- The Python console, `oldest` scripts, assembly instrumentation, user interface and tools.
