# Verification model of rustyfill

rustyfill is a workspace of fallible counterparts to Rust's allocating operations. Its promise is that an
operation that runs out of memory either leaves everything as it was or hands back a state from which the
caller can go on. This project models the parts of the workspace that keep that promise under pressure and
proves what they guarantee for every pattern of allocation failures.

`dafny verify dfyconfig.toml` checks everything.

## How the model works

The allocator is an object that answers each numbered request from an arbitrary function (`Allocation.Oracle`):
a statement proved for every oracle holds for every pattern of failures. Growing a vector or a deque asks
only when length and capacity are equal, a box always asks. Sizes are explicit: `usize` is bounded, loss
counters saturate, a buffer never passes `isize::MAX`.

Code that updates state in place is a class or a method with loops (the report, the two walkers, the mutable
traversal, the format analyser, the sharded map, the failure-policy guards, the manifest writer, the sample
counter, the shuffle). Each method is proved against a specification function, and what the source promises is
proved about those functions. Pure code is functions and lemmas.

| file | part of the program |
|---|---|
| Allocation.dfy, Sequences.dfy | the allocator, fallible growth, deques; shared facts about sequences |
| Frame.dfy, Report.dfy, Reports.dfy | error reports: push, eviction, change of context, rollback |
| Walk.dfy, Frames.dfy | the two stalling walkers, the mutable traversal |
| Search.dfy, Recency.dfy, Demotion.dfy | typed search, when it finds the most recent value, what a change of context does to searches and walks |
| Recovery.dfy | resumable extension, and that of a vector |
| Shards.dfy, Concurrent.dfy, DashMaps.dfy | the sharded map: tables, interleaved threads, the object |
| WrapKinds.dfy, Template.dfy, Printer.dfy, Analyser.dfy | the format-template analyser and a printer for Rust's grammar |
| Guards.dfy | nested failure-policy guards |
| ModulePaths.dfy, Manifests.dfy | module paths, the manifest of generated files |
| Counters.dfy, Shuffles.dfy | sample statistics and scrambled orderings of the benchmarks |

## Where the code and its documentation part ways

Each of these is a theorem below, with the exact condition and, where that helps, an input.

- `push` with a cap of 0 or 1 never leaves its eviction loop: the head alone counts one
  (`ReportSpec.EvictionEndsIff`).
- `push` is meant always to succeed after an eviction. On a deque that owns no memory `pop_back` removes nothing: when the
  first request is refused the loss counter is one too high, and when the second is refused too the call panics
  (`ReportSpec.PushMeaning`). `change_context` has the same gap when its initial reservation fails; the exact
  sequences of answers are in `ReportSpec.ChangeContextMeaning` for the counter and in
  `ReportSpec.ChangeContextPanicsIff` for the panic.
- `change_context` leaves the children as head, then peers; `try_change_context` leaves them in the opposite order
  (`ReportSpec.ChangeContextLossless`, `Reports.Report.TryChangeContext`).
- When no old frame survives a `change_context`, the walk reports no loss at all: the marker appears only behind
  surviving children (`Demotion.ChangeContextDeepens`).
- `downcast_ref` is documented to return the most recent match, the head first, then the peers, then the children. It
  returns the first attachment of a frame and the last child that holds the type. `Recency.MostRecentIff` says exactly
  when that is the most recent value, for reports of any shape and history; `Recency.ChangeContextMostRecentIff` and
  `Recency.ChangedMostRecentIff` say it for the two changes of context. After `change_context` the search goes into
  the oldest surviving frame that holds the type (`Search.ChangeContextFindsOldest`), after `try_change_context` into the
  newest (`Search.ChangedFindsNewest`), and within that frame it can still return an older value. Inputs: a head and a
  peer after one change (`Search.OlderMatchIsReturned`), the same after two changes (`Recency.OlderNestedValueIsFound`),
  and two attachments of one type without any change (`Recency.OlderAttachmentIsFound`).
- The documentation shows a retry with `into_remainder` alone. On the `Vec` of that example nothing is lost: a vector
  reserves for the whole iterator first, and an item can be stranded only when the source brings one or the iterator
  yields more than its lower size bound (`Recovery.StrandsIff`, `Recovery.ExactRetriesComplete`). A `DashMap` reserves
  item by item, so that there the same pattern leaves out the stranded item (`DashMaps.RemainderAloneSkipsOne`). The map
  is complete all the same exactly when the stranded key comes again in the remainder or the map already held that very
  pair (`DashMaps.RemainderAloneSufficesIff`, with an input in `DashMaps.RemainderAloneInput`).
- The analyser does not read every placeholder of Rust's grammar: it overlooks a width `0$`, the argument of a star, a
  precision behind a named width and all counts behind a fill that is not a flag character, and it takes the `x` of
  `x?`, or such a fill, for the type. `Printer.HoleInTemplate` says what it records for every placeholder, white space
  before the closing brace included; `Printer.ReadBackIff` when that is exactly right; `Printer.TablesRightIff` when the
  slot tables come out right all the same; `Printer.PrintedTemplateAnalysisIff` when they do for a whole template.
  The inputs `{:x?}`, `{:0$}`, `{:w$.p$}` and `{:x<5}` have lemmas of their own; `{:*<5}` does no harm, nor does
  `{:0$} {0}`, where the second placeholder makes up for the first. Overlooking a star's argument is intended, as the
  source says; here it counts as a use because Rust takes an argument for it.
- A generated file whose module has something beneath it but nothing directly beneath it is written to `m.rs` and
  included from `m/mod.rs` (`Manifests.ManifestFindsEveryFileIff`, `Manifests.SkippedLevelIsMissed`).
- The files `m` and `m/mod` are written to the same place when nothing lies directly beneath `m/mod`
  (`Manifests.FilesKeptApartIff`, `Manifests.OverwrittenFile`). And `mod/mod.rs` names the library root instead of the
  module `mod` (`ModulePaths.ModFileStem`). Both are facts about texts only, since Rust has no module of that name.
- Mean and median are cut down to 64 bits of nanoseconds, so that the reported mean of samples longer than that can lie
  below all of them (`Counters.ReportedExactIff`, `Counters.ReportedBetween`, `Counters.LongSampleCutDown`).

## Model

| member | source | states |
|---|---|---|
| Allocation.Reserve | rustyfill/src/alloc/vec/vec_.rs:532-580 | a reservation either provides the room or leaves the capacity, and fails only when the room is really missing |
| Allocation.Allocator.TryBox | rustyfill/src/alloc/boxed/box_.rs:199-207 | a box asks exactly once and succeeds exactly when granted |
| Allocation.TryPushBack | rustyfill/src/alloc/vecdeque/vecdeque_.rs:569-577 | the element is appended, or the deque keeps its contents |
| Allocation.TryPushFront | rustyfill/src/alloc/vecdeque/vecdeque_.rs:585-593 | the element is put in front, or the deque keeps its contents |
| ReportSpec.EvictionEndsIff | rustyfill-errors/src/report.rs:323-330 | the eviction loop ends for a cap exactly when the cap is at least two |
| ReportSpec.PushMeaning | rustyfill-errors/src/report.rs:321-354 | for every allocator: the pushed frame becomes the newest peer, survivors are the newest peers in order, the cap is respected, present plus lost grows by one (by two in the one miscounting case), and the call panics exactly when that case is followed by a second refusal; without a refusal there is one peer more, up to the cap less the head, and each refused request costs exactly one peer |
| ReportSpec.PushLeaves | rustyfill-errors/src/report.rs:321-354 | how many peers a push leaves, and that it asks only when the buffer is too small, once, or twice in the miscounting case |
| ReportSpec.PushAllMeaning | rustyfill-errors/src/report.rs:308-354 | over any run of pushes the head stays, the surviving peers are the most recently pushed frames newest first, and all peers are accounted for up to saturation; only the first push can miscount or panic; the number left is that before plus those pushed, less one for each refused request, up to the cap less the head |
| Reports.Report.EvictToCap | rustyfill-errors/src/report.rs:323-330 | the loop ends for no cap or a cap of two or more, keeps the newest peers, counts each evicted one, and evicts no more than it must |
| Reports.Report.PushPeer | rustyfill-errors/src/report.rs:321-354 | the in-place push computes exactly the specified new report, allocator requests and panic; and leaves as many peers as there were and one more, less one for each refused request, up to the cap |
| Reports.Report.TryPushPeer | rustyfill-errors/src/report.rs:365-386 | success exactly when there is room under the cap and memory; then the push happens without eviction, otherwise nothing changes and the frame comes back |
| ReportSpec.DemoteOneMeaning | rustyfill-errors/src/report.rs:513-552 | demoting one frame under any allocator leaves a prefix of that frame followed by the old children, with every loss counted; exactly when it panics and when the count is one too high; each refused request costs exactly one child |
| ReportSpec.DemoteFromMeaning | rustyfill-errors/src/report.rs:554-560 | the same for all frames from the oldest to the head, each refused request included |
| ReportSpec.ChangeContextMeaning | rustyfill-errors/src/report.rs:491-568 | for every allocator: the children are an order-preserving, unchanged prefix of head and peers; children present plus lost make up all old frames and losses, and the count is one too high exactly when the initial reservation fails, the first boxes are refused, the next is granted, its push is refused and the retry is granted; each request refused after the reservation costs exactly one child and adds exactly one to the loss count; each child holds, field by field, what its frame held |
| ReportSpec.ChangeContextPanicsIff | rustyfill-errors/src/report.rs:505-552 | the exact sequences of refusals under which the call panics, all of them after a failed initial reservation |
| ReportSpec.ChangeContextLossless | rustyfill-errors/src/report.rs:491-568 | with every request granted all frames survive, head first, then the peers newest first, each with all it held, field by field |
| Reports.Report.DemoteAndPush | rustyfill-errors/src/report.rs:513-552 | the retry loop ends under every allocator and agrees with its specification; each refused request costs exactly one child |
| Reports.Report.ChangeContextLossy | rustyfill-errors/src/report.rs:491-568 | the in-place change of context agrees with its specification, request by request; child by child the context, attachments, children and loss counts are those of the old frames |
| Reports.Report.BoxPeers | rustyfill-errors/src/report.rs:635-681 | boxing succeeds exactly when every request is granted; on a refusal the peers are exactly as before |
| Reports.BoxedFromBackRecovers | rustyfill-errors/src/report.rs:635-681 | unboxing the intermediates in reverse gives back the original frames in their order |
| Reports.Report.RecoverPeers | rustyfill-errors/src/report.rs:810-841 | everything taken is put back in order without asking the allocator |
| Reports.Report.DemoteIntermediates | rustyfill-errors/src/report.rs:729-734 | the reserved pushes cannot fail and leave the intermediates in boxing order, field by field |
| Reports.Report.TakeAsChildren | rustyfill-errors/src/report.rs:724-741 | the new head holds all frames from the last to the first, field by field, and the old loss count |
| Reports.Report.TryChangeContext | rustyfill-errors/src/report.rs:579-742 | succeeds exactly when all requests are granted; then the children are head and peers reversed; otherwise the report is exactly the original and the new context comes back; child by child the context, attachments, children and loss counts are those of the old frames from the last to the first |
| Walk.StepAccounts | rustyfill-errors/src/report.rs:1033-1110 | every call of next yields the next visit of the recursive traversal, or fails and owes the same remainder, or (automatic mode) gives up exactly the failing node's block |
| Walk.StepFailsIff | rustyfill-errors/src/report.rs:1033-1062 | next fails exactly when children wait, the stack is full and it cannot grow; only then is a request made |
| Walk.RunAccounts | rustyfill-errors/src/report.rs:1033-1129 | in any mixture of next, unstall and mode changes under any allocator, visits emitted and blocks skipped, in order, followed by what remains, are the recursive traversal |
| Walk.RunJustified | rustyfill-errors/src/report.rs:1046-1060 | every skipped block lies beneath the visit emitted last, and every error carries that visit's depth |
| Walk.UnstallCovers | rustyfill-errors/src/report.rs:1117-1124 | a manual unstall after an error skips exactly the same block |
| Walk.UnstallOnlyStalled | rustyfill-errors/src/report.rs:1117-1124 | without a failure just before, unstall changes nothing and answers no; after one it drops the waiting frame alone and answers yes |
| Walk.StepStalls | rustyfill-errors/src/report.rs:1046-1062 | after next the walker is stalled exactly when the call failed outside automatic mode |
| Walk.RunSkipsAfterErrors | rustyfill-errors/src/report.rs:1033-1129 | in any mixture of calls under any allocator a block is given up only directly after an error, one block for one error |
| Walk.StallingRunLosesNothing | rustyfill-errors/src/report.rs:1033-1110 | without automatic mode, retries lose, repeat and reorder nothing, whatever fails |
| Walk.AutoRunFinishes | rustyfill-errors/src/report.rs:1053-1056 | with automatic mode the walk is over after at most as many calls as the traversal has visits |
| Walk.AutoRunPairs | rustyfill-errors/src/report.rs:1053-1056 | with automatic mode each failing node's block is replaced by exactly one error, and no block is skipped without one |
| Walk.FinishedIffNothingRemains | rustyfill-errors/src/report.rs:1101-1108 | the walker returns nothing exactly when nothing of the traversal remains |
| Walk.GrantedRunIsTraversal | rustyfill-errors/src/report.rs:1033-1110 | with every request granted the calls of next yield the recursive traversal, visit by visit |
| Frames.FrameWalker.Next | rustyfill-errors/src/report.rs:1033-1110 | the in-place walker (head, then peers newest first) performs exactly a step of the machine |
| Frames.FrameWalker.TryUnstall | rustyfill-errors/src/report.rs:1117-1124 | unstall drops the pending frame, and nothing else, exactly after a failure, and says whether it did; otherwise the walker is as it was |
| Frames.FrameWalker.SetAutoUnstall | rustyfill-errors/src/report.rs:1126-1128 | the mode changes and nothing else |
| Frames.ChronoWalker.Next | rustyfill-errors/src/report.rs:1163-1241 | the chronological walker (peers oldest first, then head) performs exactly a step of the same machine |
| Frames.ChronoWalker.TryUnstall | rustyfill-errors/src/report.rs:1248-1255 | as for the other walker |
| Frames.ChronoWalker.SetAutoUnstall | rustyfill-errors/src/report.rs:1257-1259 | as for the other walker |
| Frames.SeedStack | rustyfill-errors/src/report.rs:1363-1386 | an empty deque is not pushed; another is pushed or a refusal is the cause |
| Frames.FramesMut | rustyfill-errors/src/report.rs:1302-1357 | the visitor sees head, peers, then the child forests of the last root first; a break ends at the frame that broke; an allocation failure (and only one) leaves a proper prefix; the failure is at a frame with children, which has been visited when it is a typed one and has not when it is a demoted one |
| Frames.DrainStack | rustyfill-errors/src/report.rs:1335-1356 | the second phase continues the order and ends; on a failure the frame whose children could not be queued is the next one and has not been visited |
| Frames.MutOrderVisitsSameFrames | rustyfill-errors/src/report.rs:1302-1386 | the mutable order reaches exactly the frames the immutable walk yields, each as often, without the markers |
| Demotion.ChangeContextDeepens | rustyfill-errors/src/report.rs:491-568 | after the lossy change the walk is the new head followed by the old walk of the surviving frames, one level deeper, closed by the loss count, or by nothing when no frame survived |
| Demotion.ChangedDeepens | rustyfill-errors/src/report.rs:724-741 | after the lossless change the walk is the new head followed by every old frame one level deeper, typed frames in the opposite order, with the old loss count at the end |
| Search.DowncastIsFirst | rustyfill-errors/src/frame/frame.rs:335-350 | the search finds the first match in the order context, attachments, children last to first |
| Search.DowncastIff | rustyfill-errors/src/frame/frame.rs:335-388 | in a demoted frame the search finds something exactly when the frame contains the type |
| Search.StaticSearch | rustyfill-errors/src/frame/frame.rs:108-172 | the three searches of a typed root are those of the frame it would be demoted to, wherever the ring buffer of children wraps |
| Search.DowncastsAgree | rustyfill-errors/src/report.rs:762-797 | shared and mutable downcast reach the same place, in the newest root that holds the type |
| Search.ContainsIffFound | rustyfill-errors/src/report.rs:748-797 | contains is true exactly when each of the downcasts finds something |
| Search.ChangeKeepsContents | rustyfill-errors/src/report.rs:491-568 | after a lossless change a type is contained exactly when it was before or is the new context's |
| Search.LosslessChanges | rustyfill-errors/src/report.rs:491-742 | both ways of changing the context are lossless in that sense |
| Search.ChainKeepsContents | rustyfill-errors/src/report.rs:491-755 | the same along any chain of lossless changes |
| Search.FreshHeadDowncast | rustyfill-errors/src/report.rs:757-778 | under a fresh head the oldest demoted frame that holds the type is found |
| Search.ChangeContextFindsOldest | rustyfill-errors/src/report.rs:757-778 | after the lossy change, under any allocator, the search goes into the oldest surviving holder, which is the newest holder exactly when only one survivor holds the type |
| Search.ChangedFindsNewest | rustyfill-errors/src/report.rs:757-778 | after the lossless change the search goes into the newest holder |
| Search.OlderMatchIsReturned | rustyfill-errors/src/report.rs:757-778 | a head and a peer of one type: after the change the peer is returned |
| Recency.NewestIff | rustyfill-errors/src/frame/frame.rs:335-350 | the search of a demoted frame finds the most recent value, in whichever order the children at every level were left, exactly when the frame is clear |
| Recency.MostRecentIff | rustyfill-errors/src/report.rs:757-778 | the report's search returns the most recent match exactly when the first root that holds the type is clear and no later root holds it in its own values instead |
| Recency.ChangeContextMostRecentIff | rustyfill-errors/src/report.rs:757-778 | after the lossy change, under any allocator: exactly when the new context matches, or at most one survivor holds the type and it is clear |
| Recency.ChangedMostRecentIff | rustyfill-errors/src/report.rs:757-778 | after the lossless change: exactly when the new context matches or the newest holder is clear |
| Recency.OlderAttachmentIsFound | rustyfill-errors/src/frame/frame.rs:122-130 | two attachments of one type: the older one is found |
| Recency.OlderNestedValueIsFound | rustyfill-errors/src/report.rs:757-778 | after two lossless changes the older of two nested values is found, though at the second only one typed frame held the type |
| Shards.ContentsLookup | rustyfill/src/dashmap/dashmap_.rs:929-945 | the map seen by a lookup is the one table the key's hash selects |
| Shards.InsertInShard | rustyfill/src/dashmap/dashmap_.rs:790-805 | inserting in the selected table inserts in the map, keeps routing and keeps keys unique |
| Shards.Reordered | rustyfill/src/dashmap/dashmap_.rs:1118-1133 | tables listing the same entries in another order stand for the same map |
| Shards.ReplaceShard | rustyfill/src/dashmap/dashmap_.rs:1140-1145 | replacing a table by one with the same entries leaves the map and its routing |
| Concurrent.InitialInv | rustyfill/src/dashmap/dashmap_.rs:777-786 | a well-routed map at rest satisfies the invariant |
| Concurrent.CommitMeans | rustyfill/src/dashmap/dashmap_.rs:796-804 | the slot located earlier is still right and has room: the commit does what the plain map operation does |
| Concurrent.StepKeeps | rustyfill/src/dashmap/dashmap_.rs:925-1049 | every step of every thread keeps locks, routing, uniqueness and reservations; the map changes, and a thread is told of an insertion or of an existing key, only at that thread's commit; each step does what its event calls for and no more: a thread is turned away only by a lock that is not free, fails only at a refused request for room that was missing, and has shrunk only after the last shard |
| Concurrent.RebuildKeeps | rustyfill/src/dashmap/dashmap_.rs:1095-1152 | rebuilding a shard, or failing to, keeps the map whatever other threads do |
| Concurrent.RunRefines | rustyfill/src/dashmap/dashmap_.rs:790-1155 | under every interleaving the shards hold what a plain map holds after the committed operations in commit order, each of which returned what the plain map returns; and whatever a thread is told about the map is the one commit it has made since it began that operation; and every step of the run has the property of `StepKeeps` |
| Concurrent.CanStep | rustyfill/src/dashmap/dashmap_.rs:925-1049 | what each phase of an operation needs to go on: a waiting one a free lock, or being non-blocking; any other one nothing |
| Concurrent.NeverStuck | rustyfill/src/dashmap/dashmap_.rs:925-1155 | there is no deadlock: while any operation is under way, something can take a step towards an end, whatever the allocator answers |
| Concurrent.UndisturbedInsertion | rustyfill/src/dashmap/dashmap_.rs:807-891 | a blocking or non-blocking insertion that meets a free lock and room, or a granting allocator, does what it does to a plain map |
| DashMaps.DashMap.constructor | rustyfill/src/dashmap/dashmap_.rs:777-786 | a new map is empty and owns no memory |
| DashMaps.DashMap.TryEntry | rustyfill/src/dashmap/dashmap_.rs:925-980 | on success the key's slot and room for one more; on failure nothing has changed; no other table changes |
| DashMaps.DashMap.Write | rustyfill/src/dashmap/dashmap_.rs:815-824 | filling the entry inserts the pair and needs no memory |
| DashMaps.DashMap.TryInsertGiveBack | rustyfill/src/dashmap/dashmap_.rs:807-825 | inserts and returns the old value, or changes nothing and returns key and value; which one is decided by the reservation alone; no other table changes |
| DashMaps.DashMap.TryInsertUnique | rustyfill/src/dashmap/dashmap_.rs:827-851 | inserts exactly when the key was absent and there is room; otherwise nothing changes and both come back with the reason |
| DashMaps.DashMap.TryReserveShards | rustyfill/src/dashmap/dashmap_.rs:1232-1249 | entries never change; success means room in every shard; failure means a refusal or an overflow |
| DashMaps.DashMap.TryCollectWithHasher | rustyfill/src/dashmap/dashmap_.rs:1186-1201 | the result is the fold of insertion over the items; failure only after a refusal or an overflow; every shard has the announced room |
| DashMaps.DashMap.TryClone | rustyfill/src/dashmap/dashmap_.rs:1259-1282 | a returned copy is the same map, however it is spread over shards; failure means a refusal, an overflow, or a failed clone among those of the entries |
| DashMaps.AllEntriesRebuild | rustyfill/src/dashmap/dashmap_.rs:1268-1280 | inserting all entries of a well-routed map into an empty one rebuilds it |
| DashMaps.DashMap.TryExtend | rustyfill/src/dashmap/dashmap_extend.rs:50-75 | what went in, the stranded head and the remainder make up the source, in order; it completes only without a refusal |
| DashMaps.RetriesInsertAll | rustyfill/src/recovery.rs:144-218 | any chain of retries with the handed-back state that ends well equals inserting the whole source |
| DashMaps.SliceRetriesInsertAll | rustyfill/src/dashmap/dashmap_extend.rs:20-40 | so does any chain of retries with the rest of the slice |
| Recovery.TryExtendVec | rustyfill/src/alloc/vec/try_extend.rs:40-70 | the in-place extension agrees with its specification, request by request |
| Recovery.ExtendConserves | rustyfill/src/alloc/vec/try_extend.rs:40-70 | what was pushed and what is handed back make up the vector and the source, in order, whatever the allocator does |
| Recovery.ExtendCompleteIff | rustyfill/src/alloc/vec/try_extend.rs:40-70 | an extension that fits below the size limit completes exactly when none of its requests was refused |
| Recovery.ReservedFirst | rustyfill/src/alloc/vec/try_extend.rs:54-60 | with a lower bound that covers the iterator a failed extension has consumed nothing |
| Recovery.StrandsIff | rustyfill/src/alloc/vec/try_extend.rs:44-68 | an element can be stranded exactly when the source brings one or the iterator yields more than its lower bound |
| Recovery.VecRemainderAloneIff | rustyfill/src/recovery.rs:197-200 | a completed retry with the remainder alone leaves the vector complete exactly when nothing was stranded |
| Recovery.ExactRetriesComplete | rustyfill/src/recovery.rs:119-141 | the documented retry pattern on a vector, with an exact size bound, loses nothing however often it fails |
| DashMaps.RemainderAloneSkipsOne | rustyfill/src/dashmap/dashmap_extend.rs:50-75 | on this map a retry with the remainder alone leaves out exactly the stranded item |
| DashMaps.RemainderAloneSufficesIff | rustyfill/src/dashmap/dashmap_extend.rs:50-75 | the final map is the full one all the same exactly when the stranded key recurs or its pair was already there |
| DashMaps.RemainderAloneInput | rustyfill/src/dashmap/dashmap_extend.rs:50-75 | two items with the first refused: the retry completes without it |
| DashMaps.DashMap.TryExtendFromSlice | rustyfill/src/dashmap/dashmap_extend.rs:20-40 | a prefix of the slice went in and the rest of the slice comes back, with the reason |
| DashMaps.DashMap.TryShrinkToFit | rustyfill/src/dashmap/dashmap_.rs:1090-1155 | the map never changes; the shards before the point of failure have tables with the same entries and a capacity granted in this call, the others are untouched; failure only when the last request was refused |
| DashMaps.DashMap.RebuildShard | rustyfill/src/dashmap/dashmap_.rs:1106-1152 | every entry ends up in the new table and the defensive branch is never taken; at every point each entry is dropped by exactly one of the two tables |
| WrapKinds.MergeIsJoin | rustyfill-macros/src/try_format_args.rs:173-182 | merge is the least upper bound in the flat order from measure to multi |
| WrapKinds.SlotHoldsJoin | rustyfill-macros/src/try_format_args.rs:850-862 | a slot holds the join of all its uses and is absent when unused |
| WrapKinds.AutoKindsInOrder | rustyfill-macros/src/try_format_args.rs:593-595 | automatic placeholders are listed in order |
| WrapKinds.TablesIgnoreOrder | rustyfill-macros/src/try_format_args.rs:850-862 | the slot tables depend only on which uses occur |
| WrapKinds.SameEffectIff | rustyfill-macros/src/try_format_args.rs:850-862 | two runs of uses have the same effect on every analysis exactly when their automatic kinds agree and their joins agree slot by slot |
| Printer.HoleInTemplate | rustyfill-macros/src/try_format_args.rs:633-843 | what the analyser records for any placeholder of Rust's grammar, white space before the brace included, and that it goes on behind it |
| Printer.ReadBackIff | rustyfill-macros/src/try_format_args.rs:633-843 | the recorded uses are the placeholder's own exactly when it is one of the understood ones |
| Printer.TablesRightIff | rustyfill-macros/src/try_format_args.rs:577-596 | what is recorded has the right effect on every analysis exactly when the placeholder is harmless |
| Printer.HexDebugMisread | rustyfill-macros/src/try_format_args.rs:764-769 | `x?` is taken for `x` |
| Printer.ZeroReferenceMisread | rustyfill-macros/src/try_format_args.rs:725-733 | a width reference to argument 0 is not recorded |
| Printer.NamedWidthMisread | rustyfill-macros/src/try_format_args.rs:735-780 | a precision argument behind a named width is not recorded |
| Printer.LetterFillMisread | rustyfill-macros/src/try_format_args.rs:714-730 | a letter as fill is taken for the type |
| Printer.StarFillHarmless | rustyfill-macros/src/try_format_args.rs:819-822 | a star as fill does no harm to a plain width |
| Printer.PrintedTemplateIsRead | rustyfill-macros/src/try_format_args.rs:551-604 | what the analyser records for any printed template of the grammar |
| Printer.PrintedTemplateReadsBack | rustyfill-macros/src/try_format_args.rs:551-604 | on a printed template the recorded uses are the template's, in order, exactly when every placeholder is understood |
| Printer.PrintedTemplateAnalysisIff | rustyfill-macros/src/try_format_args.rs:551-604 | the analysis of a printed template is that of its own uses exactly when the joins over all placeholders agree slot by slot and the automatic kinds agree |
| Printer.HarmlessAgrees | rustyfill-macros/src/try_format_args.rs:551-604 | which they do when every placeholder is harmless |
| Printer.OtherPlaceholderMakesUp | rustyfill-macros/src/try_format_args.rs:551-604 | and also in `{:0$} {0}`, whose first placeholder is not |
| Printer.PrintedTemplateAnalysis | rustyfill-macros/src/try_format_args.rs:551-604 | then each slot holds the join of its uses and the automatic kinds come in order |
| Template.OpenPlaceholder | rustyfill-macros/src/try_format_args.rs:551-604 | on any text whatever: a closing brace at the end changes nothing, so a placeholder left open is read as if the end closed it |
| Printer.ReorderedTemplate | rustyfill-macros/src/try_format_args.rs:551-604 | reordering the pieces of any template of the grammar leaves the slot tables as they were |
| Analyser.FormatAnalyser.ReadWhile | rustyfill-macros/src/try_format_args.rs:659-666 | the cursor takes the longest run of matching characters |
| Analyser.FormatAnalyser.ReadNumber | rustyfill-macros/src/try_format_args.rs:646-656 | the value of a run of digits, zero on overflow |
| Analyser.FormatAnalyser.ParseArgSpec | rustyfill-macros/src/try_format_args.rs:633-673 | cursor and slot are those of the specification |
| Analyser.FormatAnalyser.ParseWidthOrPrecision | rustyfill-macros/src/try_format_args.rs:808-843 | cursor and recorded uses are those of the specification |
| Analyser.FormatAnalyser.ParseFormatSpec | rustyfill-macros/src/try_format_args.rs:703-782 | cursor, type character and recorded uses are those of the specification |
| Analyser.FormatAnalyser.Analyse | rustyfill-macros/src/try_format_args.rs:551-604 | the tables after the loop record exactly the uses of the text, which is consumed |
| Guards.TestAllocator.Install | rustyfill-test-allocator/src/lib.rs:257-266 | the old cells are saved, the new policy starts with both counters at zero |
| Guards.TestAllocator.Restore | rustyfill-test-allocator/src/lib.rs:133-138 | exactly the saved cells come back |
| Guards.TestAllocator.CheckShouldFailAlloc | rustyfill-test-allocator/src/lib.rs:194-208 | the answer and the counter afterwards |
| Guards.TestAllocator.CheckShouldFailRealloc | rustyfill-test-allocator/src/lib.rs:210-224 | the answer and the counter afterwards |
| Guards.TestAllocator.WithPolicy | rustyfill-test-allocator/src/lib.rs:145-156 | the body runs under its own cells and the old ones come back, also after a panic |
| Guards.TestAllocator.Perform | rustyfill-test-allocator/src/lib.rs:145-298 | any well-nested trace, run in place, answers as specified |
| Guards.ExecCounts | rustyfill-test-allocator/src/lib.rs:194-224 | the answers of a scope are counted on from its counters, inner scopes and the other counter notwithstanding |
| Guards.ExecReaches | rustyfill-test-allocator/src/lib.rs:145-298 | a trace panics exactly when it contains a panic at any depth; every event before has one answer of its own kind, and nothing after is run |
| Guards.ExecCounters | rustyfill-test-allocator/src/lib.rs:194-224 | what the counters show at the end of a trace |
| Guards.ScopeMeaning | rustyfill-test-allocator/src/lib.rs:126-298 | while a guard is innermost the k-th request fails exactly when its policy is every or the k-th; closing it restores policy and counters, and a panic inside goes on outside |
| ModulePaths.TextRoundTrip | rustyfill-sys-bindings/src/syntaxes/module_path.rs:47-71 | a text parses to a path exactly when it is the printed form of that well-formed path, with either separator |
| ModulePaths.CanonicalSlash | rustyfill-sys-bindings/src/docjson/emit.rs:647-655 | both texts name the same path, and replacing the separators turns one into the other |
| ModulePaths.ModFileStem | rustyfill-sys-bindings/src/syntaxes/module_path.rs:35-43 | the directory form of a module file names that module, except that it takes the module `mod` for the root |
| ModulePaths.PlainFileStem | rustyfill-sys-bindings/src/syntaxes/module_path.rs:35-43 | a plain file, with or without its suffix, names its own path, unless it is called `mod`: then its directory |
| ModulePaths.FileStemOnly | rustyfill-sys-bindings/src/syntaxes/module_path.rs:35-43 | no other text is accepted: one that names a path is the path's slash text, or `mod` for the root, with or without the two suffixes |
| ModulePaths.DirectParentIff | rustyfill-sys-bindings/src/syntaxes/module_path.rs:106-146 | direct parenthood is joining the leaf, and agrees with parent and containment |
| ModulePaths.RelativeIff | rustyfill-sys-bindings/src/syntaxes/module_path.rs:188-194 | the relative segments are those that complete the prefix |
| ModulePaths.ContainsIsPartialOrder | rustyfill-sys-bindings/src/syntaxes/module_path.rs:135-137 | containment is a partial order with the root least |
| Manifests.InsertAddsPrefixes | rustyfill-sys-bindings/src/docjson/emit.rs:775-786 | inserting a path adds exactly its non-empty prefixes |
| Manifests.SegmentsMeaning | rustyfill-sys-bindings/src/docjson/emit.rs:775-786 | the segments inserted for a file are its pieces between slashes, empty ones left out, however many slashes there are |
| Manifests.TrieIsThePrefixes | rustyfill-sys-bindings/src/docjson/emit.rs:743-747 | the trie's paths are exactly the non-empty prefixes of the files, whatever their names; siblings come in ascending order at every level |
| Manifests.NodesAreThePaths | rustyfill-sys-bindings/src/docjson/emit.rs:789-832 | the emission visits exactly the trie's paths |
| Manifests.NodesDistinct | rustyfill-sys-bindings/src/docjson/emit.rs:789-832 | and none of them twice |
| Manifests.EmitAllReads | rustyfill-sys-bindings/src/docjson/emit.rs:789-832 | the emitted text, read as nested modules, includes each module's file inside the modules that spell its path |
| Manifests.ManifestIncludesEachFileOnce | rustyfill-sys-bindings/src/docjson/emit.rs:710-832 | the manifest includes every file once, in its own module, and nothing else |
| Manifests.IncludedWhereWritten | rustyfill-sys-bindings/src/docjson/emit.rs:82-91 | one file is included from where it was written exactly when a descendant implies a direct child |
| Manifests.ManifestFindsEveryFileIff | rustyfill-sys-bindings/src/docjson/emit.rs:73-98 | all includes name written files exactly when that holds for every file |
| Manifests.SkippedLevelIsMissed | rustyfill-sys-bindings/src/docjson/emit.rs:82-91 | a concrete pair of files for which it does not |
| Manifests.WrittenTogetherIff | rustyfill-sys-bindings/src/docjson/emit.rs:82-91 | two files are written to one place exactly when one is the other's module `mod` and has nothing directly beneath it |
| Manifests.FilesKeptApartIff | rustyfill-sys-bindings/src/docjson/emit.rs:73-98 | every file gets a place of its own exactly when there is no such pair |
| Manifests.OverwrittenFile | rustyfill-sys-bindings/src/docjson/emit.rs:82-91 | such a pair for any module name |
| Manifests.ManifestWriter.EmitManifestNode | rustyfill-sys-bindings/src/docjson/emit.rs:789-832 | the node's text is appended as specified |
| Manifests.ManifestWriter.EmitManifest | rustyfill-sys-bindings/src/docjson/emit.rs:710-766 | the loops build the two sets and the trie of the files and emit the specified text |
| Manifests.ManifestWriter.GetChildren | rustyfill-sys-bindings/src/docjson/emit.rs:658-672 | the leaves of the files directly beneath the module |
| Manifests.ChildrenAreLeaves | rustyfill-sys-bindings/src/docjson/emit.rs:658-672 | these are exactly the names with which some file extends the module's path by one |
| Counters.CounterIsTheSortedList | experiments/src/arithmetic_benchmarks.rs:75-77 | after any run of recordings the counter lays out the sorted list of all samples |
| Counters.BatchCounter.Add | experiments/src/arithmetic_benchmarks.rs:75-77 | exactly one sample more, bins still in order |
| Counters.BatchCounter.AtRank | experiments/src/arithmetic_benchmarks.rs:110-119 | the element of that rank in the sorted list, nothing past its end |
| Counters.BatchCounter.Total | experiments/src/arithmetic_benchmarks.rs:80-82 | the number of samples |
| Counters.BatchCounter.Least | experiments/src/arithmetic_benchmarks.rs:85-87 | the first of the sorted list |
| Counters.BatchCounter.Greatest | experiments/src/arithmetic_benchmarks.rs:90-92 | the last of the sorted list |
| Counters.BatchCounter.Median | experiments/src/arithmetic_benchmarks.rs:123-135 | the middle of the sorted list, or the mean of its two middle elements cut down to 64 bits |
| Counters.BatchCounter.Mean | experiments/src/arithmetic_benchmarks.rs:95-106 | the sum of the samples over their number, truncated to 64 bits |
| Counters.MeanMeaning | experiments/src/arithmetic_benchmarks.rs:95-106 | the mean is the exact quotient of sum and number, rounded down |
| Counters.MedianMeaning | experiments/src/arithmetic_benchmarks.rs:123-135 | the median is half the sum of the two middle samples, rounded down; half the samples are no greater, half no less |
| Counters.ReportedExactIff | experiments/src/arithmetic_benchmarks.rs:95-135 | the reported mean is the mean exactly when that fits into 64 bits; likewise the median of an even number of samples |
| Counters.ReportedBetween | experiments/src/arithmetic_benchmarks.rs:95-135 | what is reported never exceeds the greatest sample, and lies between least and greatest when the greatest fits into 64 bits |
| Counters.LongSampleCutDown | experiments/src/arithmetic_benchmarks.rs:95-106 | a single longer sample whose reported mean is zero |
| Shuffles.StateNeverZero | experiments/src/arithmetic_benchmarks.rs:344-353 | the generator's state is never zero, for any seed and number of steps |
| Shuffles.KnownOutputs | experiments/src/arithmetic_benchmarks.rs:344-353 | the known first outputs of this xorshift generator, and two seeded states |
| Shuffles.ScrambleIsBalanced | experiments/src/arithmetic_benchmarks.rs:330-361 | for every seed each operation appears exactly as often as in the canonical sequence |
| Shuffles.PickMeaning | experiments/src/arithmetic_benchmarks.rs:357-358 | the swap partner is the remainder of the generator's output |
| Shuffles.ShuffledByPicks | experiments/src/arithmetic_benchmarks.rs:355-361 | the shuffle is the one with the swaps that the generator chooses |
| Shuffles.ChoicesDiffer | experiments/src/arithmetic_benchmarks.rs:355-361 | different choices of swaps put distinct elements in different orders |
| Shuffles.ChoicesReach | experiments/src/arithmetic_benchmarks.rs:355-361 | every ordering of the elements arises from some choice of swaps |
| Shuffles.WorkflowPermutation | experiments/src/arithmetic_benchmarks.rs:330-361 | the in-place swaps compute the specified scramble |
| Shuffles.WorkflowPermutationCount | experiments/src/arithmetic_benchmarks.rs:302-323 | the loops compute the multinomial coefficient 113400, without saturating |
| Shuffles.OrderingsSize | experiments/src/arithmetic_benchmarks.rs:295-301 | the multinomial law: the orderings of any multiset of operations, times the factorials of the copies, are the factorial of their number |
| Shuffles.OrderingsCounted | experiments/src/arithmetic_benchmarks.rs:295-323 | the computed count is the number of sequences in which each operation appears exactly twice |
| Shuffles.DrawnWithin | experiments/src/arithmetic_benchmarks.rs:363-375 | no run of the redraw loop can keep more sequences than that |
| Shuffles.GenerateWorkflowPerms | experiments/src/arithmetic_benchmarks.rs:368-387 | panics exactly when more sequences are asked for than there are orderings; at any point of the redraw loop the kept sequences are pairwise distinct and are the scrambles of exactly the seeds drawn, in the order of their first appearance, and no seed is drawn in excess |

## Left out

- Frames.FramesMut: the visitor's changes to the values it visits, and the raw-pointer iteration, are not modelled; the visitor is a choice of where to stop.
- Reports.Report.PushPeer: requires no cap or a cap of two or more, because with a smaller cap the source does not return.
- Guards.TestAllocator.CheckShouldFailAlloc: the counter is unbounded; the 64-bit counter of the source would overflow after 2^64 counted calls.
- Counters.BatchCounter.Add: counts are unbounded for the same reason.
- Shuffles.GenerateWorkflowPerms: the loop is cut off after a given number of rounds, since that enough different scrambles ever appear is a fact about the generator.
- DashMaps.DashMap.RebuildShard: hashbrown's bit-level moves are represented by sequences of entries and by whether a table drops its entries; the old table's iteration order is kept here and arbitrary in the interleaved model.
- DashMaps.DashMap.TryClone: the copy visits the shards in order; a clone that succeeds is taken to equal its original.
- Concurrent.RunRefines: threads that hold an entry open between lookup and write, and so deadlock among them, are not modelled, nor is fairness; a failed lock attempt of a blocking operation is simply a step that cannot happen yet.
- Manifests.ManifestWriter.EmitManifest: the fixed header, indentation and `pub mod` text are represented by opening and closing lines.
- Printer.HoleInTemplate: Unicode classes are parameters that agree with the usual ones on ASCII.
- Recency.MostRecentIff: the order of children is a parameter, since a frame does not record which change of context left them.
- Recovery.TryExtendVec: the size bound is a parameter; an iterator's other answers are not modelled.
- The plain insertion variants differ from the give-back variants only in dropping their inputs; the non-blocking ones are modelled in `Concurrent` only, and `try_entry_ref` only inside `TryClone`.
- Attaching data to frames (`attach`, `try_attach`) is one reservation and one push.
- Rendering of reports: layout of glyphs.
- Macro token handling around the analyser, derive macros, error enums and their formatting, `TryDashSet`, hashers and random seeding.
- Source locations and type names of contexts are opaque data; a type is a number.
- A binding file that renders to nothing is not written; every file of the model has content.
- Rendering of generated bindings, known-type stubs, caches, processes and file I/O.
- `ModulePath::from_segments` accepts empty segments and is outside the identifier rule of the path theorems.
