# Snapshot engine and multi-participant controller, in Dafny

This project models two sequential components of a C unit-test and simulation framework.

**The global-memory snapshot engine (`src/restore.c`).** The build step writes a `.globals` file: a list of `{ptr, size}` records, one per global variable. Before the first test, the engine does the following:

- It loads that list.
- It relocates every record by the program's load bias.
- It drops records whose start address lies in one of the linker sections that must never be snapshotted.
- It merges contiguous survivors in place, in the same array, using an `out` write cursor that trails the `iter` read cursor.
- It re-terminates the list with `{0, 0}`.
- It then copies every region, in list order, into one freshly allocated buffer.

Between tests, the engine copies the buffer back out, at the same offsets and in the same order. The byte copy skips the whole copy when either pointer lies below `0x1000`.

The model is in three modules:

- `RestoreInfo` (restore_info.dfy) holds the record datatype, the exclusion test, the record-file format and relocation. It also holds the filter-and-coalesce rule, stated as functions on sequences (`Kept`, `Coalesce`, `Compacted`), with lemmas about them. The in-place pass itself is a method on an `array<Record>`, proved to leave `Compacted(...)` followed by the terminator.
- `RestoreData` (restore_data.dfy) holds the guarded byte copy, the save walk and the restore walk. These are methods on `array<byte>`: program memory is an array indexed by address, and the snapshot buffer is a separate array. There is also the class `Globals` for the engine's two global variables, and the save/mutate/restore round trip.
- `MultiSched` (multi_sched.dfy) is described with the controller below.

**The controller of a multi-participant virtual-time simulation (`src/multi-ctl.c`).** Remote participants call the controller over RPC:

- to report that a test started,
- to ask to run at a virtual time,
- to report that they wait,
- to report that a test failed,
- to report that a test ended.

The controller keeps the following state:

- a flag set per participant,
- one scheduler job per participant,
- the last deadline (`sync`) sent to each participant,
- the running participant,
- the abort state.

It sends `set_sync` (a deadline), `cont` (run now) and `test_end` calls.

- `MultiSched` (multi_sched.dfy) is the controller's job list: sorted by start time, at most one job per participant, ties kept in insertion order. The scheduler's own source (`src/sched.c`) is not part of this model. Deleting and inserting a job are therefore given as definitions here, with their properties proved.
- `MultiProtocol` (multi_protocol.dfy) is the controller as a state machine on values. It covers:
  - the deadline computation and the duplicate-suppressing `set_sync` rule,
  - the job callback,
  - each RPC handler,
  - one step of the `wait_all` loop, and the whole loop over a finite supply of incoming calls,
  - the end of a test.

  Calls the controller sends are appended to a log. The invariant `CausallySafe` holds in every state the loop passes through: the running participant's deadline is never past a pending job.
- `MultiCtl` (multi_ctl.dfy) is the controller as it runs: a `class Controller` whose fields (the participant array, the running index, the job list, the two clocks, the abort state) are updated in place. Every method is proved to change the abstract state `Abs()` exactly as the corresponding `MultiProtocol` function does, so the lemmas proved there apply to it.

Notes on the code as written:

- **Exclusion is decided on a region's start address only** (`src/restore.c:99`). A region that starts outside every excluded section is kept whole, even when it runs into one. Coalescing can then also merge a kept region with its neighbour. `RestoreInfo.ExclusionByStartOnly` shows such a case. The model therefore does not promise that bytes of excluded sections are never written.
- **The deadline after a first request is the requested time.** When no job is pending and a participant asks to run at time t, its new job is already in the list when the deadline is recomputed (`src/multi-ctl.c:288-290`). The deadline is therefore t, not the current time plus 2^62. The running participant is sent a set_sync with t unless it already holds t (`MultiProtocol.RequestSync`). `MultiProtocol.RequestReplacesScenario` states this for a participant that does not.

## Model

| member | source | states |
|---|---|---|
| RestoreInfo.ShouldRestore | src/restore.c:40-64 | A start address is restorable exactly when it lies in none of the half-open exclusion ranges. |
| RestoreInfo.ShouldRestoreSections | src/restore.c:46-61 | The section list tested is, in order: norestore, opt, tests (except in the library build), static reference data, rpcp and rpcstub. An address passes exactly when it is outside each of them. |
| RestoreInfo.Relocate | src/restore.c:97 | Relocation by the load bias wraps modulo 2^64, and equals plain addition when there is no overflow. |
| RestoreInfo.DecodeRecords | src/restore.c:89-94 | A file of whole records reads as length/16 records, each field below 2^64. |
| RestoreInfo.DecodeEncode | src/restore.c:93 | Decoding the little-endian 64-bit encoding of a list of records gives back that list. |
| RestoreInfo.ScanEnd | src/restore.c:96 | The scan stops at the first record whose unrelocated ptr is 0, and every record before it has a non-zero ptr. |
| RestoreInfo.KeptShape | src/restore.c:96-100 | Every kept record starts at the relocated start address of an input record, and that address passes the exclusion test. At most as many records are kept as were read. |
| RestoreInfo.Kept | src/restore.c:96-100 | Defines the records the loop keeps: each scanned record relocated by the bias, in order, when its start passes the exclusion test. |
| RestoreInfo.Push | src/restore.c:102-112 | Defines one coalescing step: grow the last output record when the new one starts where it ends, otherwise append it. |
| RestoreInfo.Coalesce | src/restore.c:102-112 | Defines the coalescing of a list as Push applied to each record in order. |
| RestoreInfo.Compacted | src/restore.c:96-113 | Defines the list the loader leaves before its terminator: the coalesced kept records of the scanned input. |
| RestoreInfo.CoalesceTotal | src/restore.c:102-112 | Coalescing keeps the sum of region sizes. |
| RestoreInfo.CoalesceLength | src/restore.c:102-112 | Coalescing never lengthens the list. |
| RestoreInfo.CoalesceNoContiguous | src/restore.c:102-112 | After coalescing, no record starts where its predecessor ends. |
| RestoreInfo.CoalesceStarts | src/restore.c:102-112 | Every start address after coalescing is a start address of the input. |
| RestoreInfo.CoalesceIdempotent | src/restore.c:102-112 | A list with no contiguous neighbours is left unchanged by coalescing. |
| RestoreInfo.KeptIdentity | src/restore.c:96-100 | With zero bias, a list whose start addresses all pass the exclusion test is kept whole. |
| RestoreInfo.ScannedOfList | src/restore.c:96-121 | A list with no zero start address, followed by the terminator, is scanned exactly up to the terminator. |
| RestoreInfo.CompactedTotal | src/restore.c:96-113 | The compacted list holds exactly as many bytes as the records that pass the filter. |
| RestoreInfo.CompactedShape | src/restore.c:96-113 | The compacted list is no longer than the scanned input, has no contiguous neighbours, and each of its start addresses is the relocated start of a scanned record and passes the exclusion test. |
| RestoreInfo.RecompactIsNoOp | src/restore.c:96-121 | Running the pass again with zero bias over its own terminated output changes nothing, provided no region starts at address 0. |
| RestoreInfo.CoalesceExample | src/restore.c:102-112 | {0x1000,16},{0x1010,16},{0x2000,8} compacts to {0x1000,32},{0x2000,8}. |
| RestoreInfo.ExclusionByStartOnly | src/restore.c:99 | A region starting outside an excluded section but running into it is kept whole. |
| RestoreInfo.EmitRecord | src/restore.c:102-112 | A surviving record either grows the record under the out cursor or is stored after it. The output prefix becomes Push of the old prefix, and no other slot changes. |
| RestoreInfo.CompactStep | src/restore.c:96-113 | One loop pass extends the output prefix from the compaction of the first iter records to the compaction of the first iter+1 records. The output never passes the read cursor, and slots after iter are untouched. |
| RestoreInfo.CompactInPlace | src/restore.c:96-121 | The in-place loop leaves the compacted list followed by the {0,0} terminator in the same array, with at most as many records as were scanned. |
| RestoreInfo.ReadRestoreInfo | src/restore.c:70-124 | A misaligned file length and a short read are the two error cases, each exactly under its condition. Otherwise a fresh array of length/16+1 records holds the compacted list and its terminator. |
| RestoreData.RestoreMemcpy | src/restore.c:126-136 | Copies sz bytes from src to dst when both addresses are at least 0x1000. Otherwise dst is unchanged. |
| RestoreData.TermIndex | src/restore.c:151-183 | The save and restore walks stop at the first all-zero record. |
| RestoreData.TotalPrefixBound | src/restore.c:151-154 | The sum of sizes up to any region is at most the buffer size. |
| RestoreData.Saved | src/restore.c:160-165 | Defines a buffer holding, at each guarded region's offset, that region's bytes of memory. |
| RestoreData.RegionsSize | src/restore.c:151-154 | The first walk sums the region sizes up to the terminator. |
| RestoreData.SaveRegion | src/restore.c:161-164 | One copy pass writes region i at offset Total(first i regions) when the guard passes, and touches no other byte of the buffer. |
| RestoreData.SaveRestoreData | src/restore.c:141-169 | The buffer is as long as the sum of the region sizes, and holds each guarded region's bytes at the offset equal to the sizes before it. |
| RestoreData.RestoreRegion | src/restore.c:179-182 | One copy-back pass writes region i back from its buffer offset. |
| RestoreData.WriteRegion | src/restore.c:180 | One region written back from its buffer offset when the copy guard passes. Memory keeps its length. |
| RestoreData.Restored | src/restore.c:179-183 | Memory after every region is written back in list order. Its length is unchanged. |
| RestoreData.RestoreRegions | src/restore.c:171-185 | Memory ends as each region, in list order, written back from its buffer offset. |
| RestoreData.SaveRestoreRoundTrip | src/restore.c:141-185 | After a save from m0, any change of memory to m1, and a restore, every byte of a guarded region holds its m0 value and every other byte its m1 value. |
| RestoreData.RegionsOfStoredList | src/restore.c:115-121 | A loaded list yields its regions to the save walk: all of them when no region is all-zero, and a prefix otherwise. |
| RestoreData.Globals.constructor | src/restore.c:37-38 | The globals start out holding no snapshot. |
| RestoreData.Globals.SaveGlobals | src/restore.c:187-191 | Fails exactly on a misaligned or short file, leaving the globals alone. Otherwise the globals hold the loaded list and a buffer with every guarded region's bytes. |
| RestoreData.Globals.RestoreGlobals | src/restore.c:193-196 | Memory is restored from the saved buffer over the saved list. |
| MultiSched.SlotFor | src/multi-ctl.c:288 | A new job is inserted after every queued job starting no later than it, and before the first one starting later. |
| MultiSched.DelJob | src/multi-ctl.c:282 | Defines removing a participant's job from the list. The list never grows. |
| MultiSched.AddJob | src/multi-ctl.c:288 | Defines inserting a job at its SlotFor position. The list grows by exactly one. |
| MultiSched.DelJobMembers | src/multi-ctl.c:282 | After deleting a participant's job, the list holds exactly the other participants' jobs. |
| MultiSched.DelJobAbsent | src/multi-ctl.c:282 | Deleting the job of a participant with no queued job leaves the list unchanged. |
| MultiSched.DelJobOnly | src/multi-ctl.c:282 | Deleting the only owner's job empties the list. |
| MultiSched.DelJobSorted | src/multi-ctl.c:282 | Deleting keeps the list ordered by start time. |
| MultiSched.DelJobOneEach | src/multi-ctl.c:282 | Deleting keeps at most one job per participant. |
| MultiSched.DelJobRemoves | src/multi-ctl.c:282 | After a delete, the participant has no job. |
| MultiSched.AddJobMultiset | src/multi-ctl.c:288 | Adding inserts exactly the new job and keeps every queued one. |
| MultiSched.AddJobAt | src/multi-ctl.c:288 | After an add, the jobs before the slot and after it keep their order, and the new job sits at the slot. |
| MultiSched.AddJobSorted | src/multi-ctl.c:288 | Adding keeps the list ordered by start time. |
| MultiSched.AddJobOneEach | src/multi-ctl.c:288 | Adding a job for a participant with none keeps at most one job per participant. |
| MultiSched.AddJobMembers | src/multi-ctl.c:288 | After an add, the list holds exactly the new job and the old ones. |
| MultiProtocol.Initial | src/multi-ctl.c:38-45 | The initial state is valid and causally safe, with the local participant running. |
| MultiProtocol.SyncStamp | src/multi-ctl.c:60-65 | The time attached to an outgoing call is the later of the task-scheduler time and the multi-scheduler time. |
| MultiProtocol.Deadline | src/multi-ctl.c:223-231 | Defines the deadline: the start of the first pending job, or the current multi-scheduler time plus 2^62 modulo 2^64. |
| MultiProtocol.DeadlineEarliest | src/multi-ctl.c:223-231 | The deadline is the start of the earliest pending job, which lies at or before every job. With no job pending, it is the current time plus 2^62, modulo 2^64. |
| MultiProtocol.UpdateSync | src/multi-ctl.c:220-245 | With no argument, the running participant is targeted; otherwise the argument becomes the running participant. set_sync goes out only when the target does not already hold the deadline. Afterwards it holds the deadline, and only its sync fields change. |
| MultiProtocol.UpdateSyncTwice | src/multi-ctl.c:238-240 | A second recomputation with nothing changed in between changes nothing, so set_sync is sent at most once. |
| MultiProtocol.SchedCallback | src/multi-ctl.c:247-259 | Firing p's job clears WAITING for p only and makes p the running participant with the current deadline. The log gains exactly a set_sync to p (unless p already holds that deadline), then cont with the multi-scheduler time. |
| MultiProtocol.SchedNext | src/multi-ctl.c:138-139 | Advancing the scheduler removes the earliest job, moves the clock to its start and fires it. The log gains exactly the deadline update for its owner, if due, and cont at the job's start. |
| MultiProtocol.AddFlag | src/multi-ctl.c:264-315 | ORing in a flag adds exactly that flag to that participant and changes nothing else. |
| MultiProtocol.Requested | src/multi-ctl.c:280-289 | Before the deadline is recomputed, a request has marked the sender started and replaced its job, and nothing else has changed. |
| MultiProtocol.Request | src/multi-ctl.c:271-291 | The sched_request handler keeps the state valid and causally safe. Its effects are stated by RequestFlags, RequestJobs and RequestSync. |
| MultiProtocol.RequestFlags | src/multi-ctl.c:280 | A request sets STARTED for its sender, and leaves other flags, the running participant, the clocks and the abort state alone. |
| MultiProtocol.RequestJobs | src/multi-ctl.c:282-288 | After a request, the sender's only job is the new one, and every other participant keeps its job. |
| MultiProtocol.RequestSync | src/multi-ctl.c:290 | After a request, the running participant holds the new deadline. set_sync went out to it only if it did not hold that deadline before. |
| MultiProtocol.ReplaceJob | src/multi-ctl.c:282-288 | Delete-then-add keeps the job list sorted, with one job per participant, all owned by known participants. |
| MultiProtocol.Fail | src/multi-ctl.c:300-308 | test_failed records the status and aborts only if not already aborted, and changes nothing else. |
| MultiProtocol.Handle | src/multi-ctl.c:264-315 | Every handler keeps the state valid and preserves causal safety. |
| MultiProtocol.FlagHandlers | src/multi-ctl.c:264-315 | test_started, sched_wait and test_ended each add exactly their own flag to the sender and change nothing else. |
| MultiProtocol.FirstFailureWins | src/multi-ctl.c:302-306 | After two failures, the stored reason is the first one's, or the earlier one if the test was already aborted. |
| MultiProtocol.Step | src/multi-ctl.c:132-139 | An iteration handles one message, then advances the scheduler once if asked to and a job is pending. It preserves validity and causal safety. |
| MultiProtocol.TraceStep | src/multi-ctl.c:117-140 | Each state of the trace is one step from the state before it. |
| MultiProtocol.WaitAll | src/multi-ctl.c:115-141 | The loop reports done exactly when every remote participant has the flag. It stops only then or when the messages run out. |
| MultiProtocol.WaitAllEndsAt | src/multi-ctl.c:115-141 | The state the loop stops in is the trace state after the messages it consumed. |
| MultiProtocol.WaitAllStopsFirst | src/multi-ctl.c:122-130 | The check runs before each message: no state passed through before the stop had the flag everywhere. |
| MultiProtocol.WaitAllGoesOn | src/multi-ctl.c:129-132 | A trace state that lacks the flag somewhere and has a message left is not where the loop stops. |
| MultiProtocol.WaitAllStopsAt | src/multi-ctl.c:129-130 | The first trace state with the flag everywhere, or the last one, is where the loop stops. |
| MultiProtocol.TraceSafe | src/multi-ctl.c:115-141 | Causal safety holds in every state the loop passes through. |
| MultiProtocol.TestEnds | src/multi-ctl.c:201-202 | test_end goes to each remote participant 1..n-1, in order, with the status. |
| MultiProtocol.Realigned | src/multi-ctl.c:198-199 | The multi-scheduler clock is set to the task-scheduler clock, so the attached time becomes the task time. |
| MultiProtocol.EndTest | src/multi-ctl.c:185-207 | The end of a test reports done exactly when every remote participant has FINISHED. |
| MultiProtocol.HandleAppends | src/multi-ctl.c:264-315 | A handler only appends to the log of sent calls. |
| MultiProtocol.StepAppends | src/multi-ctl.c:132-139 | An iteration of wait_all only appends to the log of sent calls. |
| MultiProtocol.WaitAllAppends | src/multi-ctl.c:115-141 | wait_all only appends to the log of sent calls. |
| MultiProtocol.EndTestBroadcast | src/multi-ctl.c:198-204 | Whatever the participants answer, the final log begins with the earlier calls followed by test_end to every remote participant, stamped with the task-scheduler time. The wait runs from the state whose scheduler clock is the task-scheduler time and whose log holds that broadcast. |
| MultiProtocol.EndTestSafe | src/multi-ctl.c:185-207 | The end of a test preserves causal safety. |
| MultiProtocol.OnlyRequester | src/multi-ctl.c:282-290 | A request from the only participant with jobs leaves exactly the new job, and the deadline is its time. |
| MultiProtocol.RequestReplacesScenario | src/multi-ctl.c:271-291 | Requests for 100 and then 50 leave one job at 50. set_sync carries 100, then 50, and firing the job runs the participant at 50. |
| MultiProtocol.WaitNoticesScenario | src/multi-ctl.c:115-141 | Two sched_wait calls make a wait for WAITING without scheduling return after exactly two messages, with jobs, clock and log unchanged. |
| MultiCtl.Controller.constructor | src/multi-ctl.c:38-45 | The controller starts in the initial state. |
| MultiCtl.Controller.ExtraTransmit | src/multi-ctl.c:47-66 | The attached time is the later of the two clocks. |
| MultiCtl.Controller.UpdateSyncTime | src/multi-ctl.c:220-245 | The fields change exactly as UpdateSync says. |
| MultiCtl.Controller.SchedCallback | src/multi-ctl.c:247-259 | The fields change exactly as SchedCallback says. |
| MultiCtl.Controller.SchedNext | src/multi-ctl.c:138-139 | The fields change exactly as SchedNext says. |
| MultiCtl.Controller.OnTestStarted | src/multi-ctl.c:264-269 | Only the sender's STARTED flag is set. |
| MultiCtl.Controller.OnSchedRequest | src/multi-ctl.c:271-291 | The fields change exactly as Request says. |
| MultiCtl.Controller.OnSchedWait | src/multi-ctl.c:293-298 | Only the sender's WAITING flag is set. |
| MultiCtl.Controller.OnTestFailed | src/multi-ctl.c:300-308 | The fields change exactly as Fail says. |
| MultiCtl.Controller.OnTestEnded | src/multi-ctl.c:310-315 | Only the sender's FINISHED flag is set. |
| MultiCtl.Controller.HandleRpc | src/multi-ctl.c:264-315 | Dispatching one call changes the fields exactly as Handle says. |
| MultiCtl.Controller.AllHaveFlag | src/multi-ctl.c:119-127 | The `all` accumulator is true exactly when every remote participant has the flag. |
| MultiCtl.Controller.WaitStep | src/multi-ctl.c:132-139 | One iteration changes the fields exactly as Step says. |
| MultiCtl.Controller.WaitIteration | src/multi-ctl.c:117-140 | The iteration on message k moves the controller from trace state k to trace state k+1. |
| MultiCtl.Controller.WaitAll | src/multi-ctl.c:115-141 | The polling loop ends in the state, with the count and the outcome, that WaitAll defines. |
| MultiCtl.Controller.BroadcastTestEnd | src/multi-ctl.c:201-202 | The loop sends test_end to participants 1..n-1, in order, and changes nothing else. |
| MultiCtl.Controller.EndTest | src/multi-ctl.c:185-207 | Realigning, broadcasting and waiting end as EndTest defines. |

## Left out

- File access in `usfstl_read_restore_info` (building the `.globals` file name, `open`, `lseek`, `read`) is not modelled. The file contents and the byte count `read` returned are inputs.
- The assertions on a misaligned length and a short read abort the program. Here they are the two error results, and `SaveGlobals` then leaves the globals untouched.
- A failing `calloc` or `malloc` (an assertion in the source) is not modelled. The address `malloc` returns is a parameter, since the copy guard tests it.
- The linker section bounds and `usfstl_dwarf_get_base_address` are parameters.
- The fuzzing builds, in which save and restore do nothing, are not modelled.
- The byte-copy guard is the clang build's `restore_memcpy`. Other compilers use `memcpy`, which has no guard.
- RestoreInfo.Coalesce: the contiguity test `out->ptr + out->size == ptr` and the growth of `out->size` are unbounded sums. The source's 64-bit wrap-around of these is not modelled.
- RestoreData.RegionsSize: the sum of region sizes is unbounded. The source's 64-bit `total` is not modelled as wrapping.
- The `data` pointer advance is likewise not wrapped, and the buffer address plus offset is not wrapped in the copy guard.
- Process spawning, connection wiring, `usfstl_multi_controller_init`, the debug-attach trap and `usfstl_multi_finish` (`src/multi-ctl.c:68-113, 209-218`) are not modelled. They are operating-system and transport plumbing.
- `usfstl_multi_start_test_controller` (`src/multi-ctl.c:153-183`) is not modelled. Building its test_start message and installing the scheduler hooks is transport plumbing. Its wait for STARTED is an instance of `WaitAll`.
- `usfstl_multi_sched_ext_wait_controller` (`src/multi-ctl.c:143-151`) is not modelled. Its termination depends on a flag set by code outside this model. Its body is a `WaitAll` for WAITING followed by `usfstl_sched_next`. `SchedNext` models that call only when a job is pending; the call on an empty job list (`src/multi-ctl.c:149`) is not modelled.
- The RPC transport and the `USFSTL_RPC_*` macros are not modelled. Outgoing calls are entries appended to the ghost log `sent`. Incoming calls are values of `Incoming`. `usfstl_rpc_handle` blocks until a call arrives; here it takes the next element of a finite inbox. When the inbox runs out, the loop reports `done == false`.
- `extra_received` processing of the times participants attach to their calls is not modelled.
- `usfstl_ctx_abort_test` is an external context switch and is not modelled. Only the flag and reason it follows are kept.
- `g_usfstl_multi_test_running` is not modelled.
- The scheduler in `src/sched.c` is not part of this model. Its job list is `MultiSched`, given as definitions: jobs ordered by start time, with ties in insertion order. `usfstl_sched_next` is `SchedNext`, and `usfstl_sched_next_pending` is the head of the list.
- `usfstl_time_cmp`, the wrap-aware time comparison, is a plain comparison. `ExtraTransmit` therefore does not capture its wrap-around ordering.
- MultiProtocol.SchedNext: the multi-scheduler clock is not checked to move forward only. The scheduler's own assertions live in `src/sched.c`.
- Calls to participant 0 go over `USFSTL_RPC_LOCAL`, so their participant-side handlers run inside the controller (`src/multi-ctl.c:13-15, 182`). The model only logs such calls, and their effects are not modelled: the task-scheduler time `taskTime` never changes in the model.
