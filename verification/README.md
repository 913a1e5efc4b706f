# Verified models of the build report, the trace layout, the partition signatures, the chunk allocator, the bad-word filter and the program router

Six algorithms of the repository, each in its own form (methods over objects and lists) and each tied to a
specification that does not know how the algorithm works.

**Build report** (`BuildTimeline`, `BuildReport`, `NinjaLog`). The report sorts all starts and stops of build steps
and runs one cumulative weighted clock over them. `BuildTimeline` defines what a weight is without events: the
integral, over the step's own interval, of 1/(number of running steps), the time axis being cut wherever a step starts
or stops. `BuildReport.Sweep` is proved to give every step exactly that weight, for any order of simultaneous events,
and to fail exactly when some step ends before it starts. The weights add up to the time during which something was
running; the report's length reaches that sum exactly when there is no idle gap. `NinjaLog` is the reader in front: it
keeps a suffix of the log that is one build and groups it by command hash, and `ReportBuild` says for every log which
error the tool ends with or what it reports. Times are exact reals, so the tolerances of the code become exact
statements.

**Trace layout** (`SlotLines`, `SlotLayout`, `Sorting`, `TraceLayout`). A slot line is a sorted interval list whose
overlap test looks at two neighbours. `SlotLayout` is the allocator as a state machine over whole runs (requests,
spans, lines), `TraceLayout` the code with containers, dictionaries and objects, proved to make the same steps. Spans
are those after conversion, where 1000 ns have been taken off the end, so they may have no duration or end before they
start. A span without duration is not checked when it stays with its request (line 98). `CollisionFreeExactly` says
for every run of any spans that two spans of a line overlap if and only if some step was blind: the span had no
duration, kept the line of its request, and the check, had it been made, would have reported a conflict. Spans that
end before they start do no harm. `RequestStays` and `LowestFree` say for every step of every run which line it takes.
A span without duration inside a span of its own request is drawn there on purpose; what it can spoil is the check for
later spans. `NeverHidingNoProperCollision` says that two spans of positive duration never collide as long as no span
without duration is stored where another one starts earlier and goes on for more than a tick. `LinesWithinCrowd` holds
for every run; the optimality of the gateway lines needs positive durations of the gateway spans only.

**Partition signatures** (`PartitionGraph`, `PartitionSignatures`) and **memory planner** (`MemoryPlan`).
`PartitionGraph` says what a partitioned program is and what running it means: a partition function receives its
declared input nodes, every node needs its buffers, frees what it uses last, and returns the declared outputs; the
caller drops the inputs marked for deallocation. This caller is generated by code outside this repository; its
behaviour is modelled after the meaning the signature's documentation gives to inputs, outputs and deallocation. What
the scheduler guarantees (names produced once, topological order, mutations touch what they mutate, last uses are
last, graph outputs are real and allocated) is `WellFormed`. The documented rule that buffers without layout are never
partition inputs is not kept by the code: the names added for freeing are not filtered (lines 261-266).
`NoneInputExactly` and `RunsExactlyWhen` give the exact condition, `TokenProgramFails` a program. The planner's final
assertion accepts some unbalanced lines (`UnbalancedAccepted`); `PlanLines` states exactly which lines it accepts, and
`BalancedExactly` which of these are balanced.

**Chunked allocator, ROCm path** (`ChunkPlan`, `CumemDriver`, `CumemAllocator`, `PyArgs`, `CumemExtension`,
`SleepMode`). Chunk sizes are computed in explicit 64-bit arithmetic. The driver is an object whose every call may
fail and which logs its calls. A configured chunk size near 2^64 makes the aligned chunk size 0, or plans no chunk at
all; `PlanSoundExactly` gives the two sums that must fit, `ConfiguredPlansCollapse` a configuration for each failure.
`CreateAndMap` states the exact sequence of driver calls for every outcome: the error code is the first failing
status, a failed creation or mapping restores the device exactly when no undo call failed, a failure to set access
leaves everything mapped, and with an error code still set from an earlier call the handle of the first chunk is lost.
`MyMalloc` ties every ending to its cause: a null result keeps the address range reserved exactly when the range was
reserved and the heap ran out of cells, the Python callback was missing or raised, or a failed mapping was followed by
a failed release of the range (`Orphaned`; `MissingCallbackOrphans` is an input). `SleepMode` puts all recorded
allocations to sleep and wakes them up, any number of times, on the tuples that `MyMalloc` gave to Python; its result
is the full history, with the device after every single step, also after failing ones.

**Bad-word filter** (`BadWords`). A step sets to -inf exactly the tokens that would complete a bad word; over whole
runs the sequences that can be sampled are exactly those in whose generated part no bad word ends. The cached word
bias always equals the recomputed one.

**Program router** (`ProgramRouter`, `ResumeSelection`). Two loops of the scheduler. Pausing: the comment in the loop
says that marking a reasoning program is accounted for, but the remaining capacity does not look at marks, so as soon
as the reasoning programs alone exceed the capacity, all of them are marked. `PauseUntilSafe` states this and the
other case exactly, and that every mark was needed if and only if the reasoning programs fit or all of them but the
largest do not cover the overflow; `MarksMoreThanNeeded` is an input. Resuming: no backend gets more than it had
offered, and every selected program left waiting fits no usable backend. The selection is documented as the maximum
that can possibly be resumed. It is maximal against the total of all backends (`SelectionMaximal`), but a program that
fits can be left out: `NoneLeftExactly` says that this never happens, whatever the candidates, if and only if at most
one usable backend has more room than the buffer; `FittingProgramNotTried` is an input. (A program without tokens does
not count as fitting where exactly the buffer is left: the code no longer offers such a backend.)

`dafny verify dfyconfig.toml` checks everything.

## Model

| member | source | states |
|---|---|---|
| BuildTimeline.IntegralSplits | vllm-v0.17.1/tools/report_build_time_ninja.py:234-243 | one running clock suffices: the charge over an interval is the difference of the clock at its ends, wherever the time axis is cut |
| BuildTimeline.AccrualByPhase | vllm-v0.17.1/tools/report_build_time_ninja.py:245-254 | a task is charged nothing before its start, its share while it runs, and nothing after its stop |
| BuildTimeline.WeightBounds | vllm-v0.17.1/tools/report_build_time_ninja.py:74-89 | a weighted duration lies between the n-th part of the duration and the duration, so the assertion never fires |
| BuildTimeline.ChargesConserveBusyTime | vllm-v0.17.1/tools/report_build_time_ninja.py:234-254 | at every moment the charges made so far add up to the time during which some task was running |
| BuildTimeline.BusyAtMostElapsed | vllm-v0.17.1/tools/report_build_time_ninja.py:258-265 | busy time is at most elapsed time, with equality exactly when no instant is idle |
| BuildTimeline.BusyPlusIdle | vllm-v0.17.1/tools/report_build_time_ninja.py:258-265 | elapsed time is busy time plus idle time |
| BuildReport.SortByKey | vllm-v0.17.1/tools/report_build_time_ninja.py:223-228 | the events in (time, action) order, none lost or doubled, ties in any order |
| BuildReport.TrackedAreRunning | vllm-v0.17.1/tools/report_build_time_ninja.py:229-247 | whenever time advances, the tracked tasks are exactly those running since the last event |
| BuildReport.NoCutBetweenEvents | vllm-v0.17.1/tools/report_build_time_ninja.py:238-244 | between consecutive events no task starts or stops |
| BuildReport.StopFindsTask | vllm-v0.17.1/tools/report_build_time_ninja.py:225-254 | a stop finds its task among the running ones iff the task does not end before it starts, also at equal times |
| BuildReport.AdvanceTo | vllm-v0.17.1/tools/report_build_time_ninja.py:239-244 | the clock is brought to the integral of 1/(number running) up to the event |
| BuildReport.Sweep | vllm-v0.17.1/tools/report_build_time_ninja.py:230-256 | succeeds iff every task is ordered; then every task has its weight and the total is the busy time |
| BuildReport.CollectTimes | vllm-v0.17.1/tools/report_build_time_ninja.py:207-219 | the event list, the scanned range and the summed durations |
| BuildReport.EarliestScanExact | vllm-v0.17.1/tools/report_build_time_ninja.py:209-214 | the scan with its -1 sentinel finds the least start iff no start is negative or the last entry starts first |
| BuildReport.LatestScanExact | vllm-v0.17.1/tools/report_build_time_ninja.py:210-216 | the scan finds the greatest end if some end is non-negative, and 0 otherwise |
| BuildReport.SummarizeEntries | vllm-v0.17.1/tools/report_build_time_ninja.py:198-292 | which error each input gives, every weight, the total, the length, and when the corruption warning appears |
| BuildReport.OrderIrrelevant | vllm-v0.17.1/tools/report_build_time_ninja.py:218-256 | two reports on permuted entries fail alike and store the same weights, and agree in everything if no stamp is negative |
| BuildReport.DurationOfPermutation | vllm-v0.17.1/tools/report_build_time_ninja.py:217 | the summed durations do not depend on the order |
| BuildReport.DurationOfOne | vllm-v0.17.1/tools/report_build_time_ninja.py:217 | no entries add up to 0, one to its duration |
| BuildReport.LengthBoundsTotal | vllm-v0.17.1/tools/report_build_time_ninja.py:220-265 | with non-negative stamps the reported length is the range and bounds the total, equals it iff nothing is idle, and the warning appears iff more than 500 s are idle |
| NinjaLog.RecordsConcat | vllm-v0.17.1/tools/report_build_time_ninja.py:114-123 | the records are those of the lines, in order, whatever lines are corrupt |
| NinjaLog.RecordsOfLine | vllm-v0.17.1/tools/report_build_time_ninja.py:114-123 | a line of five fields is one record as it stands, any other none |
| NinjaLog.ClashExactly | vllm-v0.17.1/tools/report_build_time_ninja.py:124-143 | a record clashes iff the kept records and it are no longer one build |
| NinjaLog.WindowIsOneBuild | vllm-v0.17.1/tools/report_build_time_ninja.py:124-143 | the kept suffix has non-decreasing ends and one interval per hash, starts at a clash, and is the whole log if that is one build |
| NinjaLog.ShowAllKeepsAll | vllm-v0.17.1/tools/report_build_time_ninja.py:124-135 | with show_all nothing is thrown away |
| NinjaLog.EveryRecordGrouped | vllm-v0.17.1/tools/report_build_time_ninja.py:144-148 | the groups hold exactly one name per kept record |
| NinjaLog.HashesGrow | vllm-v0.17.1/tools/report_build_time_ninja.py:144-148 | a hash is listed iff some record has it, and the order of listing never changes |
| NinjaLog.FirstExactly | vllm-v0.17.1/tools/report_build_time_ninja.py:144-145 | the interval of a hash is that of the first record with it |
| NinjaLog.NamesConcat | vllm-v0.17.1/tools/report_build_time_ninja.py:147 | the names of a hash are those of its records, in order |
| NinjaLog.NamesOfOne | vllm-v0.17.1/tools/report_build_time_ninja.py:147 | a record adds its name under its own hash only |
| NinjaLog.FirstSpeaksForAll | vllm-v0.17.1/tools/report_build_time_ninja.py:133-145 | in one build the stored interval of a hash is that of all its records |
| NinjaLog.ResetTests | vllm-v0.17.1/tools/report_build_time_ninja.py:124-143 | the two tests on the reader's own state amount to a clash with the kept records |
| NinjaLog.AddRecord | vllm-v0.17.1/tools/report_build_time_ninja.py:144-147 | the dictionary goes on holding the groups of the kept records |
| NinjaLog.ReadRecord | vllm-v0.17.1/tools/report_build_time_ninja.py:120-147 | one line keeps the dictionary equal to the groups of the kept suffix |
| NinjaLog.ReadTargets | vllm-v0.17.1/tools/report_build_time_ninja.py:104-148 | a foreign header fails; otherwise the result lists new, distinct targets, one per hash of the kept suffix in order of appearance |
| NinjaLog.ReportBuild | vllm-v0.17.1/tools/report_build_time_ninja.py:315-318 | the error of every log, in terms of the kept records; on all others the report on the kept groups; without negative stamps the division fails iff all kept records happened at one instant |
| SlotLines.NeighboursDecide | sglang-v0.5.14/scripts/convert_otel_2_perfetto.py:58-70 | on a disjoint line, for any span, the two-neighbour check answers what a scan of all intervals for a clash would, and misses no overlap |
| SlotLines.ConflictIsClash | sglang-v0.5.14/scripts/convert_otel_2_perfetto.py:58-70 | a conflict is never reported without a clash, on any list |
| SlotLines.InsertKeepsSorted | sglang-v0.5.14/scripts/convert_otel_2_perfetto.py:72-73 | insertion keeps the list sorted, for any span |
| SlotLines.InsertedMembers | sglang-v0.5.14/scripts/convert_otel_2_perfetto.py:72-73 | insertion adds the span once and loses none |
| SlotLines.InsertKeepsDisjoint | sglang-v0.5.14/scripts/convert_otel_2_perfetto.py:72-73 | inserting a span that passed the check keeps the line disjoint |
| SlotLines.ZeroLengthSpanExact | sglang-v0.5.14/scripts/convert_otel_2_perfetto.py:58-99 | storing a span without duration leaves later checks sound iff no stored span starts before it and runs on for more than one tick |
| SlotLines.PassedSeparates | sglang-v0.5.14/scripts/convert_otel_2_perfetto.py:58-70 | also next to points that hide nothing, the check misses no overlap |
| SlotLines.PointStaysNearly | sglang-v0.5.14/scripts/convert_otel_2_perfetto.py:72-99 | storing a point that nothing covers with room hides nothing |
| SlotLayout.FoundLineIsFree | sglang-v0.5.14/scripts/convert_otel_2_perfetto.py:95-114 | except at a blind step an existing line is only chosen if nothing on it overlaps the span |
| SlotLayout.RunKeepsInv | sglang-v0.5.14/scripts/convert_otel_2_perfetto.py:278-309 | over any run lines are sorted and in use, hold exactly what was placed on them, and placements lie on lines 1..n |
| SlotLayout.RequestStays | sglang-v0.5.14/scripts/convert_otel_2_perfetto.py:96-102 | a span goes to the line of its request's last span in the process if it has no duration or the check there reports no conflict |
| SlotLayout.LowestFree | sglang-v0.5.14/scripts/convert_otel_2_perfetto.py:104-120 | otherwise to the lowest line whose check reports no conflict, or the next new one |
| SlotLayout.StatusExactly | sglang-v0.5.14/scripts/convert_otel_2_perfetto.py:96-119 | the line remembered for a process is that of the request's last placement there |
| SlotLayout.CollisionFreeExactly | sglang-v0.5.14/scripts/convert_otel_2_perfetto.py:95-120 | over any run of any spans, the spans of a process stay apart iff no step of it is blind |
| SlotLayout.NoPointsNoCollision | sglang-v0.5.14/scripts/convert_otel_2_perfetto.py:209-309 | without spans of no duration nothing collides, even if spans end before they start |
| SlotLayout.NeverHidingNoProperCollision | sglang-v0.5.14/scripts/convert_otel_2_perfetto.py:95-120 | over any run, spans of positive duration stay apart if no point is stored where a span running across it goes on for more than a tick |
| SlotLayout.NewLineHasRivals | sglang-v0.5.14/scripts/convert_otel_2_perfetto.py:111-120 | when a line is opened, every earlier line holds a span that clashes with the new one |
| SlotLayout.LinesWithinCrowd | sglang-v0.5.14/scripts/convert_otel_2_perfetto.py:269-293 | in any run a process has at most one line more than some span of it has earlier spans that clash with it |
| SlotLayout.RivalsOverlap | sglang-v0.5.14/scripts/convert_otel_2_perfetto.py:269-293 | for spans of positive duration to clash is to overlap |
| SlotLayout.LinesEqualDepth | sglang-v0.5.14/scripts/convert_otel_2_perfetto.py:295-309 | proper spans of a process placed in start order use as many lines as are open at the busiest moment, whatever other processes do |
| SlotLayout.StartOrderIsOptimal | sglang-v0.5.14/scripts/convert_otel_2_perfetto.py:295-309 | no layout of the same spans that is free of collisions in the process gives it fewer lines |
| SlotLayout.ZeroLengthCollision | sglang-v0.5.14/scripts/convert_otel_2_perfetto.py:96-102 | a span without duration puts two other spans that overlap on one line; without it they get two |
| SlotLayout.ZeroLengthHides | sglang-v0.5.14/scripts/convert_otel_2_perfetto.py:96-102 | in that run a step is blind and hides the running span |
| TraceLayout.SpanLayoutContainer.BisectStart | sglang-v0.5.14/scripts/convert_otel_2_perfetto.py:59 | the binary search finds how many intervals start before the span |
| TraceLayout.SpanLayoutContainer.CheckOverlap | sglang-v0.5.14/scripts/convert_otel_2_perfetto.py:58-70 | the check, for any sorted list and any span |
| TraceLayout.SpanLayoutContainer.InsertSpan | sglang-v0.5.14/scripts/convert_otel_2_perfetto.py:72-73 | the list afterwards, still sorted |
| TraceLayout.NewLineIsFree | sglang-v0.5.14/scripts/convert_otel_2_perfetto.py:116-119 | a new line number never collides: keys stay exactly 1..n and no container serves twice |
| TraceLayout.SlotGraph.OpenLine | sglang-v0.5.14/scripts/convert_otel_2_perfetto.py:104-119 | the next line number gets an empty container and nothing else changes |
| TraceLayout.SlotGraph.SearchLines | sglang-v0.5.14/scripts/convert_otel_2_perfetto.py:111-114 | the first line without conflict in the order of opening |
| TraceLayout.SlotGraph.FindLine | sglang-v0.5.14/scripts/convert_otel_2_perfetto.py:95-120 | the line of the state machine, the status and the graph afterwards |
| TraceLayout.SlotGraph.Place | sglang-v0.5.14/scripts/convert_otel_2_perfetto.py:281-293 | one round of the loop makes one step of the state machine |
| TraceLayout.PlaceAll | sglang-v0.5.14/scripts/convert_otel_2_perfetto.py:279-293 | a request's spans are placed in order with a fresh status and each carries its line |
| TraceLayout.StepsOfAll | sglang-v0.5.14/scripts/convert_otel_2_perfetto.py:279-309 | the steps in full: for each request a fresh start and its spans in order with their processes and times |
| TraceLayout.SortRequests | sglang-v0.5.14/scripts/convert_otel_2_perfetto.py:270-277 | fails iff some request has no spans; otherwise every request's spans stably by start, and the requests stably by the start of their first span |
| Sorting.SortedBy | sglang-v0.5.14/scripts/convert_otel_2_perfetto.py:270-277 | a permutation in key order that keeps the old order of equal keys |
| TraceLayout.DrawnApartExactly | sglang-v0.5.14/scripts/convert_otel_2_perfetto.py:278-309 | the spans of the trace are drawn apart iff no step is blind, and so if none has zero duration |
| TraceLayout.ProperApart | sglang-v0.5.14/scripts/convert_otel_2_perfetto.py:278-309 | spans of positive duration are drawn apart if no step hides a running span |
| TraceLayout.GeneratePerfettoSpanLayout | sglang-v0.5.14/scripts/convert_otel_2_perfetto.py:269-309 | the run made is that of the sorted requests and then the sorted gateway spans; spans are apart iff no step is blind, proper ones if no step hides; proper gateway spans get the fewest lines possible |
| PartitionSignatures.InputsComeFromBefore | vllm-v0.17.1/vllm/env_override.py:237-277 | an input with a node existed before the partition, is not produced in it and has not been freed |
| PartitionSignatures.ReturnedAreReal | vllm-v0.17.1/vllm/env_override.py:283-293 | what is returned, by real name: the unmet names produced here and the inputs not freed here |
| PartitionSignatures.InputsExactly | vllm-v0.17.1/vllm/env_override.py:230-277 | the inputs are the buffers some node works on or is the last to use, except those produced here |
| PartitionSignatures.OutputsExactly | vllm-v0.17.1/vllm/env_override.py:279-299 | the outputs are what is produced here and needed later, and the inputs not freed, if they have a layout |
| PartitionSignatures.DeallocationExactly | vllm-v0.17.1/vllm/env_override.py:270-277 | every input is marked for deallocation iff some node here is the last to use it |
| PartitionSignatures.UnmetStep | vllm-v0.17.1/vllm/env_override.py:318-320 | subtracting the returned names amounts to subtracting the produced ones |
| PartitionSignatures.UnmetExactly | vllm-v0.17.1/vllm/env_override.py:221-320 | a name is unmet before partition k iff a later partition takes it as input or it is a graph output, and nothing produces it on the way |
| PartitionSignatures.UnmetIsLive | vllm-v0.17.1/vllm/env_override.py:318-320 | unmet names are real names, exist already and have not been freed |
| PartitionSignatures.OnlyInputsAtStart | vllm-v0.17.1/vllm/env_override.py:198-320 | in the end only graph inputs are unmet |
| PartitionSignatures.EveryPartitionRuns | vllm-v0.17.1/vllm/env_override.py:254-299 | called with its declared inputs a partition finds every buffer and can return every output |
| PartitionSignatures.NoneInputExactly | vllm-v0.17.1/vllm/env_override.py:201-266 | a buffer without layout becomes an input iff the partition frees one produced elsewhere |
| PartitionSignatures.CallerHoldsUnmet | vllm-v0.17.1/vllm/env_override.py:279-289 | what later partitions still need is returned or kept, never deallocated |
| PartitionSignatures.ReleasedIsGone | vllm-v0.17.1/vllm/env_override.py:254-277 | what is past its last use is no longer held by the caller |
| PartitionSignatures.RunsExactlyWhen | vllm-v0.17.1/vllm/env_override.py:187-322 | the program runs with the computed signatures and ends with all outputs iff no partition frees a foreign buffer without layout |
| PartitionSignatures.TokenProgramFails | vllm-v0.17.1/vllm/env_override.py:258-266 | a well-formed program whose signatures cannot be honoured |
| PartitionSignatures.SignPartition | vllm-v0.17.1/vllm/env_override.py:224-320 | one round of the reverse loop |
| PartitionSignatures.GetGraphPartitionSignature | vllm-v0.17.1/vllm/env_override.py:184-322 | the signatures of all partitions, with which the program runs under the exact condition |
| MemoryPlan.TrimmedExactly | vllm-v0.17.1/vllm/env_override.py:152-158 | only planning lines not naming outputs are trimmed, and all of them at the end |
| MemoryPlan.TrimmingKeepsOutcome | vllm-v0.17.1/vllm/env_override.py:152-172 | trimming never changes how the second pass ends |
| MemoryPlan.SharedStateExactly | vllm-v0.17.1/vllm/env_override.py:161-170 | two lines share a planning state iff they stand in the same subgraph instance |
| MemoryPlan.PythonWrapperCodegen.PlanLines | vllm-v0.17.1/vllm/env_override.py:160-172 | which lines pass, which fail and how; every planning line is planned once with the state of its subgraph, all others stay |
| MemoryPlan.PythonWrapperCodegen.MemoryPlanReuse | vllm-v0.17.1/vllm/env_override.py:116-172 | both passes together, the outcome in terms of the untrimmed lines |
| MemoryPlan.BalancedExactly | vllm-v0.17.1/vllm/env_override.py:163-172 | lines are balanced iff the final assertion accepts them and no exit leaves the program itself |
| MemoryPlan.UnbalancedAccepted | vllm-v0.17.1/vllm/env_override.py:169-172 | an exit before an enter passes too and is not balanced |
| ChunkPlan.GetMemcreateChunkSize | vllm-v0.17.1/csrc/cumem_allocator.cpp:24-42 | the configured size iff it is positive and its bytes fit 64 bits, else the default; a positive whole number of MB for any environment |
| ChunkPlan.AlignUpExactly | vllm-v0.17.1/csrc/cumem_allocator.cpp:343-344 | aligning gives the next multiple while the sum fits 64 bits and 0 beyond |
| ChunkPlan.PlanTiles | vllm-v0.17.1/csrc/cumem_allocator.cpp:345-367 | the chunks add up to the aligned size, are positive multiples of the granularity, and all but the last are full |
| ChunkPlan.RangesDisjoint | vllm-v0.17.1/csrc/cumem_allocator.cpp:158-176 | the mapped ranges are consecutive and disjoint inside the reservation |
| ChunkPlan.PlanCollapses | vllm-v0.17.1/csrc/cumem_allocator.cpp:345-346 | if the rounding sum does not fit, no chunk is planned |
| ChunkPlan.NothingPlanned | vllm-v0.17.1/csrc/cumem_allocator.cpp:317-346 | size 0 is aligned to 0 and gets no chunk |
| ChunkPlan.PlanSoundExactly | vllm-v0.17.1/csrc/cumem_allocator.cpp:317-367 | the plan is sound iff two sums fit 64 bits |
| ChunkPlan.ConfiguredPlansCollapse | vllm-v0.17.1/csrc/cumem_allocator.cpp:24-42 | two configurations near 2^64: one gives chunk size 0, the other an empty plan |
| ChunkPlan.FillChunkSizes | vllm-v0.17.1/csrc/cumem_allocator.cpp:350-367 | the array filled by the loop |
| CumemAllocator.ChunksTileReservation | vllm-v0.17.1/csrc/cumem_allocator.cpp:158-176 | every byte of the reservation is in exactly one mapped chunk |
| CumemAllocator.ReleaseFirst | vllm-v0.17.1/csrc/cumem_allocator.cpp:151-173 | which calls are made; the handles are gone iff every release succeeded |
| CumemAllocator.UnmapFirst | vllm-v0.17.1/csrc/cumem_allocator.cpp:163-169 | which calls are made; the mappings are gone iff every unmap succeeded |
| CumemAllocator.Allocator.CreateHandles | vllm-v0.17.1/csrc/cumem_allocator.cpp:148-157 | the creations made up to the first failure, the error code it leaves, and one new handle per chunk, an undone start, or the leak of a stale code |
| CumemAllocator.Allocator.MapChunks | vllm-v0.17.1/csrc/cumem_allocator.cpp:158-177 | the mappings made up to the first failure; every chunk mapped at its address, or handles and mappings restored iff every undo call succeeded |
| CumemAllocator.Allocator.CreateAndMap | vllm-v0.17.1/csrc/cumem_allocator.cpp:95-191 | the exact driver calls, the error code as the first failing status, and what each ending leaves on the device |
| CumemAllocator.ErrorOfParts | vllm-v0.17.1/csrc/cumem_allocator.cpp:148-184 | the code is that of the first failing kind of call: create, map, access |
| CumemAllocator.CallsName | vllm-v0.17.1/csrc/cumem_allocator.cpp:148-184 | what each driver call names: chunk sizes, chunk addresses, handles of the cells, and the whole range for access |
| CumemAllocator.CallsInOrder | vllm-v0.17.1/csrc/cumem_allocator.cpp:148-184 | creations, mappings, unmappings, releases and the access call come in this order |
| CumemAllocator.CallsNameResident | vllm-v0.17.1/csrc/cumem_allocator.cpp:214-231 | each unmapping of a resident allocation names the address and the size mapped there, each release the handle mapped there |
| CumemAllocator.Allocator.UnmapAll | vllm-v0.17.1/csrc/cumem_allocator.cpp:214-224 | every chunk is unmapped once whatever fails |
| CumemAllocator.Allocator.ReleaseAll | vllm-v0.17.1/csrc/cumem_allocator.cpp:226-231 | every handle is released once whatever fails |
| CumemAllocator.Allocator.UnmapAndRelease | vllm-v0.17.1/csrc/cumem_allocator.cpp:193-237 | the calls made, the error reported, and the device without the allocation iff nothing failed |
| CumemAllocator.FirstErrorExactly | vllm-v0.17.1/csrc/cumem_allocator.cpp:215-235 | the reported error is that of the first failing call |
| PyArgs.CreateTupleFromCMixed | vllm-v0.17.1/csrc/cumem_allocator.cpp:263-291 | the tuple for an allocation |
| PyArgs.EncodedPlaces | vllm-v0.17.1/csrc/cumem_allocator.cpp:263-291 | device, size, address and the list of pairs are at places 0 to 3 of the tuple |
| PyArgs.PairExactly | vllm-v0.17.1/csrc/cumem_allocator.cpp:596-628 | a list item is accepted iff it is a pair of integers that fit 64 bits |
| PyArgs.ParseArgs | vllm-v0.17.1/csrc/cumem_allocator.cpp:564-644 | exactly the well-formed arguments are accepted, what they parse to, and which error the others raise |
| PyArgs.RoundTrip | vllm-v0.17.1/csrc/cumem_allocator.cpp:263-291 | an encoded allocation parses to itself and to nothing else |
| PyArgs.Survives | vllm-v0.17.1/csrc/cumem_allocator.cpp:564-644 | encoding and parsing give the allocation back |
| CumemExtension.AllocateCells | vllm-v0.17.1/csrc/cumem_allocator.cpp:352-363 | one cell per chunk iff the heap has enough, and otherwise none |
| CumemExtension.Extension.TellPython | vllm-v0.17.1/csrc/cumem_allocator.cpp:346-402 | the tuple Python gets, and the cells that stay allocated when the callback does not accept it |
| CumemExtension.Extension.MapReserved | vllm-v0.17.1/csrc/cumem_allocator.cpp:404-422 | the end of an allocation: mapped, or range and cells given back |
| CumemExtension.Extension.MyMalloc | vllm-v0.17.1/csrc/cumem_allocator.cpp:297-425 | a pointer iff no error is left, the callback accepts, cells suffice and the chunk size is not 0; it is the newly reserved address where the chunks are resident and which the tuple names; calls, code, device and heap for every ending |
| CumemExtension.CodeExactly | vllm-v0.17.1/csrc/cumem_allocator.cpp:300-422 | the error code is that of the last checked call that failed, or the earlier one |
| CumemExtension.MallocCallsName | vllm-v0.17.1/csrc/cumem_allocator.cpp:320-411 | the range reserved, made accessible and given back is the same |
| CumemExtension.MissingCallbackOrphans | vllm-v0.17.1/csrc/cumem_allocator.cpp:371-374 | an input for which a null result keeps the address range |
| CumemExtension.ReadyToSleep | vllm-v0.17.1/csrc/cumem_allocator.cpp:380-425 | after success the tuple and the heap satisfy what sleeping demands |
| CumemExtension.Extension.PythonUnmapAndRelease | vllm-v0.17.1/csrc/cumem_allocator.cpp:564-652 | malformed arguments change nothing; otherwise the named chunks are unmapped and released, any error is reported and cleared |
| CumemExtension.Extension.PythonCreateAndMap | vllm-v0.17.1/csrc/cumem_allocator.cpp:656-727 | the named chunks are created and mapped or, on failure, undone as far as the driver allows; any error is reported and cleared; no other cell changes |
| SleepMode.HoldsSplit | vllm-v0.17.1/csrc/cumem_allocator.cpp:208-232 | the keys of one allocation can be taken away leaving those of the others |
| SleepMode.CuMemAllocator.FirstOfHeld | vllm-v0.17.1/vllm/device_allocator/cumem.py:199-214 | of several resident allocations the first can be taken away alone, and the rest stays resident |
| SleepMode.CuMemAllocator.OneMoreHeld | vllm-v0.17.1/vllm/device_allocator/cumem.py:238-241 | an allocation made resident on top of others is resident together with them |
| SleepMode.CuMemAllocator.SleepOne | vllm-v0.17.1/vllm/device_allocator/cumem.py:199-214 | one allocation put to sleep on its stored tuple, with its calls and the device afterwards |
| SleepMode.CuMemAllocator.Sleep | vllm-v0.17.1/vllm/device_allocator/cumem.py:178-214 | all allocations in order up to the first error; without one the device is as before all of them |
| SleepMode.CuMemAllocator.WakeOne | vllm-v0.17.1/vllm/device_allocator/cumem.py:238-241 | one allocation woken up, with its calls; on failure the device is as before unless undoing failed, and the cells of the others are untouched |
| SleepMode.CuMemAllocator.WakeUp | vllm-v0.17.1/vllm/device_allocator/cumem.py:228-241 | all allocations in order up to the first error; without one all of them are resident again |
| SleepMode.CuMemAllocator.SleepAndWake | vllm-v0.17.1/vllm/device_allocator/cumem.py:178-250 | the whole history of any number of rounds: its calls are the log, sleeps restore the device, wake-ups map the same addresses and sizes, and only an error ends it early |
| BadWords.InvalidIdsExactly | vllm-v0.17.1/vllm/logits_process.py:106-121 | the error is raised iff some id is outside the vocabulary |
| BadWords.InvalidIdsConcat | vllm-v0.17.1/vllm/logits_process.py:106-112 | the ids are listed word by word |
| BadWords.InvalidInConcat | vllm-v0.17.1/vllm/logits_process.py:106-112 | and within a word token by token |
| BadWords.InvalidOfOne | vllm-v0.17.1/vllm/logits_process.py:106-112 | a token is listed iff it is outside the vocabulary |
| BadWords.NoBadWordsLogitsProcessor.CheckTokenIdsBounds | vllm-v0.17.1/vllm/logits_process.py:106-112 | the invalid ids in order |
| BadWords.NoBadWordsLogitsProcessor.InitWordBias | vllm-v0.17.1/vllm/logits_process.py:89-104 | the bias is -inf exactly at one-token words; nothing is cached on error |
| BadWords.NoBadWordsLogitsProcessor.LastTokenBias | vllm-v0.17.1/vllm/logits_process.py:64-83 | -inf exactly where a longer word would be completed; fails iff a word the loop reaches has no last token or one outside the logits |
| BadWords.NoBadWordsLogitsProcessor.Call | vllm-v0.17.1/vllm/logits_process.py:56-87 | the error of every call, also with logits of another size; with the cached size a logit becomes -inf iff its token completes a bad word and all others are unchanged |
| BadWords.BannedIsEnding | vllm-v0.17.1/vllm/logits_process.py:66-83 | a token is forbidden iff a bad word would end with it |
| BadWords.NoBadWordGenerated | vllm-v0.17.1/vllm/logits_process.py:56-87 | over any run no bad word ends in the generated part |
| BadWords.SampledExactly | vllm-v0.17.1/vllm/logits_process.py:56-87 | the sequences that can be sampled are exactly those the raw logits allow and in whose generated part no bad word ends |
| ProgramRouter.BackendState.PausingHelps | scheduler/ThunderAgent/scheduler/router.py:1334-1340 | every pause frees at least the buffer |
| ProgramRouter.BackendState.EmptyBackend | scheduler/ThunderAgent/backend/state.py:191-200 | an empty backend without shared tokens has its whole capacity left |
| ProgramRouter.BackendState.SharedTokensHelp | scheduler/ThunderAgent/backend/state.py:191-200 | every further shared token leaves one token more |
| ProgramRouter.BackendState.ReasoningTakes | scheduler/ThunderAgent/backend/state.py:191-200 | a further reasoning program takes its tokens and the buffer, which is what resuming requires for it |
| ProgramRouter.BackendState.ActingTakes | scheduler/ThunderAgent/backend/state.py:119-122 | at coefficient 1 a further acting program takes as much; alone it takes the rounded product and the buffer |
| ProgramRouter.BackendState.PauseUntilSafe | scheduler/ThunderAgent/scheduler/router.py:1326-1358 | pauses as few acting programs as needed, smallest first, if the reasoning programs fit; otherwise pauses all and marks all; every mark was needed iff the programs without the largest do not cover the overflow |
| ProgramRouter.NeededExactly | scheduler/ThunderAgent/backend/state.py:171-189 | marks made smallest first were all needed iff the last one was |
| ProgramRouter.MarksMoreThanNeeded | scheduler/ThunderAgent/scheduler/router.py:1345-1353 | an input where a second program is marked although the first mark covers the overflow |
| ProgramRouter.SelectedFrom | scheduler/ThunderAgent/scheduler/router.py:1409-1418 | the selection takes candidates, each at most once |
| ProgramRouter.CollectCaps | scheduler/ThunderAgent/scheduler/router.py:1384-1395 | the list holds exactly the usable backends with more room than the buffer |
| ProgramRouter.HeadIsRoomiest | scheduler/ThunderAgent/scheduler/router.py:1423-1447 | the head of the sorted list has the most room of all usable backends, listed or not |
| ProgramRouter.StaysWellPlaced | scheduler/ThunderAgent/scheduler/router.py:1446-1468 | a placement on the head keeps every load within its offer and goes to the best backend |
| ProgramRouter.EverythingSettled | scheduler/ThunderAgent/scheduler/router.py:1434-1443 | stopping early loses no selected program that fits somewhere |
| ProgramRouter.GreedyResume | scheduler/ThunderAgent/scheduler/router.py:1360-1476 | only selected programs are placed, no backend is overloaded, each program goes to the roomiest one, none twice, and every selected program not placed fits no usable backend |
| ResumeSelection.SelectionMaximal | scheduler/ThunderAgent/scheduler/router.py:1408-1418 | a candidate left out exceeds what the selection leaves of the total |
| ResumeSelection.SelectedExactly | scheduler/ThunderAgent/scheduler/router.py:1408-1418 | in order of priority a candidate is selected iff it fits what the selected ones before it leave |
| ResumeSelection.TotalConcat | scheduler/ThunderAgent/scheduler/router.py:1384-1395 | the total adds up over the backends |
| ResumeSelection.LoadConcat | scheduler/ThunderAgent/scheduler/router.py:1446-1468 | the load adds up over the placements |
| ResumeSelection.SingleAmounts | scheduler/ThunderAgent/scheduler/router.py:1384-1417 | what one backend offers, one placement loads and one program needs |
| ResumeSelection.SelectedWithin | scheduler/ThunderAgent/scheduler/router.py:1408-1418 | the selection stays within the total |
| ResumeSelection.AllSelectedExactly | scheduler/ThunderAgent/scheduler/router.py:1408-1418 | everything is selected iff all candidates together fit the total |
| ResumeSelection.SmallListLeavesNone | scheduler/ThunderAgent/scheduler/router.py:1360-1476 | if all candidates together fit the total, every one is placed or fits nowhere |
| ResumeSelection.OneRoomyLeavesNone | scheduler/ThunderAgent/scheduler/router.py:1360-1476 | with at most one backend with room, every candidate is placed or fits nowhere |
| ResumeSelection.TwoRoomyLeave | scheduler/ThunderAgent/scheduler/router.py:1360-1476 | with two, a program as large as the total keeps a tiny one from being tried, and nothing is resumed |
| ResumeSelection.NoneLeftExactly | scheduler/ThunderAgent/scheduler/router.py:1360-1476 | for given offers no candidate list leaves a fitting program waiting iff at most one usable backend has more room than the buffer |
| ResumeSelection.FittingProgramNotTried | scheduler/ThunderAgent/scheduler/router.py:1360-1476 | the resume step at such an input |

## Left out

- Floating-point rounding: times and logits are exact reals; NaN and +inf logits do not occur.
- BuildReport.SummarizeEntries: grouping by extension and all printing; the division by the length is kept as an error.
- NinjaLog.ReadTargets: splitting lines and parsing numbers; a line arrives as corrupt or as its five fields.
- TraceLayout.GeneratePerfettoSpanLayout: child spans, which inherit the line of their parent, and the slot metadata records.
- The span tree, conversion to microseconds, link events, metadata, torch-file merging and gathering of the trace converter.
- PartitionSignatures.GetGraphPartitionSignature: the order of inputs and outputs (sets here), symbol inputs, constants and cudagraph flags.
- PartitionGraph.NameToNode: the mapping is taken to hold the graph inputs and every produced name; how the caller builds it is not modelled.
- PartitionGraph.WellFormed: graph outputs are real, allocated names and mutation names are resolved; the scheduler that guarantees it is not part of this repository.
- MemoryPlan.PythonWrapperCodegen.PlanLines: what planning a line does to its state; a planned line only records the state it was given.
- CumemExtension.Extension.MyMalloc: context setup, the lock of the Python interpreter, failures to allocate the two chunk arrays and their release, and the width of the int loop counters; the tiling of the plan is stated for positive sizes.
- CumemDriver.Driver: reservations and mappings are identified by their start address; a successful map of an overlapping range is not excluded, and refusing one is among the failures.
- CumemExtension.Extension.PythonCreateAndMap: stated for lists of pairs of C values with different cell addresses only; the code makes no item checks. my_free, which also takes the size from its caller, is not modelled.
- The non-ROCm branches of the allocator.
- BadWords.NoBadWordsLogitsProcessor.Call: one-dimensional logits; building the word lists with a tokenizer.
- ProgramRouter.BackendState.PauseUntilSafe: metrics, waiting events and the queue of paused programs; the programs of a backend are kept in two lists by status.
- SleepMode.CuMemAllocator.Sleep: tags, copying the contents to and from the CPU, and allocations made or freed between the rounds.
- ProgramRouter.GreedyResume: the orders of priority, the decay of acting tokens, and the bookkeeping of a resumed program; capacities and ordered candidates are its arguments.
- The other parts of the scheduler package: routing of requests, speculative decoding, prediction and metrics.
- The wheel-index, CI and benchmark scripts.
