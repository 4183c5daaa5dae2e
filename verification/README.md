# A verified model of PAPI's counter allocation, overflow handling and run state

PAPI gives programs one interface to hardware performance counters.  This project models the parts
of it that carry real algorithms and shared state, in Dafny, and proves what they promise:

- **Counter allocation.** `BipartiteAlloc` is the unit propagation and backtracking search that
  gives each event a private counter, proved to decide the matching exactly and to return the
  lexicographically least one (`Assignments` is the theory it rests on).
- **The cpu list.** `CpuRing` is the circular list of reference-counted cpu records as heap code,
  proved to refine a ring (`Rings`); `CpuThreads` is the same protocol as interleaved steps of many
  threads under a test-and-set lock, with its safety over every schedule, and its progress.
- **Overflow and profiling.** `OverflowTables` says what `PAPI_overflow` and `PAPI_sprofil` do to
  their two families of tables and when the tables stay in lock step; `EventSets` is the code over
  parallel arrays.  `Dispatch` and `OverflowSignal` are the signal handler, `FirstSet` the
  repository's `ffsll`, `EventIndex` the way back from an overflow vector to event indexes, and
  `Histogram` the arithmetic from a sampled address to a region and a bucket; `ProfileRuns` joins
  signals and histograms over whole runs.
- **POWER counter groups.** `PowerTables` and `PowerChoice` relate the event tables and group bits
  to the vendor's lists; `PowerGroups` is the code from table setup to register allocation.
- **Native event codes.** `NativeCode` packs and unpacks event numbers and unit masks, `NativeEnum`
  enumerates them.
- **Run state.** `RunState` and `StartStop` are `PAPI_start` and `PAPI_stop`; `Accumulate` is
  `PAPI_accum` and `PAPI_reset`.

`Words` holds C's bit operators on natural numbers, `Counting` a little set theory, `PapiCodes`
constants and shared records.

Code that changes things in place is modelled by classes and arrays whose methods are proved equal
to a specification function; the theorems are lemmas about that function.

Where a promise fails, an if-and-only-if says when it holds, mostly next to a lemma with an input
that breaks it: `StaysInStep` and `MixedRunStaysInStep` (tables out of step), `SamplesExactly` and
`TableSamplesExactly` (overflow samples that get lost or go to another event), `OnlyRegionIsCounted`
and `RunsCountRegionOnly` (samples from outside a region), `RegionFound` (samples in another region),
`WritesFitExactly` (a last bucket that the buffer holds only in part), `ScaleTwoIsOneBucket` (a scale
that gives more than the one bucket documented), `ListRoundTrip` (a unit mask index that is admitted
but does not fit), `EventsEndExactly` (an enumeration that never ends), and `AccumConserves` and
`RunConserves` (counts taken twice when a reset fails).

Check it with `dafny verify dfyconfig.toml`.

## Model

| member | source | states |
|---|---|---|
| `BipartiteAlloc.BipartiteAlloc` | src/papi_bipartite.h:59-188 | Returns 1 exactly when the original sets admit pairwise distinct counters; then each event is left with its counter in the least such choice. Events beyond count are untouched, and the recursion terminates. |
| `BipartiteAlloc.AllocatedMeans` | src/papi_bipartite.h:59-188 | A successful result is unique: singletons inside the original sets, pairwise disjoint. |
| `BipartiteAlloc.Propagate` | src/papi_bipartite.h:71-109 | Propagation keeps the set of valid assignments, fails only when it is empty, queues no event twice, and leaves no dequeued event's counter in another event's set. |
| `BipartiteAlloc.BuildQueue` | src/papi_bipartite.h:71-77 | The queue starts with exactly the events that have one counter, each once. |
| `BipartiteAlloc.ScanHead` | src/papi_bipartite.h:84-106 | One scan takes the head's counter from every other event, loses no assignment, queues the events that come down to one counter, or proves that no assignment exists. |
| `BipartiteAlloc.ChooseFirst` | src/papi_bipartite.h:149-160 | The tentative choice confines the first event to the counter and takes it from all others, ranks included. |
| `BipartiteAlloc.TryCounters` | src/papi_bipartite.h:145-171 | The search stops at the smallest counter that extends to a full assignment, and runs out only if there is none; every retry starts from the same list. |
| `BipartiteAlloc.MergeBack` | src/papi_bipartite.h:177-183 | The mapping of the remaining events goes back to the events it was copied from, in order, and to no other. |
| `BipartiteAlloc.PreemptStep` | src/components/perfctr/perfctr-x86.c:342-403 | Taking a decided event's counter from another event keeps what propagation has achieved so far. |
| `BipartiteAlloc.MergedIsAllocated` | src/papi_bipartite.h:133-186 | Forced events together with a least assignment of the others are a least assignment of all. |
| `Assignments.StrikeKeeps` | src/papi_bipartite.h:94-103 | Removing a decided event's counter from another event changes no assignment. |
| `Assignments.ClashInfeasible` | src/papi_bipartite.h:90-93 | Two events confined to the same counter admit no assignment. |
| `Assignments.LeastChoice` | src/papi_bipartite.h:145-165 | If no assignment gives the first event a smaller counter, a least assignment after the choice is a least assignment before it. |
| `CpuRing.CpuList.LookupCpu` | src/cpus.c:28-56 | Finds a number if and only if it is listed, rotates the ring to it, changes nothing otherwise, and terminates. |
| `CpuRing.CpuList.InsertCpu` | src/cpus.c:242-269 | Turns a ring [h] + r into [e] + r + [h], for zero, one and more nodes. |
| `CpuRing.CpuList.RemoveCpu` | src/cpus.c:144-186 | Deletes exactly the entry and moves the head only if the entry was the head; the search terminates. |
| `CpuRing.SearchEndsIfListed` | src/cpus.c:157-160 | The search of remove_cpu reaches its entry if and only if the entry is listed. |
| `Rings.RotatedAt` | src/cpus.c:48-50 | Once the head has moved, the order round the ring is as before. |
| `Rings.InsertedAt` | src/cpus.c:251-268 | After an insertion the new element is first and the old head last; the others keep their order. |
| `Rings.WithoutAt` | src/cpus.c:170-182 | After a removal the others keep their order. |
| `CpuRing.CpuList.LookupOrCreateCpu` | src/cpus.c:58-83 | The record returned is for the cpu asked for, old if it was listed and new otherwise, with one more user; no two records have one number. |
| `CpuRing.CpuList.InitializeCpu` | src/cpus.c:274-305 | A new record without users becomes the head of the ring. |
| `CpuRing.CpuList.FreeCpu` | src/cpus.c:189-209 | One user less; the record leaves the ring if and only if it was the last. |
| `CpuThreads.StepKeeps` | src/cpus.c:58-239 | Every step of every thread, in any order, keeps the invariant of lock, ring and user counts, and follows pointers to live nodes only. |
| `CpuThreads.RunIsSafe` | src/linux-lock.h:36-37 | Over every schedule at most one thread is inside the lock, it is set if and only if some thread is, and no step follows a pointer to a node that was freed or never allocated. |
| `CpuThreads.UsersAreHandles` | src/cpus.c:58-83 | While the lock is free a node is listed if and only if it has users, and its users are the outstanding handles. |
| `CpuThreads.FreedOnceAndLast` | src/cpus.c:197-239 | No node is freed twice, and one being freed or already freed is unlisted and out of every other thread's reach. |
| `CpuThreads.OneNodePerCpu` | src/cpus.c:58-83 | Threads that hold handles for the same cpu number hold the same node. |
| `CpuThreads.HandleIsForCpu` | src/cpus.c:58-83 | A thread that comes back from an acquisition holds a live node for the number it asked for. |
| `CpuThreads.NothingLeaks` | src/cpus.c:189-239 | When all threads are done and hold nothing, every node ever made has been freed exactly once. |
| `CpuThreads.FreeLockIsTaken` | src/linux-lock.h:36-36 | A thread that tries a free lock gets it at once. |
| `CpuThreads.AcquireCompletes` | src/cpus.c:58-83 | From any reachable state with the lock free, an acquisition left to itself is over within seven steps: the lock is free again, the caller has one more handle, for a live node of the number it asked for, which is the listed one if there was one and otherwise new, and nothing else has changed but the order of the ring. |
| `CpuThreads.ReleaseCompletes` | src/cpus.c:189-239 | A release left to itself is over within seven steps: the node has one user less, or, if that was the last, is unlisted and freed once; nothing else has changed. |
| `CpuThreads.HolderGivesUp` | src/linux-lock.h:36-37 | Whatever the other threads do, a thread inside the lock has given it up by the time it has moved five times. |
| `CpuThreads.WaitingCanEnter` | src/linux-lock.h:36-37 | There is no deadlock: from any reachable state some six steps take a waiting thread inside the lock. |
| `OverflowTables.StaysInStep` | src/papi.c:5693-5815 | On a component without kernel profiling whose set_overflow accepts, one PAPI_sprofil call keeps both tables in lock step if and only if it is not refused, for its flags or for mixing forced software with hardware overflow, after an edit that shows. |
| `OverflowTables.RunStaysInStep` | src/papi.c:5603-5818 | With neither kernel profiling nor hardware interrupts, any run of calls whose flags pass, succeeding or not, keeps both tables at the same distinct codes, event indexes and thresholds in the same order, with PROFILING, OVERFLOWING and a non-empty table equivalent. |
| `OverflowTables.OverflowStaysInStep` | src/papi.c:5414-5502 | A PAPI_overflow call for a profiling set keeps its tables in lock step if and only if it is refused, or neither removes nor adds an entry, changes no threshold, and does not force software overflow where profiling did not. |
| `OverflowTables.MixedRunStaysInStep` | src/papi.c:5347-5818 | Over any run of both calls, without kernel profiling, the tables are in lock step after every call if and only if no call shows in one table only. |
| `OverflowTables.UniformFlagsPass` | src/papi.c:5751-5785 | Calls that always use the same valid flags pass. |
| `OverflowTables.FreshInStep` | src/papi.c:5603-5818 | A set nothing has been registered on is in lock step. |
| `OverflowTables.RunKeepsCap` | src/papi.c:5414-5416 | Over any run of PAPI_overflow and PAPI_sprofil calls neither table gets more entries than the component has counters. |
| `OverflowTables.ProfilKeepsRegions` | src/papi.c:5655-5747 | A PAPI_sprofil call leaves every profile with a region if and only if it does not register one without. |
| `OverflowTables.RunKeepsRegions` | src/papi.c:5655-5747 | Over any run of calls in which profiles are registered with regions, every profile has one, so the handler always has a region to choose. |
| `OverflowTables.NoRegionsAreAccepted` | src/papi.c:5654-5657 | A concrete call that registers a profile without regions is accepted. |
| `OverflowTables.OverflowLeaves` | src/papi.c:5418-5469 | After an accepted PAPI_overflow the code has an entry for its event with the threshold and a first deadline of one threshold, or none if the threshold is 0; every other code, and everything after a refused call, is as it was. |
| `OverflowTables.ProfilLeaves` | src/papi.c:5693-5747 | After a PAPI_sprofil whose first checks pass, the code has an entry with the threshold and all of the regions of the call, or none if the threshold is 0; every other code, and everything after a refused call, is as it was. |
| `OverflowTables.RunLeavesProfiles` | src/papi.c:5347-5818 | Over any run of both calls, a code has the regions and the threshold of the last call that changed its entry, and no entry if that removed it or there is none. |
| `OverflowTables.OverflowAccepts` | src/papi.c:5365-5447 | The exact condition for PAPI_overflow to go ahead. |
| `OverflowTables.OverflowRefuses` | src/papi.c:5365-5447 | Which error comes back otherwise; nothing has changed. |
| `OverflowTables.OverflowSwitches` | src/papi.c:5471-5502 | After a call that goes ahead: the handler in force is the one of the call, OVERFLOWING is set, in hardware exactly where the component interrupts and nothing forces software, or all is cleared with the last entry. |
| `OverflowTables.ProfilAccepts` | src/papi.c:5619-5730 | The exact condition for PAPI_sprofil to edit its table. |
| `OverflowTables.ProfilRefuses` | src/papi.c:5619-5730 | Which error comes back otherwise; nothing has changed. |
| `OverflowTables.ProfilSwitches` | src/papi.c:5751-5815 | After the edit: flags that are not acceptable leave state and overflow table alone; otherwise the call succeeds exactly if the request for overflow does, and leaves its flags and PROFILING set, or both cleared with the last entry. |
| `OverflowTables.ProfilAsks` | src/papi.c:5789-5806 | That request is the kernel profiling of the component where it has any and software is not forced, else PAPI_overflow with the same code and threshold. |
| `OverflowTables.FlagsOkMeans` | src/papi.c:5751-5785 | Acceptable flags name no unknown bit and at most one bucket size; without one the size is 16 bits. |
| `OverflowTables.RemovalWithOtherBucketDesyncs` | src/papi.c:5751-5785 | A concrete removal with another bucket size is refused too late and leaves the tables out of step. |
| `OverflowTables.ForcedSoftwareAfterHardwareDesyncs` | src/papi.c:5440-5447 | From a set nothing has been registered on, on a component with hardware interrupts: registering two events, removing one with the forced-software flag and adding it again leaves the tables out of step. |
| `EventSets.EventSet.Overflow` | src/papi.c:5347-5505 | Over the in-place arrays the call returns and leaves exactly what the specification says, error paths included. |
| `EventSets.EventSet.Sprofil` | src/papi.c:5603-5818 | The same for PAPI_sprofil, with the nested PAPI_overflow call. |
| `EventSets.OverflowInfo.Remove` | src/papi.c:5426-5438 | Compaction deletes one entry from all four arrays and keeps the order of the rest. |
| `EventSets.ProfileInfo.Remove` | src/papi.c:5705-5719 | The same for the profile arrays. |
| `EventSets.OverflowInfo.Edit` | src/papi.c:5418-5469 | Accepted edits change exactly one entry; refused ones change nothing. |
| `EventSets.ProfileInfo.Edit` | src/papi.c:5693-5747 | Accepted edits change exactly one entry; refused ones change nothing. |
| `Dispatch.FiredBits` | src/extras.c:276-293 | If the first counters of the fired entries differ, no two bits cancel and the vector has all of them. |
| `Dispatch.BitIsFired` | src/extras.c:276-293 | Whatever they share, every bit of the vector is the first counter of a fired entry. |
| `Dispatch.BitIsParity` | src/extras.c:285-286 | A bit is set exactly if an odd number of fired entries have that first counter. |
| `Dispatch.DrainVisits` | src/extras.c:301-337 | If every bit belongs to an entry, the drain visits every bit once, in ascending order, with the entry that owns it. |
| `Dispatch.DrainExactly` | src/extras.c:301-337 | For any vector: the drain visits its bits up to the first that belongs to no entry, ascending and each with its owner, and gets to the end exactly if there is none. |
| `Dispatch.SoftwareSignal` | src/extras.c:215-343 | In lock step, one software signal samples each entry past its deadline exactly once, with its own non-negative excess and in ascending counter order, if and only if each of them is the first entry with a term on its own first counter. Always: no PAPI_EBUG, every sample's overflow and profile slots are for one event, and exactly the deadlines that passed are moved. |
| `Dispatch.OtherSignals` | src/extras.c:215-359 | A set that does not overflow, and one in software with no deadline passed, ignores the signal; one that does not profile hands its handler the vector, made of the first counters of the fired entries or given by the hardware. |
| `Dispatch.HardwareSignal` | src/extras.c:309-337 | A hardware signal on a profiling set samples the bits of its vector in ascending order, with no excess, up to the first that belongs to no entry, and ends in PAPI_EBUG exactly if there is one; no deadline moves. |
| `Dispatch.HasPosMeans` | src/extras.c:319-325 | The scan of the terms of an event ends at the first negative one. |
| `Dispatch.SamplesExactly` | src/extras.c:276-337 | For any table and reading: the vector is drained to the end, and the samples are right if and only if every fired entry owns its first counter's slot. |
| `Dispatch.TableSamplesExactly` | src/extras.c:304-318 | The samples are right for all readings if and only if no entry has a term on a later entry's first counter, which can be told before any signal. |
| `Dispatch.DisjointIsEnough` | src/extras.c:304-318 | Entries that share no counter at all meet that condition. |
| `Dispatch.ForeignTermTakesSample` | src/extras.c:304-318 | An entry that has not fired takes the sample of a later one on whose first counter it has a term, with an excess of -1. |
| `Dispatch.SharedPositionCancels` | src/extras.c:285-286 | Two fired entries with the same first counter cancel and neither is sampled. |
| `Dispatch.FiringsAreWarranted` | src/extras.c:276-293 | Over any run of ticks of a counter that never decreases, firings times threshold never exceed the count, and after each tick the deadline is strictly ahead of it. |
| `Dispatch.FiringsExactly` | src/extras.c:276-293 | Over any run of ticks of any counter an entry fires exactly when its count has come a threshold or more ahead of the count at its last firing, 0 at first; its deadline is always one threshold ahead of that. |
| `Dispatch.OverflowThenTicks` | src/papi.c:5458-5460 | The entry an accepted PAPI_overflow has made or replaced fires like that, and no more often than warranted, from its first tick on. |
| `OverflowSignal.ScanDeadlines` | src/extras.c:276-293 | The scan moves exactly the deadlines that passed and collects the vector and the excesses. |
| `OverflowSignal.FindSlot` | src/extras.c:304-318 | Finds the first entry one of whose terms is the counter. |
| `OverflowSignal.DrainVector` | src/extras.c:301-337 | The loop makes exactly the samples of the drain, and stops at a bit that belongs to no entry. |
| `OverflowSignal.DispatchOverflowSignal` | src/extras.c:215-359 | For software and hardware overflow, from any tables the two calls can leave, the handler changes deadlines and delivers exactly as specified, never indexes temp out of range, reports whether overflow is in hardware, and leaves the set paused only if it ends in PAPI_EBUG. |
| `OverflowSignal.VectorForMeans` | src/extras.c:296-307 | A hardware overflow that leaves the vector to the handler gets the bit of the first counter of the first entry, and no other. |
| `FirstSet.Ffsll` | src/extras.c:498-518 | One plus the position of the least significant set bit of all 64-bit values, negative ones included; 0 for 0. |
| `FirstSet.LowHalfOf` | src/extras.c:508-508 | Shifting right and left and taking the exclusive or leaves exactly the low half. |
| `EventIndex.PairsAreAll` | src/papi.c:7102-7119 | The list is exactly the pairs of a set bit and a matching event that is not derived or is compound, ordered by bit and then event index. |
| `EventIndex.GetOverflowEventIndex` | src/papi.c:7076-7122 | Writes exactly the first min(capacity, total) indexes of that list and the number written; refusals change nothing. |
| `Histogram.PosixProfil` | src/extras.c:93-158 | One sample changes at most one bucket, by one, with wrap-around at the bucket's width. |
| `Histogram.RegionIsCounted` | src/extras.c:108-146 | Every address of a region with a buffer of the documented size has a bucket inside it. |
| `Histogram.AddressesPerBucket` | src/papi.c:5914-5924 | As documented: scale 131072 gives each address its own bucket, 65536 each two in a row, 32768 each four, 16384 each eight, and so for every scale that divides 2^17. |
| `Histogram.ScaleTwoIsOneBucket` | src/papi.c:5920-5920 | Scale 2 gives all addresses one bucket, as documented, if and only if the region starts at 0 or has at most 65536 addresses. |
| `Histogram.DocumentedSize` | src/papi.c:5948-5952 | The number of buckets a region is taken to have is that of the documented size of its buffer, rounded up. |
| `Histogram.CapacityIsWidth` | src/extras.c:124-156 | A bucket wraps at two to the number of its bits. |
| `Histogram.BucketIsMonotone` | src/extras.c:108-119 | Higher addresses of a region never have lower buckets. |
| `Histogram.OnlyRegionIsCounted` | src/papi.c:5948-5952 | Over all addresses below any limit up to 2^64, those of the region are counted and all others kept out if and only if its last bucket is full, it is not the single-bucket case at address 0, and the product for the highest address does not overflow. |
| `Histogram.TightInUserSpace` | src/extras.c:116-119 | Below 2^47 nothing overflows, whatever the scale: only the first two conditions remain. |
| `Histogram.WritesFitExactly` | src/extras.c:124-156 | No write for an address below the limit passes the end of the buffer if and only if it holds whole buckets or none of the addresses reaches the part bucket. |
| `Histogram.FarSampleIsCounted` | src/extras.c:116-119 | A concrete address 2^48 above the start of a region with full buckets comes round to the first bucket and is counted. |
| `Histogram.BucketCountsHits` | src/extras.c:124-156 | After any run each bucket has grown by its samples, less one capacity for each wrap. |
| `Histogram.SumCountsSamples` | src/extras.c:93-158 | After any run the sum of all buckets has grown by the counted samples, less one capacity for each wrap. |
| `Histogram.RunsCountRegionOnly` | src/papi.c:5948-5952 | Every run of samples below a limit is counted as often as it hits the region, if and only if the condition of OnlyRegionIsCounted holds for that limit. |
| `Histogram.CountedAreInRegionOrStray` | src/extras.c:122-156 | For any documented region and run, the counted samples are those in the region and those that stray in from outside. |
| `Histogram.HistogramCountsRegion` | src/extras.c:93-158 | For any documented region and run, the sum of the buckets grows by the samples in the region and the strays, less one capacity for each wrap; below a limit for which the region meets the condition there are no strays. |
| `Histogram.RegionSamplesAreCounted` | src/extras.c:122-156 | Samples that all lie in a documented region are all counted. |
| `Histogram.ChooseRegion` | src/extras.c:181-190 | Picks the first region with the greatest non-zero start strictly below the address, else region 0, of the regions there are. |
| `Histogram.RegionFound` | src/extras.c:181-190 | Among regions that do not overlap, the sample goes to the one it lies in if and only if it is past a non-zero start, or the region is the first and no other can be chosen. |
| `Histogram.StartGoesElsewhere` | src/extras.c:183-183 | A concrete sample at the start of a region goes to the region before it. |
| `Histogram.DispatchProfile` | src/extras.c:164-195 | The sample goes into the buffer of the chosen region and no other. |
| `ProfileRuns.BuffersTakeFirings` | src/extras.c:276-337 | Over any run of software signals, with every entry owning its first counter, each event's buffers have taken exactly the samples of its own firings. |
| `ProfileRuns.FiredAtEachFiring` | src/extras.c:276-293 | There are as many of those samples as the event has firings. |
| `ProfileRuns.ProfileGrowsByFirings` | src/extras.c:93-343 | In lock step, over any run of signals, the sum of a region's buffer grows by the event's firings that choose it and lie in it, and the strays, less one capacity for each wrap. |
| `ProfileRuns.SignalIsSampled` | src/extras.c:226-343 | The samples of those runs, and the deadlines they leave, are those of the handler. |
| `PowerTables.EventRecorded` | src/aix.c:117-137 | Entering one event, in the entry of its name or the first free one, keeps the table equal to the lists read so far. |
| `PowerTables.LastInIsLast` | src/aix.c:117-137 | The id an event has on a counter is that of its last occurrence in the list of that counter. |
| `PowerTables.GroupMarked` | src/aix.c:76-86 | Comparing one group on one counter sets exactly the bit it should. |
| `PowerGroups.PowerComponent.SetupNativeTable` | src/aix.c:105-140 | From empty tables: one entry for each name, with the id of its last occurrence on each counter, the bits of exactly the groups that count it, and the groups' own commands. |
| `PowerGroups.PowerComponent.SetupGroups` | src/aix.c:67-102 | Marks every entry's groups and copies every group, leaving the rest of the table alone. |
| `PowerGroups.PowerComponent.DoCounterAllocation` | src/aix.c:159-193 | The least group common to all events, or none; each event is placed on the last counter whose command agrees. |
| `PowerGroups.PowerComponent.AllocateRegisters` | src/aix.c:200-251 | Success: the least-numbered listed group that contains all requested events, each on a counter that counts it there, different events on different counters. Failure: an event without entry, or no group contains them all; nothing is changed. |
| `PowerChoice.ChosenIsLeast` | src/aix.c:165-183 | The least common bit is the least-numbered group that contains all requested events, and no bit is common if no group does. |
| `PowerChoice.BitMeansContains` | src/aix.c:72-86 | In the finished table an entry has the bit of a group exactly when the group counts its event somewhere. |
| `PowerChoice.PositionCounts` | src/aix.c:184-192 | The counter found for an event counts it in the chosen group. |
| `NativeCode.LayoutsAreValid` | src/papi_libpfm3_events.c:25-29 | The default fields and those set for Pentium 4 and Itanium 2 are adjacent, disjoint and below the native flag. |
| `NativeCode.RoundTrip` | src/papi_libpfm3_events.c:47-95 | Decoding an encoded event gives it back exactly when the event exists and both parts fit their fields. |
| `NativeCode.EncodedBit` | src/papi_libpfm3_events.c:47-55 | Bit by bit: a code has the bits of the event, those of the mask moved up by the shift and cut off at 32 bits, and the native flag. |
| `NativeCode.EncodeInjective` | src/papi_libpfm3_events.c:47-55 | Different events or masks have different codes. |
| `NativeCode.EncodeNativeEvent` | src/papi_libpfm3_events.c:61-74 | The loop over mask indexes gives the code of the mask with exactly those bits. |
| `NativeCode.PrepareUmask` | src/papi_libpfm3_events.c:98-112 | Writes the indexes of the set bits and returns their number. |
| `NativeCode.PreparedIs` | src/papi_libpfm3_events.c:98-112 | Those indexes ascend without duplicates and are exactly the set bits. |
| `NativeCode.ListRoundTrip` | src/papi_libpfm3_events.c:61-112 | Encoding indexes, decoding and listing the mask gives the same indexes in order exactly when all of them fit the mask field. |
| `NativeCode.IndexSixteenIsLost` | src/papi_libpfm3_events.c:200-208 | Index 16 passes the test made before encoding but does not survive the default layout. |
| `NativeEnum.EnumEventCodes` | src/papi_libpfm3_events.c:359-413 | Updates the caller's code to the one that follows under the modifier, or leaves it and says why there is none. |
| `NativeEnum.EnumeratesEvents` | src/papi_libpfm3_events.c:365-389 | From any code, repeated calls go through the code of every later event number in order, with no mask, show none twice, and then stop; from the first code that is all of them. |
| `NativeEnum.EventsEndExactly` | src/papi_libpfm3_events.c:382-389 | Enumerating the events comes to an end if and only if there are no more of them than the event field has codes. |
| `NativeEnum.FirstTooLargeIsEventZero` | src/papi_libpfm3_events.c:382-389 | In a larger table the first number that does not fit is taken for event 0 with mask 1, and the enumeration goes round. |
| `NativeEnum.EnumeratesCombos` | src/papi_libpfm3_events.c:390-396 | For an event with c unit masks, n being c or at most 16: from any code the calls go through every greater mask below 2^n in order, show no code twice, and then stop. |
| `NativeEnum.EnumeratesUmasks` | src/papi_libpfm3_events.c:397-410 | Likewise, through exactly the single-bit masks below 2^n above the least bit of the mask of the code; from the base code these are all n of them. |
| `NativeEnum.IndexesBelowSixteen` | src/papi_libpfm3_events.c:379-380 | Masks from index 16 on are never shown. |
| `NativeEnum.NothingFollows` | src/papi_libpfm3_events.c:370-413 | Which codes and modifiers come back with PAPI_ENOEVNT for want of an event, and which with PAPI_EINVAL. |
| `RunState.StartOutcome` | src/papi.c:2689-2818 | PAPI_start succeeds exactly when no set runs for the thread and component, the set has events and nothing it asks fails; it then takes its own slot and no other. A failed call changes nothing, even after a roll-back. |
| `RunState.StopOutcome` | src/papi.c:2888-2955 | PAPI_stop succeeds exactly when the set holds its slot and reading, stopping and whatever its profiling and overflow need do not fail; it then frees that slot and no other. A failed call changes no state bit or slot. |
| `RunState.StartCode` | src/papi.c:2689-2818 | The code of PAPI_start is that of the first thing wrong: a taken slot, an empty set, then the answers of component and operating system in order. |
| `RunState.StopCode` | src/papi.c:2888-2955 | The code of PAPI_stop likewise, a set that does not hold its slot coming first. |
| `RunState.StopUndoesStart` | src/papi.c:2655-2967 | A start and a stop that both succeed leave everything as it was. |
| `RunState.RunKeepsInvariant` | src/papi.c:2655-2967 | Over any run of calls on any sets: exactly one of STOPPED and RUNNING is set, a slot holds a set if and only if that set runs there, and at most one set runs for each thread and component. |
| `StartStop.Library.Start` | src/papi.c:2655-2819 | The code over set and thread records returns and leaves exactly what the specification says. |
| `StartStop.Library.Stop` | src/papi.c:2873-2967 | The same for PAPI_stop; the values read are stored, and handed to the caller once the component has stopped. |
| `Accumulate.AccumOutcome` | src/papi.c:3303-3343 | What one call returns and leaves: read and reset, the counts are added and gone; read and not reset, they are added and stay; not read, nothing has happened. |
| `Accumulate.AccumConserves` | src/papi.c:3303-3343 | One call keeps accumulated plus remaining counts, except exactly when a running component is read, refuses its reset, and had counted something. |
| `Accumulate.RunConserves` | src/papi.c:3303-3343 | Over any run, accumulated plus remaining counts are the initial ones, all increments, and the counts of each call that reads a running component and is refused the reset; the run conserves exactly if these are nothing. |
| `Accumulate.RunThenAccum` | src/papi.c:3303-3343 | After any run, a call that reads and resets hands over the initial values, all increments and what was taken twice on the way, and leaves nothing; the two refused cases beside it. |
| `Accumulate.NothingTwice` | src/papi.c:3303-3343 | They are nothing for a stopped set, and if every reset made of a running one succeeds. |
| `Accumulate.CounterSet.Accumulate` | src/papi.c:3303-3343 | The code adds, stores and clears exactly as specified, error paths included. |
| `Accumulate.CounterSet.Reset` | src/papi.c:3017-3058 | A running set's counters are cleared if the component agrees, a stopped set's stored values always. |

## Left out

- BipartiteAlloc.BipartiteAlloc: failure to allocate the two scratch lists, which the code reports as no mapping, is not modelled; the six helpers are those of src/components/perfctr/perfctr-x86.c without their Pentium 4 branches.
- CpuThreads.StepKeeps: initialisation of a cpu record is assumed to succeed, and the memory of a freed record is not used again for another.
- CpuThreads.WaitingCanEnter: a spinning thread may be overtaken without end by others, so no bound on its own waiting is claimed.
- CpuRing.CpuList.RemoveCpu: takes listed entries only; SearchEndsIfListed shows that the search does not end for others.
- CpuRing.CpuList.LookupOrCreateCpu: initialisation is assumed to succeed; after a failure the code would count a user on a null record.
- CpuRing.CpuList.InitializeCpu: failure of the allocation or of a component's initialisation is not modelled.
- CpuRing.CpuList.FreeCpu: shutting down component contexts and freeing the record's memory are not modelled.
- OverflowTables.StaysInStep: what set_overflow and set_profile answer is a parameter, and components with kernel profiling are outside the theorem because their two tables are not meant to agree.
- EventSets.EventSet.Sprofil: the caller's array of regions is copied, so later changes by the caller are not seen; looking up the event set and its component is left out.
- OverflowSignal.DispatchOverflowSignal: starts where the running event set is known, with the values read from the counters as a parameter; the checks on thread and component are left out, and deadlines do not overflow.
- Histogram.PosixProfil: buffers hold whole buckets (WritesFitExactly says when others are overrun); random, compressed and weighted increments are left out, so every counted sample adds one.
- Histogram.ChooseRegion: takes a list with at least one region, as does Histogram.DispatchProfile; for an entry registered without any (NoRegionsAreAccepted) the code reads a region that is not there.
- EventIndex.GetOverflowEventIndex: looking up the event set is left out.
- PowerGroups.PowerComponent.AllocateRegisters: an event is given by its table index, without the native flag; descriptions and the fields of native_name_map other than the index are left out.
- NativeEnum.EnumEventCodes: the number of unit masks of each event, asked from the vendor library, is a table; printing an error is left out.
- RunState.RunKeepsInvariant: sets attached to a thread or cpu and software multiplexing are left out; results of component and operating system calls are parameters.
- StartStop.Library.Stop: a failing read is taken to leave the stored values alone.
- Accumulate.RunConserves: values are unbounded integers, and no count arrives between the read and the reset of one call.
- Component and operating system back ends, event names and descriptions, presets, timers, rates and the Fortran wrappers are left out.
