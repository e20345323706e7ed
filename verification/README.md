# Verified model of the sfera-mondo utilities

This project models the five stateful in-memory components under `src/util` in Dafny and proves what they promise.

| file | component |
|---|---|
| `ThreadPool.dfy` | the thread pool as a labelled transition system at lock granularity, and its code as a class whose methods are the steps |
| `RecentHistory.dfy` | the ring buffer with many replaying consumers, against an unbounded log since the last clear |
| `IndexAllocator.dfy` | the lazy free list, against a plain set of free indices |
| `Tracer.dfy` | the tracer: two event buffers, consumer objects with a lifecycle, swap-with-last removal |
| `TraceFile.dfy` | the consumer that writes a trace file |
| `Contexts.dfy` | scoped begin and end events of many threads |
| `Uuid.dfy` | the printer and the parser of the UUID text form |
| `Collections.dfy` | an option type and sequences without repetitions |

Each component has a specification module on values and, where the source updates objects in place, a class with the
source's fields. The class methods are proved equal to the specification's steps; the results about whole runs are
lemmas about those steps.

## Assumptions

- Thread pool: one action is one region under the mutex, one notification, one return of a task, or one join. Any number
  of clients may enqueue at any moment, the `notify_one` that follows a push is owed until it is delivered, and sleepers
  may wake spuriously. Tasks are identifiers that run and return. In `Destroy` the scheduler picks who moves next; an
  enqueue it lets in between is refused and changes nothing.
- Tracer: each operation is atomic. `addEvent` reads the enabled flag, and `advanceConsumers` the two vectors, outside the
  lock in the source; races on these reads are not modelled. Clocks and thread identifiers are parameters. A record stands
  for the string that one event is rendered to. Callers may register a consumer twice or again after it is COMPLETE;
  what a second call of `finish` then does is what the source does when its assertion is compiled out.
- Ring buffer: versions and index arithmetic are 32-bit and wrap. An event type brings its default value and its `clear`.
- UUID: a byte is a number below 256; `MasksAreDivisions` relates the masks and shifts of the source to this. Byte order is
  the little-endian layout that the source assumes.

## What is false of the code

These promises do not hold of the code as it stands. The model follows the code and says exactly when they hold.

- `IndexAllocator::free` clears its sorted flag in the wrong case (src/util/IndexAllocator.h:67-70): it gives the flag up
  when the index belongs at the back, and keeps it when it does not. Recycling is then not lowest first: `LowestFirstIff`
  is the exact condition over whole runs and `HigherIndexComesFirst` a run that breaks it. And duplicates are then not all
  dropped, so that an index comes out twice: `CopyLeftIff`, `HandedOutTwiceIff` and, over whole runs, `NoCopyNoCollision`
  are the exact conditions, `DoubleFreeHandsOutTwice` a run. `RepairedRunRefinesSet` and `RepairedNeverCollides` are about the repaired comparison. That holders never collide
  (`HoldersNeverCollide`) does not depend on the comparison.
- A consumer that lost history keeps failing only until the 32-bit version comes round again (`LostUntilWrap`,
  `WrapRevivesLostConsumer`), and right after the counter wraps nobody can advance (`AdvanceIffNoWrap`,
  `OldestUnderflowsIff`, `WrapShutsEveryoneOut`).
- The text of a UUID is not the big-endian hexadecimal form of the 128-bit value, because the low nibble of each byte
  comes first: `PlainHexIff`, `PlainHexFails`. Nor is it the layout drawn in the comment of `toString4122`
  (src/util/Uuid.cpp:53-65), where the first half shows `_data[0]` and high nibbles come first: `CommentLayoutIff`.
- `shutdown` does not complete a consumer when nothing is buffered or its lifetime is not yet over (`ShutdownIff`,
  `IdleConsumerSurvivesShutdown`).
- `finish` does not always run at most once for a consumer. Over any run it does exactly if no call finds the consumer
  past its deadline while it is registered more than once or already COMPLETE (`FinishesOnceIff`);
  `FinishedTwiceInOneCall` and `FinishedTwiceAfterCompletion` are runs, and within a call such a COMPLETE consumer falls
  back to EXPIRED (`FallsBackIff`). When a consumer expires while it is registered twice, the assertion in `finish` fails
  (`DoubleRegistrationFailsFinish`). It is enough that callers never hand a consumer over while it is registered or
  COMPLETE (`LifecycleMovesForward`). A consumer that is removed and handed over again misses what was flushed in between
  (`ReaddedGapIff`).
- The begins and ends of `Context` objects, completed with the ends of the scopes still open, are balanced at every moment
  exactly if tracing is on when a scope is left just when it was on as it was entered, and nobody else records begins or
  ends of the thread (`ThreadLogIsBalanced`); `LateConsumerUnbalances` and `EarlyExpiryUnbalances` break that in the two
  possible ways. While tracing stays on they are balanced (`TracingThroughoutIsBalanced`, `TracedProgramIsBalanced`).
- The first 2^31 strings of a batch have their own args index; the next 2^31 get a negative one, and from 2^32 on there are
  also indices that belong to strings of other events (`ArgsIndexIff`).
- Under double frees the counters of the allocator are wrong: they are exact after every operation of a run exactly if no
  index is freed that is free already (`CountsExactIff`).

## Model

| member | source | states |
|---|---|---|
| PoolModel.TasksConserved | src/util/ThreadPool.h:64-77 | in every interleaving dequeues are a prefix of the accepted tasks, and accepted is exactly finished + running + queued |
| PoolModel.ExitedPoolIsDrained | src/util/ThreadPool.h:70-76 | once all of at least one worker have exited, the queue is empty and everything accepted has finished |
| PoolModel.NoWorkersAbandonsQueue | src/util/ThreadPool.h:108-117 | with no workers the destructor finishes and leaves the task queued |
| PoolModel.AcceptedIsOffered | src/util/ThreadPool.h:95-104 | in every run exactly the tasks handed over before stop is set are accepted, in order |
| PoolModel.RestedPoolRanWhatWasOffered | src/util/ThreadPool.h:64-104 | once a pool with workers comes to rest, exactly the tasks handed over before stop have run, whatever the run |
| PoolModel.NoLostWakeup | src/util/ThreadPool.h:67-72 | while anyone sleeps, queued tasks never outnumber owed notifies plus workers about to look; queued work has an awake worker or an owed notify; a sleeper after stop is still owed notify_all |
| PoolModel.StepKeepsInv | src/util/ThreadPool.h:64-117 | every step keeps conservation, FIFO order, final exits, sufficient wake-ups and no sleeper after notify_all |
| PoolModel.RunKeepsInv | src/util/ThreadPool.h:64-117 | so does every run |
| PoolModel.ShutdownRunsAreBounded | src/util/ThreadPool.h:108-117 | after stop every run has at most as many pool steps as an explicit measure, however many refused enqueues come in between |
| PoolModel.ShutdownIsNeverStuck | src/util/ThreadPool.h:113-116 | until everyone is joined some pool step is possible |
| PoolModel.ShutdownCompletes | src/util/ThreadPool.h:108-117 | whatever the run after stop, the pool takes boundedly many steps, and when it can take no more all workers are joined and every task accepted before stop is finished |
| PoolModel.StopClosesQueue | src/util/ThreadPool.h:98-100 | nothing is accepted once stop is set |
| PoolModel.ProgressIsBounded | src/util/ThreadPool.h:64-117 | in any run at all, the workers' steps and deliveries are bounded by what there was to do and what pushes, spurious wake-ups and notify_all added |
| PoolModel.IdlePoolHasRunEverything | src/util/ThreadPool.h:64-77 | at any moment of any run, with clients, spurious wake-ups and the destructor interleaved: when no worker can step and no notification is owed, everything accepted has finished; and it takes boundedly many steps to get there |
| ThreadPoolClass.ThreadPool.constructor | src/util/ThreadPool.h:58-81 | the given number of workers, all about to test the predicate; an empty queue and no stop |
| ThreadPoolClass.ThreadPool.TakeTask | src/util/ThreadPool.h:66-75 | the worker's locked region: with a task queued it takes the oldest and runs it, else it exits if stop is set and sleeps if not; this is the Check step |
| ThreadPoolClass.ThreadPool.Enqueue | src/util/ThreadPool.h:95-102 | refused exactly after stop; otherwise the task is queued last, accepted, and a notify is owed; this is the Push step |
| ThreadPoolClass.ThreadPool.NotifyOneSleeper | src/util/ThreadPool.h:103 | an owed notify_one wakes some one sleeper, or finds that there is none |
| ThreadPoolClass.ThreadPool.NotifyEveryone | src/util/ThreadPool.h:113 | notify_all leaves no sleeper and changes nobody else |
| ThreadPoolClass.ThreadPool.TaskReturns | src/util/ThreadPool.h:77 | the return of a task is the Finish step |
| ThreadPoolClass.ThreadPool.RaiseStop | src/util/ThreadPool.h:109-112 | the destructor's locked region is the SetStop step |
| ThreadPoolClass.ThreadPool.Destroy | src/util/ThreadPool.h:108-117 | the destructor ends whatever the scheduler does in its three phases; then all workers have exited and everything accepted has finished, or there were no workers and the queue is untouched |
| HistoryModel.AdvanceIff | src/util/RecentHistory.h:75-89 | a consumer is advanced exactly when size <= version and version - size <= v <= version, whether or not the counter has wrapped |
| HistoryModel.AdvanceIffNoWrap | src/util/RecentHistory.h:37-41 | without wrap the window is version - min(pushes since clear, capacity - 1) .. version; an up-to-date consumer is refused exactly just after a wrap |
| HistoryModel.LostIffBehind | src/util/RecentHistory.h:82-85 | while the counter has not wrapped, a version is lost exactly when it is older than everything replayable |
| HistoryModel.OldestOnlyGrows | src/util/RecentHistory.h:103-114 | over any run of pushes the oldest replayable version, counted without wrap, never decreases and is never negative; while the counter has not wrapped it is the source's 32-bit difference |
| HistoryModel.OldestUnderflowsIff | src/util/RecentHistory.h:82 | that 32-bit difference underflows exactly while the counter has wrapped and is smaller than the number of replayable events |
| HistoryModel.WrapShutsEveryoneOut | src/util/RecentHistory.h:75-85 | a run after which a consumer at any version is refused |
| HistoryModel.BehindStaysBehind | src/util/RecentHistory.h:45-49 | once behind, always behind, through pushes and clears to newer versions |
| HistoryModel.LostUntilWrap | src/util/RecentHistory.h:75-85 | a lost consumer fails until the counter comes round to its version, and is let in there exactly if the counter has outgrown the ring |
| HistoryModel.ResetIsEmpty | src/util/RecentHistory.h:45-49 | after a clear to any version, older ones too, exactly consumers at that version are let in |
| HistoryModel.RecordsAreLogged | src/util/RecentHistory.h:56-72 | a run of pushes appends its events to the log, in order, and changes nothing else |
| HistoryModel.WrapRevivesLostConsumer | src/util/RecentHistory.h:75-100 | a run in which a lost consumer is let in with events missing |
| HistoryModel.FoldStepsOnce | src/util/RecentHistory.h:94-97 | replaying takes exactly one step for each event, in order, for any step |
| HistoryModel.FoldRecords | src/util/RecentHistory.h:94-97 | a consumer that records what it is given has recorded exactly the events |
| HistoryModel.FoldAppend | src/util/RecentHistory.h:94-97 | replaying a..b and then b..c is replaying a..c |
| HistoryModel.ReadCatchesUp | src/util/RecentHistory.h:75-100 | a read takes one reader to the present version over exactly the events it missed, if it is let in, and touches no other |
| HistoryModel.PlayWrites | src/util/RecentHistory.h:56-72 | over any run of pushes and reads the log grows by exactly the events written |
| HistoryModel.PlayInTurn | src/util/RecentHistory.h:75-100 | such a run is its moves one by one |
| HistoryModel.PlayTracks | src/util/RecentHistory.h:75-100 | over any run of pushes and reads in which the counter does not wrap, a consumer's state is the replay of exactly the events between its first and its present version |
| HistoryModel.ReadersConverge | src/util/tests/test_RecentHistory.cpp:62-64 | over such runs, consumers that start alike hold the same state whenever their versions agree |
| HistoryModel.RecentEventsSurvive | src/util/RecentHistory.h:103-114 | the last capacity events are each still in their slot |
| HistoryModel.Displaced | src/util/RecentHistory.h:61-64 | the slot a push writes held the event of one full turn earlier |
| RecentHistoryClass.RecentHistory.constructor | src/util/RecentHistory.h:28-35 | capacity is capped at 512 and all slots hold default events |
| RecentHistoryClass.RecentHistory.GetSize | src/util/RecentHistory.h:37-41 | the distance from tail to head round the ring is min(events since clear, capacity - 1) |
| RecentHistoryClass.RecentHistory.ClearAndSetVersion | src/util/RecentHistory.h:45-49 | the log is empty, the version is the given one, the slots keep their contents |
| RecentHistoryClass.RecentHistory.Copy | src/util/RecentHistory.h:56-59 | writes the event to the head's slot only, appends it to the log and adds one to the 32-bit version |
| RecentHistoryClass.RecentHistory.Swap | src/util/RecentHistory.h:61-64 | appends the event and hands back the one pushed capacity pushes earlier, or what the slot held at the last clear |
| RecentHistoryClass.RecentHistory.Take | src/util/RecentHistory.h:68-72 | appends the event and hands back that earlier event cleared |
| RecentHistoryClass.RecentHistory.AdvanceHead | src/util/RecentHistory.h:103-114 | head, tail and version move so that the ring stands for the log with one more event |
| RecentHistoryClass.RecentHistory.AdvanceConsumer | src/util/RecentHistory.h:75-100 | succeeds exactly in the window; then consumeEvent is called with exactly the last version - v events, once each and in order, and the version is set; otherwise the consumer is untouched |
| RecentHistoryClass.RecentHistory.ReadFrom | src/util/RecentHistory.h:94-97 | the modular loop ends and calls consumeEvent with each event from its start on once, in order |
| RecentHistoryClass.PushMix | src/util/RecentHistory.h:56-72 | over any mix of copy, swap and take on a fresh history: the same log, and what each push hands back |
| AllocatorModel.RunRefines | src/util/IndexAllocator.h:39-75 | over any run with double and out-of-range frees, allocate returns the lowest free index and removes every copy, or the next fresh one, or -1; as written this needs a run that never trips the flag |
| AllocatorModel.RepairedRunRefinesSet | src/util/IndexAllocator.h:67-70 | with the comparison repaired every run refines the set of free indices |
| AllocatorModel.LowestFirstIff | src/util/IndexAllocator.h:39-75 | as written, after every operation of a run allocate would follow the set of free indices exactly when no free of the run puts a higher index behind a list flagged sorted |
| AllocatorModel.GiveKeepsLowestFirstIff | src/util/IndexAllocator.h:65-75 | one free keeps lowest-first recycling and the truth of the flag exactly when it does not trip |
| AllocatorModel.TrippingFree | src/util/IndexAllocator.h:65-75 | after such a free the next allocate returns the index just freed, which is not the lowest |
| AllocatorModel.FlagIsGivenUpIff | src/util/IndexAllocator.h:67-70 | the flag is given up exactly when a lower index than the last one is freed; then, however much is freed, the next allocate returns the lowest free index |
| AllocatorModel.UnsortedCollects | src/util/IndexAllocator.h:65-75 | an unflagged list stays unflagged and collects exactly the valid indices that are freed |
| AllocatorModel.RunInTurn | src/util/IndexAllocator.h:39-80 | a run is its operations one by one, and hands out what they hand out |
| AllocatorModel.HigherIndexComesFirst | src/util/IndexAllocator.h:65-75 | any two live indices freed lowest first come back highest first |
| AllocatorModel.RepairedLowerIndexComesFirst | src/util/IndexAllocator.h:65-75 | with the comparison repaired they come back lowest first |
| AllocatorModel.CopyLeftIff | src/util/IndexAllocator.h:45-62 | in any state, allocate leaves a copy of the index it returns exactly when the flag is set and a copy stands before another index |
| AllocatorModel.DoubleHandOutIff | src/util/IndexAllocator.h:54-75 | while the flag is true, a free makes the next allocate leave a copy exactly when it trips and the index was free already |
| AllocatorModel.ComesOutAgainIff | src/util/IndexAllocator.h:39-63 | an index of which a copy is left comes out again without being freed; one of which none is left never does |
| AllocatorModel.HandedOutTwiceIff | src/util/IndexAllocator.h:39-75 | after any run that did not trip, a free leads to one index being handed out twice with no free in between exactly when it trips and the index was free already |
| AllocatorModel.DoubleFreeHandsOutTwice | src/util/IndexAllocator.h:54-62 | a run: on a sorted list of three the middle one is freed again, and the next three allocates return it twice |
| AllocatorModel.DoubleFreeStateIsReachable | src/util/IndexAllocator.h:39-75 | the list of that run is reachable |
| AllocatorModel.NoCopyNoCollision | src/util/IndexAllocator.h:39-75 | over any run with frees by anyone: what is handed out stays off the list at every point exactly if no allocate finds a copy waiting, and then no index is handed out twice without a free in between |
| AllocatorModel.RepairedNeverCollides | src/util/IndexAllocator.h:67-70 | with the comparison repaired that never happens, whatever is freed |
| AllocatorModel.SortIsUnique | src/util/IndexAllocator.h:46-52 | any descending permutation is the sorted list, whatever std::sort does |
| AllocatorModel.RunKeepsPartition | src/util/IndexAllocator.h:39-80 | if only holders free, live and free indices partition [0, next) after every run |
| AllocatorModel.HoldersNeverCollide | src/util/IndexAllocator.h:26-80 | if only holders free: counts exact at 16 and 32 bits, next <= max, -1 exactly when max indices are live, and no index handed out while live, in any order of frees |
| AllocatorModel.GiveCountsExactlyIff | src/util/IndexAllocator.h:29-34 | while every free index is listed once, a free by anyone keeps both counters exact exactly if the index is not free already |
| AllocatorModel.CountsExactIff | src/util/IndexAllocator.h:29-80 | over any run with frees by anyone both counters are exact after every operation exactly if no index is freed that is free already |
| AllocatorModel.CastIsExactIff | src/util/IndexAllocator.h:29-34 | the casts in the counters are exact exactly within the range of the index type |
| IndexAllocatorClass.IndexAllocator.constructor | src/util/IndexAllocator.h:20-24 | an empty sorted list and the preallocated count |
| AllocatorModel.TakeUnflagged | src/util/IndexAllocator.h:45-62 | on an unflagged list allocate returns the lowest index, removes every copy and leaves the others sorted |
| AllocatorModel.TakeFlagged | src/util/IndexAllocator.h:54-62 | on a flagged list it returns the last index and removes the copies just before it |
| IndexAllocatorClass.IndexAllocator.Allocate | src/util/IndexAllocator.h:39-63 | the next fresh index or -1 when nothing is free, else one of these two; allocate is the specification's step |
| IndexAllocatorClass.IndexAllocator.GetNumLive | src/util/IndexAllocator.h:29-31 | the indices given out so far less the length of the list, while that fits the index type |
| IndexAllocatorClass.IndexAllocator.GetNumFree | src/util/IndexAllocator.h:32-34 | the length of the list, while it fits the index type |
| IndexAllocatorClass.IndexAllocator.DropDuplicates | src/util/IndexAllocator.h:56-60 | the loop removes exactly the copies at the back |
| IndexAllocatorClass.IndexAllocator.Free | src/util/IndexAllocator.h:65-75 | an index in range goes to the back of the list, any other changes nothing; the flag falls exactly if the index is lower than the one it is put behind |
| IndexAllocatorClass.IndexAllocator.ClearIndices | src/util/IndexAllocator.h:77-80 | the list is empty, counting restarts, the flag stays |
| SwapRemoval.SweepConserves | src/util/TraceUtil.cpp:151-172 | the loop ends with the list split, as a multiset, into what stays and what goes |
| SwapRemoval.SweepVisitsAll | src/util/TraceUtil.cpp:151-172 | it looks at every member once per occurrence |
| SwapRemoval.SweepSeparates | src/util/TraceUtil.cpp:156-169 | exactly the members to be removed are taken out |
| SwapRemoval.SweepSplits | src/util/TraceUtil.cpp:151-172 | for any list the loop looks at each occurrence once and splits it, count by count, into what stays and what goes |
| SwapRemoval.SweepDistinct | src/util/TraceUtil.cpp:147-172 | a list of distinct members is visited once each and split into two lists of distinct members |
| TraceModel.AdvanceOutcome | src/util/TraceUtil.cpp:146-190 | everyone gets the batch once for each registration; exactly those past their deadline also get the meta events, complete and leave; enabled stays exactly if someone remains |
| TraceModel.AdvanceIdle | src/util/TraceUtil.cpp:109-125 | with nothing buffered nothing happens; with nobody registered the batch is dropped |
| TraceModel.RecordsOfRun | src/util/TraceUtil.cpp:31-107 | over any run exactly the events added while somebody is registered are recorded, and all meta events, in order |
| TraceModel.StepKeepsInv | src/util/TraceUtil.cpp:31-238 | every operation, whoever is handed over however often, keeps: enabled exactly if someone is registered, the buffer is the unflushed end of the log, between operations a consumer is ACTIVE and unfinished or COMPLETE |
| TraceModel.RunKeepsInv | src/util/TraceUtil.cpp:31-238 | so does every run |
| TraceModel.StepFinishesOnceIff | src/util/TraceUtil.cpp:109-238 | any operation keeps finish from running twice for a consumer exactly if it does not find it past its deadline while registered more than once or COMPLETE |
| TraceModel.FinishesOnceIff | src/util/TraceUtil.cpp:31-238 | after any run, whoever was handed over how often, finish has run at most once for a consumer exactly if no operation of the run does |
| TraceModel.RunGoesForward | src/util/TraceUtil.h:96-129 | from operation to operation the lifecycle of a consumer never moves back, in any run |
| TraceModel.FallsBackIff | src/util/TraceUtil.h:118-122 | within a call a COMPLETE consumer is set back to EXPIRED exactly if it is registered again and past its deadline |
| TraceModel.LifecycleMovesForward | src/util/TraceUtil.h:90-129 | if a consumer is never handed over while registered or COMPLETE, its lifecycle moves forward, finish runs at most once, and once completed it is not touched again |
| TraceModel.StaysForItsLifetime | src/util/TraceUtil.h:110-122 | a consumer handed over at some time is, after any run in which nobody removes it or moves its deadline, still registered exactly if no call had an event to hand out later than that time plus its lifetime |
| TraceModel.ReaddedAfterCompletion | src/util/TraceUtil.cpp:204-214 | a completed consumer handed over again falls back to EXPIRED in the first call past its deadline and is finished a second time |
| TraceModel.FinishedTwiceAfterCompletion | src/util/TraceUtil.cpp:109-214 | a run from the start that does this |
| TraceModel.FinishedTwiceInOneCall | src/util/TraceUtil.cpp:186-189 | a run from the start after which one call finishes a consumer twice, against the assertion |
| TraceModel.WindowOfRun | src/util/TraceUtil.cpp:109-238 | over any run in which a registered consumer is not handed over again, it receives one window without gap or repeat up to the flush at which it left the list, by completing or by removal |
| TraceModel.ReceivedIsOneWindow | src/util/TraceUtil.cpp:31-238 | after any run, early removal included, a new consumer has received one contiguous window of the accepted events from the last flush before it was added up to the flush at which it left or the last one, and if it completed all meta events recorded by then |
| TraceModel.ReaddedGapIff | src/util/TraceUtil.cpp:204-238 | a consumer removed early and handed over again has two windows, which are one exactly if nothing was flushed in between |
| TraceModel.ShutdownIff | src/util/TraceUtil.cpp:194-202 | shutdown takes a consumer off the list, and completes it, exactly if an event is buffered and the clock is past its lifetime; with an empty buffer it only moves deadlines |
| TraceModel.ShutdownEmptiesIff | src/util/TraceUtil.cpp:194-202 | past the 10 s cap the list is empty and tracing off afterwards exactly if it was or an event was buffered |
| TraceModel.IdleConsumerSurvivesShutdown | src/util/TraceUtil.cpp:109-112 | a run: a consumer added with no event after it stays registered, however late shutdown comes |
| TraceModel.FinishesCleanlyIff | src/util/TraceUtil.h:125-129 | finishing a list meets the assertion exactly if its members are distinct and EXPIRED |
| TraceModel.DoubleRegistrationFailsFinish | src/util/TraceUtil.cpp:150-189 | the assertion holds for a whole call exactly if no consumer that expires in it is registered twice |
| TraceModel.OrderlyFinishesCleanly | src/util/TraceUtil.cpp:186-189 | so it never fails while everyone registered is orderly |
| TracerClass.ArgsIndexIff | src/util/TraceUtil.cpp:45 | the 32-bit index is the vector's size exactly below 2^31 strings, and otherwise -1 or out of range or that of another string |
| TracerClass.MergeWithArgs | src/util/TraceUtil.cpp:43-48 | an event with args adds one event and disturbs no other; below 2^31 strings it has its own string and shares no entry |
| TracerClass.Consumer.constructor | src/util/TraceUtil.h:96-104 | lifetimes are capped at 10 seconds; a consumer starts ACTIVE with a distant deadline |
| TracerClass.Consumer.CheckExpiry | src/util/TraceUtil.h:118-122 | EXPIRED exactly past the deadline |
| TracerClass.Consumer.Finish | src/util/TraceUtil.h:125-129 | requires EXPIRED, hands over the meta events and ends COMPLETE |
| TracerClass.Tracer.AddEvent | src/util/TraceUtil.cpp:31-36 | adds one event to buffer and log exactly if enabled |
| TracerClass.Tracer.AddEventWithArgs | src/util/TraceUtil.cpp:38-49 | the two vectors stand for the same events plus one with the string its index leads to, for any number of strings |
| TracerClass.Tracer.SetCounter | src/util/TraceUtil.cpp:51-63 | a counter event whose args are the name and the count |
| TracerClass.Tracer.AddMetaEvent | src/util/TraceUtil.cpp:65-90 | each of the three kinds appends its text, spelled out; an unknown one changes nothing |
| TracerClass.Tracer.AddMetaIndex | src/util/TraceUtil.cpp:92-107 | likewise for the sort indices |
| TracerClass.Tracer.AddConsumer | src/util/TraceUtil.cpp:204-214 | a null pointer changes nothing; otherwise the deadline is the clock plus the lifetime, the consumer is appended and tracing is on |
| TracerClass.Tracer.RemoveConsumer | src/util/TraceUtil.cpp:216-238 | every occurrence is removed by the swapping loop and everyone else stays as often; tracing is off if nobody is left |
| TracerClass.Tracer.Render | src/util/TraceUtil.cpp:127-145 | every index is looked up in the strings swapped out with the events |
| TracerClass.Tracer.VisitConsumers | src/util/TraceUtil.cpp:150-172 | on any list the swapping loop visits consumers as the specification's order says and takes exactly the expired ones off |
| TracerClass.Tracer.FinishConsumers | src/util/TraceUtil.cpp:186-189 | finishes the expired consumers in order; the assertion must hold at each call |
| TracerClass.Tracer.AdvanceConsumers | src/util/TraceUtil.cpp:109-191 | without events nothing happens; otherwise exactly those past their deadline leave, and whoever is registered once gets the events, and on leaving the meta events; this is the specification's step, and it demands what the vector access and the assertion demand |
| TracerClass.Tracer.ShutdownTracer | src/util/TraceUtil.cpp:194-202 | with an event buffered exactly those leave whose bare lifetime the clock is past; otherwise only deadlines move; this is the specification's step |
| TraceFile.LinesThenLast | src/util/TraceUtil.cpp:253-274 | lines each ending in a comma, then one last item, are the items joined without a trailing comma |
| TraceFile.JoinInTwo | src/util/TraceUtil.cpp:253-274 | joining keeps all items in order, with one separator between neighbours |
| TraceFile.WriteToFile.constructor | src/util/TraceUtil.cpp:240-251 | a file that opens holds the header; one that does not stays empty and loses its name |
| TraceFile.WriteToFile.ConsumeEvents | src/util/TraceUtil.cpp:253-259 | writes one line for each event while the file is open |
| TraceFile.WriteToFile.Finish | src/util/TraceUtil.cpp:261-276 | the finished file is header, events, meta events and end marker joined, and footer; then it is closed |
| TraceFile.WholeTrace | src/util/TraceUtil.cpp:240-276 | for any number and sizes of batches the finished file is that text, and late events are not written |
| TraceFile.FileFollowsRun | src/util/TraceUtil.cpp:109-276 | over any run of the tracer a registered consumer's file holds what the consumer was handed, and is closed exactly once it is COMPLETE |
| TraceFile.FileOfRun | src/util/TraceUtil.cpp:31-276 | end to end: a file added at any moment of any run holds the header and its window of the accepted events; once its consumer is complete, header, window, meta events and end marker joined, and footer |
| Nesting.BalancedIff | src/util/TraceUtil.h:204-216 | a word is balanced, with equal name and category in each pair, exactly if the matching reader accepts it |
| Nesting.CompletedIff | src/util/TraceUtil.h:204-216 | a word followed by the ends of some scopes is balanced exactly if those are the scopes it leaves open |
| ContextModel.ScopeRecords | src/util/TraceUtil.h:204-216 | while tracing is on, a Context records one begin and one end event of its name and category, with those phases |
| ContextModel.RunInTurn | src/util/TraceUtil.h:204-216 | a run is its moves one by one |
| ContextModel.StepKeepsBalanceIff | src/util/TraceUtil.h:204-216 | one move of any thread or any tracer operation keeps a thread's completed log balanced exactly if it neither leaves one of its scopes with tracing switched since nor records a begin or end of it without a Context |
| ContextModel.ThreadLogIsBalanced | src/util/TraceUtil.h:204-216 | for every interleaving with arbitrary tracer operations, a thread's log completed with the ends of its open scopes is balanced at every moment exactly if no move disturbs it so; then the log is balanced once all scopes are left |
| ContextModel.TracingThroughoutIsBalanced | src/util/TraceUtil.h:204-216 | in any interleaving in which tracing stays on and the thread's begins and ends come from Context objects, its log stays balanced when completed, and is balanced once all scopes are left |
| ContextModel.TracedProgramIsBalanced | src/util/TraceUtil.h:204-216 | so from the start on, once a consumer has been added |
| ContextModel.LateConsumerUnbalances | src/util/TraceUtil.cpp:204-214 | a first consumer handed over during a scope unbalances a balanced log: an end without a begin |
| ContextModel.EarlyExpiryUnbalances | src/util/TraceUtil.cpp:164-167 | the last consumer expiring during a scope unbalances it: a begin without an end |
| UuidText.ParseOfPrint | src/util/Uuid.cpp:52-99 | parsing a printed UUID restores it, for all 128-bit values |
| UuidText.PrintOfParse | src/util/Uuid.cpp:133-195 | printing an accepted text gives its lower-case form |
| UuidText.SameValueIff | src/util/Uuid.cpp:102-131 | two accepted texts have the same value exactly if they differ only in case |
| UuidText.TextIsUnique | src/util/Uuid.cpp:67-98 | a value has only one text |
| UuidText.GrammarByDigits | src/util/Uuid.cpp:133-190 | accepted are exactly 36 characters with dashes at the four places and 0-9, a-f or A-F elsewhere, as in section 3 of RFC 4122 |
| UuidText.CaseDoesNotMatter | src/util/Uuid.cpp:102-131 | a text is accepted exactly if its lower-case form is, with the same value |
| UuidText.DigitsAre | src/util/Uuid.cpp:102-131 | the digits are 0-9, a-f and A-F, and no others |
| UuidText.DigitAtPlace | src/util/Uuid.cpp:102-131 | each with the value of its place in that order |
| UuidText.DigitIs | src/util/Uuid.cpp:73 | the digit printed for a value |
| UuidText.PositionsAre | src/util/Uuid.cpp:67-98 | the place of every byte in the text, from right to left |
| UuidText.PlainHexIff | src/util/Uuid.cpp:74-77 | the text is the big-endian hexadecimal form of the 128-bit value exactly if every byte has two equal nibbles |
| UuidText.PlainHexFails | src/util/Uuid.cpp:53-77 | the text of sixteen bytes 0x12, which is neither that form nor the layout drawn in the comment |
| UuidText.CommentLayoutIff | src/util/Uuid.cpp:53-65 | the text is the layout drawn in the comment exactly if bytes i and i + 8 are each other's nibbles exchanged |
| UuidText.MasksAreDivisions | src/util/Uuid.cpp:102-131 | the masks and shifts on bytes are the divisions and remainders of the model |
| UuidClass.CharToLowNibble | src/util/Uuid.cpp:102-115 | accepts exactly hexadecimal digits in either case and replaces the low nibble only |
| UuidClass.CharToHighNibble | src/util/Uuid.cpp:118-131 | likewise for the high nibble |
| UuidClass.Uuid.ToString4122 | src/util/Uuid.cpp:52-99 | the text is the one of the bytes, dashes included |
| UuidClass.Uuid.PutBytes | src/util/Uuid.cpp:74-77 | each backward loop puts its bytes in place and disturbs nothing already written |
| UuidClass.Uuid.FromString4122 | src/util/Uuid.cpp:133-195 | accepts exactly the grammar; on rejection the object is unchanged; the result does not depend on the local buffer's initial contents |
| UuidClass.Uuid.GetBytes | src/util/Uuid.cpp:143-149 | each backward loop accepts exactly hexadecimal pairs and reads their values |
| UuidClass.RoundTrip | src/util/tests/test_Uuid.cpp:42-55 | a UUID printed and parsed again is the same UUID |

## Left out

- AdvanceConsumers: requires that no consumer that expires in the call is registered twice and that every stored args index is -1 or in range, because the source's assertion and its vector access demand it; `DoubleRegistrationFailsFinish` and `ArgsIndexIff` are exact about both.
- ShutdownTracer: requires the same.
- PlayTracks: is about runs in which the 32-bit version does not wrap, like LostIffBehind; `AdvanceIff` and `LostUntilWrap` say what holds when it does.
- ReadersConverge: is about runs without a clear in which the 32-bit version does not wrap; after a wrap replays can skip events, as `WrapRevivesLostConsumer` shows.
- Destroy: the scheduler lets no accepted enqueue in, because stop is set before anyone else moves; `ShutdownCompletes` covers the runs before.
- Copy: requires capacity at least 1, as do Swap and Take, because the source divides by the capacity.
- Callers changing a consumer's protected state, and what happens after an assertion has failed in a build that checks it.
- Futures, argument binding and exceptions thrown by tasks of the thread pool: a task is an identifier that returns.
- Races on the tracer's unlocked reads, and lock order: each tracer operation is one step.
- The text of a single event record, its timestamps and thread identifiers, and whether it is well-formed JSON.
- UUID generation, comparison, exclusive-or, raw copies and the debug string.
- The begin and end macros of `src/util/TraceMacros.h`: the end macro emits a begin phase.
- gRPC, configuration, network, logging, time and random helpers: library calls, sockets, files and clocks.
