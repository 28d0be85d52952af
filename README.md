# History: a verified model of rewind's event scheduler

The `rewind` library keeps a *history*: user events scheduled at non-negative
integer timepoints, each with a phase, an optional apply function and an
optional destroy function. The history can count, list, unschedule and replay
them. Replay walks a range of timepoints in ascending order. Within a
timepoint it applies the events in phase order, and events of equal phase
keep their scheduling order. Replay runs either sequentially or in batches of
threads. A batch is joined when max_threads threads are running, and before
every record whose phase differs from the phase of the bucket's first record,
so only the first phase runs in parallel.

The model is in Dafny, one module per file:

| file | module | what it holds |
|---|---|---|
| `wrappers.dfy` | `Wrappers` | `Option` |
| `events.dfy` | `Events` | payload pointers, event records, handles, the phase comparator |
| `buckets.dfy` | `Buckets` | a bucket (the event list of one timepoint) as a sequence: phase-ordered insertion, the stable sort, lookup and removal by record identity |
| `applier.dfy` | `Applier` | replay of one bucket: which records apply, the sequential fold, the dispatch/join partition of the threaded path, and the two per-bucket loops |
| `timeline.dfy` | `Timeline` | the timepoint map: the history invariant, scheduling and unscheduling on values, ranges, teardown |
| `history.dfy` | `History` | `class History`, whose methods update the map, the handle list and the destroy log in place |
| `destroy_log.dfy` | `DestroyLog` | what the destroy log says about the records: the records a range unschedule destroys and how many it removes, and the invariant that no record is destroyed twice |
| `scenarios.dfy` | `Scenarios` | the phase-ordering scenario of the test suite, computed on the model |

### Representation
- A record's list node is represented by its identity `id`: a fresh number
  per scheduled event (`nextId`).
- A handle is `(timepoint, id)`.
- The hash map of timepoints is a `map<int, seq<Record>>`.
- The handle list is a `seq<Handle>` in issue order.
- Calls to destroy functions are appended, in call order, to the log
  `destroyed`.
- Apply functions are the parameter `run: (FuncId, nat, S) -> S` of
  `StateDelta`, over any state type `S`.

### The invariant `Timeline.Inv`
- Every bucket is non-empty and ordered by (phase, id).
- Record ids are unique across the whole history.
- The handle list holds exactly one handle per live record.
- Every id is below `nextId`.

The constructor establishes `Inv`, and the public operations `Schedule`,
`Unschedule`, `UnscheduleAll` and `Destroy` keep it. The internal steps
`Unlink`, `DestroyBuckets` and `FreeHandles` state their new state exactly,
without `Inv`: `Unlink` is the unschedule step that `UnscheduleAll` repeats,
and `Inv` holds again after `Destroy` has taken both of its steps.

### The destroy log `DestroyLog.DestroyedOnce`
- No record appears twice in `destroyed`.
- Every logged record has an id below `nextId`.
- No stored record has the id of a logged one.

Together these say that a record's destroy function is called at most once
over the life of a history, whichever of unschedule, unschedule_all or
teardown removes it, and never for a record that is still stored. The
constructor establishes it, and `Schedule`, `Unschedule`, `UnscheduleAll`
and `Destroy` keep it.

## Model

| member | source | states |
|---|---|---|
| Events.ComparePhase | rewind/src/history.c:96-104 | negative, positive or zero exactly when lhs's phase is below, above or equal to rhs's; the result is one of -1, 0, 1 |
| Buckets.InsertByPhase | rewind/src/history.c:132-135 | the phase-ordered insertion of a new record into a bucket grows it by exactly one; its placement, members and order are the lemmas below |
| Buckets.InsertByPhasePlacement | rewind/src/history.c:132-135 | on a phase-sorted bucket, the new record lands after every record of phase <= its own and before every record of greater phase; the rest keep their order |
| Buckets.InsertByPhasePermutes | rewind/src/history.c:132-135 | scheduling adds exactly the new record to the bucket's multiset |
| Buckets.InsertByPhaseMembers | rewind/src/history.c:132-135 | a record is in the new bucket iff it was in the old one or is the new record |
| Buckets.InsertByPhaseSorted | rewind/src/history.c:132-135 | insertion keeps a bucket sorted ascending by phase |
| Buckets.InsertByPhaseOrdered | rewind/src/history.c:132-135 | a record newer than all others keeps the bucket ordered by phase and then by scheduling order |
| Buckets.InsertByPhaseDistinct | rewind/src/history.c:126-135 | inserting a fresh record keeps record identities distinct |
| Buckets.InsertByPhaseStable | rewind/src/history.c:132-135 | for every phase p, the records of phase p after insertion are those before it, with the new record appended when its phase is p |
| Buckets.SortByPhase | rewind/src/history.c:135 | the stable sort keeps the length and is a permutation of the bucket |
| Buckets.SortByPhaseSorted | rewind/src/history.c:135 | the sort's output is sorted ascending by phase |
| Buckets.SortByPhaseStable | rewind/src/history.c:135 | the sort keeps the relative order of the records of every phase |
| Buckets.SortByPhaseOfSorted | rewind/src/history.c:135 | sorting an already sorted bucket leaves it unchanged |
| Buckets.InsertAfterLast | rewind/src/history.c:132-135 | a record whose phase is at least the last record's is simply appended |
| Buckets.AppendThenSort | rewind/src/history.c:132-135 | appending then sorting a sorted bucket is the same as inserting after the records of lower or equal phase |
| Buckets.IndexOfId | rewind/src/history.c:174-179 | the position of the first record with the given identity, or the bucket length if none has it |
| Buckets.Find | rewind/src/history.c:174-181 | a record is found iff some record of the bucket has the identity, and what is found is that record |
| Buckets.RemoveId | rewind/src/history.c:197 | unlinking by identity shortens the bucket by one exactly when the identity is present, keeps only records of the bucket, and keeps every record with another identity |
| Buckets.RemoveIdMembers | rewind/src/history.c:197 | unlinking removes exactly the record with that identity and shortens the bucket by one when it was present |
| Buckets.RemoveIdKeepsOrder | rewind/src/history.c:197 | unlinking keeps the bucket ordered with distinct identities |
| Applier.Applies | rewind/src/history.c:302-303 | the test on a non-NULL payload and apply function, defined here; `Applier.ApplicableMembers` states what it selects |
| Applier.Step | rewind/src/history.c:354-356 | one record's apply call, or nothing when the record does not apply, defined here; `Applier.Replay` and `Applier.ReplayAppend` state its fold |
| Applier.Applicable | rewind/src/history.c:352-359 | the records replayed from a bucket are no more than the bucket holds, and each has a non-NULL payload and an apply function |
| Applier.Replay | rewind/src/history.c:352-359 | replay folds `Step` (apply when the record applies, skip otherwise) over the records in order; a stretch in which no record applies leaves the state unchanged |
| Applier.Dispatch | rewind/src/history.c:293-347 | the dispatch/join loop over a bucket never forms an empty batch |
| Applier.Batches | rewind/src/history.c:293-347 | the batches of one bucket, concatenated, are exactly its applicable records in bucket order |
| Applier.ApplicableMembers | rewind/src/history.c:302-303 | a record is applied iff it is in the bucket and has a non-NULL payload and an apply function |
| Applier.ApplicableSorted | rewind/src/history.c:301-303 | skipping records keeps the phase order of those applied |
| Applier.ApplicableAppend | rewind/src/history.c:353-359 | the records applied from two consecutive stretches are those of the first followed by those of the second |
| Applier.ReplayAppend | rewind/src/history.c:286-289 | replaying two consecutive stretches of records is replaying the second on the result of the first |
| Applier.Join | rewind/src/history.c:316-321 | a join releases the in-flight records as one batch, or nothing when none are in flight, defined here; `Applier.FlattenJoin` states it |
| Applier.FlattenJoin | rewind/src/history.c:316-321 | one join releases the in-flight records in dispatch order |
| Applier.DispatchFlatten | rewind/src/history.c:301-347 | the dispatch/join batches, concatenated, are exactly the in-flight records followed by the applicable records in bucket order |
| Applier.DispatchBounded | rewind/src/history.c:310-312 | every batch has between 1 and max_threads records |
| Applier.DispatchSinglePhase | rewind/src/history.c:304-312 | on a sorted bucket every batch holds records of one phase only |
| Applier.DispatchLaterPhasesAlone | rewind/src/history.c:299-312 | prev_phase is never updated, so after the first record of a batch, every record has the bucket's first phase; later phases run one record per batch |
| Applier.BatchesShape | rewind/src/history.c:293-347 | the batches of a sorted bucket concatenate to the sequential order, are single-phase, hold at most max_threads records, and a batch of a later phase is a singleton |
| Applier.JoinedReplay | rewind/src/history.c:343-347 | joining the remaining threads continues the replay with the in-flight records |
| Applier.ApplySequential | rewind/src/history.c:349-359 | the loop counts the applicable records and leaves the state replayed over them in bucket order |
| Applier.ApplyBucket | rewind/src/history.c:293-359 | one non-empty bucket's pass counts its applicable records, replays them in bucket order, and forms the dispatch/join batches exactly when max_threads > 0 |
| Applier.JoinAll | rewind/src/history.c:316-321 | joining applies the in-flight records in dispatch order |
| Applier.ApplyThreaded | rewind/src/history.c:293-347 | the loop counts the applicable records, forms exactly the dispatch/join batches, and leaves the state replayed in bucket order |
| Timeline.HasRecord | rewind/src/history.c:162-182 | a valid handle has a non-empty bucket at its timepoint |
| Timeline.RecordOf | rewind/src/history.c:162-182 | a handle resolves to a record iff it is valid, and the record is in the handle's bucket with the handle's identity |
| Timeline.BucketSorted | rewind/src/history.c:132-135 | every bucket of a well-formed history, present or absent, is ordered and sorted by phase |
| Timeline.SortAppended | rewind/src/history.c:132-135 | append-then-sort on a stored bucket is the phase-ordered insertion |
| Timeline.RegisteredIffValid | rewind/src/history.c:138-142 | under the invariant a handle is registered iff it is valid, i.e. its record is still in its bucket |
| Timeline.IndexOfHandle | rewind/src/history.c:210 | the position of the first occurrence of a handle in the handle list, or its length |
| Timeline.RemoveHandle | rewind/src/history.c:210 | the `LL_DELETE` of the handle from the handle list, defined here; `Timeline.RemoveHandleProperties` states its meaning |
| Timeline.RemoveHandleProperties | rewind/src/history.c:210 | dropping a handle removes exactly that handle, keeps identities distinct, and shortens the list by one when it was present |
| Timeline.ScheduleKeepsInv | rewind/src/history.c:106-145 | scheduling a fresh record at t >= 0 keeps the invariant, makes the new handle valid, and grows exactly bucket t by one |
| Timeline.ScheduleAt | rewind/src/history.c:115-135 | scheduling at t creates bucket t if absent and grows it by one, and leaves every other bucket unchanged |
| Timeline.ScheduleMembers | rewind/src/history.c:116-132 | after scheduling, the records stored are the old ones plus the new one at t |
| Timeline.ScheduleWellFormed | rewind/src/history.c:116-135 | scheduling keeps buckets non-empty, ordered and with distinct identities |
| Timeline.ScheduleFresh | rewind/src/history.c:126-142 | the new record's identity is fresh and the counter moves past it |
| Timeline.ScheduleRegistry | rewind/src/history.c:138-142 | the appended handle is the one handle of the new record |
| Timeline.UnscheduleKeepsInv | rewind/src/history.c:184-212 | unscheduling a valid handle keeps the invariant, shrinks its bucket by one, evicts the bucket iff it held only that record, leaves every other bucket alone and invalidates the handle |
| Timeline.UnscheduleFrom | rewind/src/history.c:190-206 | unscheduling keeps the handle's bucket non-empty or evicts it, shrinks it by one when the handle is valid, and leaves every other bucket unchanged |
| Timeline.DestroyCallOf | rewind/src/history.c:192-194 | the destroy call unscheduling one handle makes, defined here; `Timeline.UnschedulePick` states it |
| Timeline.DestroyCallsOf | rewind/src/history.c:192-194 | the destroy calls made unscheduling a list of handles in order, defined here; `DestroyLog.DestroyCallsOfMember` and `DestroyLog.RangeDestroyCalls` state them |
| Timeline.UnschedulePick | rewind/src/history.c:192-210 | a valid handle's record is found; the destroy call is made for it iff it has a destroy function; the registered handle is dropped; the bucket is spliced or evicted |
| Timeline.UnscheduleMembers | rewind/src/history.c:197-206 | after unscheduling, the records stored are exactly the old ones except the handle's record |
| Timeline.UnscheduleFresh | rewind/src/history.c:197-211 | unscheduling keeps every identity below the counter |
| Timeline.UnscheduleRegistry | rewind/src/history.c:197-211 | after unscheduling, the handles left are exactly one per remaining record |
| Timeline.ReplayRange | rewind/src/history.c:286-289 | every record replayed over a range applies |
| Timeline.BatchRange | rewind/src/history.c:286-289 | the batches over a range, concatenated, are exactly the records replayed sequentially |
| Timeline.ReplayRangeStep | rewind/src/history.c:286-289 | extending a range by one timepoint appends that timepoint's applicable records and batches; an absent timepoint adds nothing |
| Timeline.ReplayRangeSplit | rewind/src/history.c:286 | a range replays as its first part followed by its second part |
| Timeline.ReplayRangeMembers | rewind/src/history.c:286-303 | a record is replayed over [lo, hi] iff it applies and is stored at some timepoint of the range |
| Timeline.BatchRangeShape | rewind/src/history.c:286-347 | over a range, the batches concatenate to the sequential replay, and each is single-phase with at most max_threads records |
| Timeline.DropRange | rewind/src/history.c:214-235 | a timepoint stays in the map iff it was there and lies outside the range |
| Timeline.HandlesIn | rewind/src/history.c:228 | the registered handles that pass the range test, in order, defined here; `DestroyLog.HandlesInMembers` states them |
| Timeline.HandlesOutside | rewind/src/history.c:228 | the registered handles that fail the range test, in order, defined here; `Timeline.HandlesOutsideMembers` states them |
| Timeline.HandlesOutsideMembers | rewind/src/history.c:227-232 | the handles kept are exactly those whose timepoint lies outside the inclusive range |
| Timeline.RangeDropped | rewind/src/history.c:227-232 | after the sweep, the map is the original with every bucket of the range removed |
| Timeline.SweepStart | rewind/src/history.c:223-227 | before the sweep nothing has been taken and nothing destroyed |
| Timeline.SweepTake | rewind/src/history.c:228-231 | a handle in range is still valid when reached, and unscheduling it advances the sweep: one more taken, its destroy call logged |
| Timeline.SweepSkip | rewind/src/history.c:228 | a handle outside the range is kept and the sweep advances |
| Timeline.SweepDone | rewind/src/history.c:227-234 | at the end the invariant holds, the count is the number of handles in range, the kept handles are those outside it, the map has lost exactly the range, and the destroy calls are those of the taken records in handle order |
| Timeline.TeardownStep | rewind/src/history.c:71-83 | tearing down one more bucket removes exactly that timepoint and logs its destroy calls after those before it |
| Timeline.TeardownDone | rewind/src/history.c:71-83 | when the map is empty, every timepoint was torn down |
| Timeline.InvEmpty | rewind/src/history.c:57-66 | the empty history satisfies the invariant |
| Timeline.DestroyCalls | rewind/src/history.c:71-83 | a bucket's teardown makes no more destroy calls than the bucket has records, each for a record with a destroy function (one call per record is `Timeline.DestroyCallsMembers`) |
| Timeline.TeardownCalls | rewind/src/history.c:71-83 | every destroy call of a teardown is for a record with a destroy function |
| Timeline.DestroyCallsPrefix | rewind/src/history.c:74-80 | walking a bucket calls destroy for each record that has a destroy function, in bucket order |
| Timeline.DestroyCallsMembers | rewind/src/history.c:74-80 | a bucket's teardown destroys exactly its records that have a destroy function, each once |
| Timeline.IdsUnique | rewind/src/history.c:126-142 | under the invariant, two stored records with the same identity are the same record at the same timepoint |
| Timeline.TeardownCallsMembers | rewind/src/history.c:68-83 | tearing down a set of timepoints destroys exactly their records that have a destroy function |
| Timeline.TeardownCallsDistinct | rewind/src/history.c:68-83 | no record is destroyed twice by a teardown |
| Timeline.TeardownDestroysEachOnce | rewind/src/history.c:68-94 | destroy calls every stored record's destroy function, when present, exactly once |
| History.History.constructor | rewind/src/history.c:57-66 | a new history is empty, has no handles and satisfies the invariant and the destroy log invariant |
| History.History.Schedule | rewind/src/history.c:106-145 | a negative timepoint yields NULL and changes nothing; otherwise one fresh record is inserted in phase order at t, one handle for it is appended and returned, bucket t grows by one and every other bucket is unchanged, and the invariant and the destroy log invariant are kept |
| History.History.CountEvents | rewind/src/history.c:147-160 | 0 for a negative or absent timepoint, otherwise the size of the bucket |
| History.History.IsEventHandleValid | rewind/src/history.c:162-182 | true iff the handle's timepoint has a bucket holding the handle's record |
| History.History.Unschedule | rewind/src/history.c:184-212 | requires a valid handle; the record is removed (its bucket evicted if emptied), the destroy call is logged iff the record has a destroy function, the handle is dropped, nothing else changes, and both the invariant and the destroy log invariant are kept |
| History.History.Unlink | rewind/src/history.c:184-212 | the unschedule step on its own: the new map, handle list and destroy log are `UnscheduleFrom`, `RemoveHandle` and the record's destroy call, applied to the old state |
| History.History.UnscheduleAll | rewind/src/history.c:214-235 | an invalid range returns 0 and changes nothing; otherwise it returns the number of handles in the inclusive range, removes exactly their records and buckets, keeps the other handles in order, logs their destroy calls in handle order, and keeps the invariant and the destroy log invariant; the count is the number of records stored in the range |
| History.History.GetEvents | rewind/src/history.c:237-256 | writes the payloads of bucket t in stored order into the first count slots, returns that count (0 for a negative or absent timepoint), and leaves the rest of the array alone |
| History.History.StateDelta | rewind/src/history.c:273-365 | an invalid range returns 0 and leaves the state; otherwise it returns the number of applicable records in the range and the state replayed over them in ascending timepoint and bucket order, and for max_threads > 0 the dispatch/join batches; it modifies nothing |
| History.History.SweepOne | rewind/src/history.c:227-232 | one sweep step unschedules the snapshot's next handle when its timepoint is in range and skips it otherwise, keeping the sweep state |
| History.History.Destroy | rewind/src/history.c:68-94 | afterwards there are no buckets and no handles, and some order of the timepoints, each once, gives the destroy calls: every stored record with a destroy function, bucket by bucket; from a history satisfying both invariants, the destroy log invariant still holds |
| History.History.DestroyBuckets | rewind/src/history.c:70-83 | the hash-iteration loop empties the map and logs each bucket's destroy calls once, in some order of the timepoints |
| History.History.DestroyBucket | rewind/src/history.c:73-80 | the list walk returns the bucket's destroy calls in bucket order |
| History.History.FreeHandles | rewind/src/history.c:86-90 | the handle list ends empty and nothing else changes |
| History.ReplayTimepoints | rewind/src/history.c:286-363 | walking timepoints start..finish counts the records replayed over the range, leaves the state replayed over them, and forms the range's batches when max_threads > 0 |
| DestroyLog.HandlesInMembers | rewind/src/history.c:227-232 | the handles a range unschedule takes are exactly the registered handles whose timepoint lies in the range |
| DestroyLog.HandlesInDistinct | rewind/src/history.c:227-232 | the handles taken keep distinct identities |
| DestroyLog.DistinctHandlesCard | rewind/src/history.c:227-233 | handles with distinct identities are as many as the set they form |
| DestroyLog.DestroyCallsOfMember | rewind/src/history.c:192-206 | unscheduling a list of handles destroys exactly the records they refer to that have a destroy function |
| DestroyLog.DestroyCallsOfDistinct | rewind/src/history.c:192-206 | handles with distinct identities destroy records with distinct identities |
| DestroyLog.RecordOfStored | rewind/src/history.c:162-182 | under the invariant every stored record is the one its handle resolves to |
| DestroyLog.RangeDestroyCalls | rewind/src/history.c:214-235 | under the invariant unschedule_all destroys exactly the stored records of the range that have a destroy function, each once |
| DestroyLog.RangeCount | rewind/src/history.c:214-235 | under the invariant the count unschedule_all returns is the number of records stored in the range |
| DestroyLog.ScheduleKeepsDestroyed | rewind/src/history.c:106-145 | scheduling a fresh record keeps the destroy log invariant |
| DestroyLog.UnscheduleKeepsDestroyed | rewind/src/history.c:184-212 | unscheduling a valid handle keeps the destroy log invariant: its record is logged at most once and is no longer stored |
| DestroyLog.UnscheduleAllKeepsDestroyed | rewind/src/history.c:214-235 | unscheduling a range keeps the destroy log invariant |
| DestroyLog.TeardownKeepsDestroyed | rewind/src/history.c:68-94 | a teardown that visits every bucket once keeps the destroy log invariant and leaves nothing stored |
| Scenarios.InsertSteps | tests/tst_history.c:304-313 | each of the four phase-ordered insertions of the scenario gives the expected bucket |
| Scenarios.ScheduleIntoOne | tests/tst_history.c:304-313 | on a map with at most timepoint t, scheduling at t is the one-bucket map with the record inserted |
| Scenarios.ScheduledBucket | tests/tst_history.c:304-313 | scheduling +1 (phase 1), *1 (phase 0), +2 (phase 1), *2 (phase 0) at timepoint 0 stores *1, *2, +1, +2 |
| Scenarios.ReplayBucket | tests/tst_history.c:291-302 | replaying that bucket maps s to 2s + 3 |
| Scenarios.ScheduledRange | tests/tst_history.c:324-325 | replaying the range [0, 0] applies all four records in stored order |
| Scenarios.PhasesScenario | tests/tst_history.c:324-330 | replaying [0, 0] gives 3 from state 0 and 5 from state 1 |

## Left out

- Threads: pthread creation and joining, and races on the shared state, are not modelled (rewind/src/history.c:258-271). The threaded path is modelled by its deterministic dispatch/join partition (`Batches`). The state is replayed batch by batch in stored order, which is one of the orders the real threads may take.
- Memory: malloc, free and unchecked allocation failures are not modelled. Record and handle pointers are identities, and a freed node is one whose identity no longer appears in the map or the handle list.
- Hash map and list internals: uthash is a finite `map`, and utlist lists are sequences.
- LL_SORT, a stable merge sort in utlist, is modelled by the stable insertion sort `SortByPhase`. It is proved a permutation, sorted and stable, and equal to phase-ordered insertion on an already sorted bucket.
- Destroy: the iteration order of HASH_ITER is not modelled. `History.History.Destroy` only promises that some order of the timepoints, each taken once, produces the destroy calls.
- Destroy never calls an apply function, because only `StateDelta` is given the apply callbacks.
- A NULL state is not checked in sequential mode, as in the code: the code tests only the payload pointer and the apply function (rewind/src/history.c:354-355). A NULL state is not a special case, and states are values of an arbitrary type `S`.
- `int` overflow of the loop counter in `rwn_history_state_delta` when `finish_timepoint` is INT_MAX (rewind/src/history.c:286) is not modelled: timepoints are mathematical integers.
- `History.History.GetEvents` requires the caller's array to hold the bucket. The C code writes past the end of a smaller array, so that behaviour is not modelled.
- The test suite's floating-point states and its SIGSEGV test are not modelled. The phase-ordering scenario uses integer states.
- The test driver is not modelled.
