/**
 * The History object of the library: a map from timepoints to buckets of
 * event records and the list of issued handles, updated in place by
 * scheduling, unscheduling and teardown, and read by counting, listing and
 * replay.  The caller's destroy callbacks are recorded, in call order, in
 * `destroyed`; the caller's apply callbacks are the `run` parameter of
 * StateDelta.
 */
module History {
  import opened Wrappers
  import opened Events
  import opened Buckets
  import opened Applier
  import opened Timeline
  import opened DestroyLog

  class History {
    /** timepoint_hash_map: one bucket per timepoint that has events. */
    var buckets: map<int, seq<Record>>
    /** event_handle_list: every handle issued and not yet consumed, in issue order. */
    var handles: seq<Handle>
    /** The identity the next scheduled record receives (a fresh list node). */
    var nextId: nat
    /** The records whose destroy function has been called, in call order. */
    var destroyed: seq<Record>

    /** rwn_history_create: an empty history. */
    constructor ()
      ensures Inv(buckets, handles, nextId) && DestroyedOnce(buckets, destroyed, nextId)
      ensures buckets == map[] && handles == [] && destroyed == [] && nextId == 0
    {
      buckets, handles, nextId, destroyed := map[], [], 0, [];
    }

    /**
     * rwn_history_schedule.  A negative timepoint is refused (NULL) and
     * nothing changes.  Otherwise the record is appended to its bucket
     * (created if absent), the bucket is stably re-sorted by phase, and a
     * new handle is registered and returned.
     */
    method Schedule(t: int, phase: int, payload: Ptr, apply: Option<FuncId>, destroy: Option<FuncId>)
      returns (h: Option<Handle>)
      requires Inv(buckets, handles, nextId)
      modifies this
      ensures Inv(buckets, handles, nextId)
      ensures t < 0 ==> h == None && unchanged(this)
      ensures 0 <= t ==>
        var r := Record(old(nextId), payload, apply, destroy, phase);
        && h == Some(Handle(t, r.id))
        && buckets == ScheduleAt(old(buckets), t, r)
        && handles == old(handles) + [h.value]
        && destroyed == old(destroyed)
        && nextId == old(nextId) + 1
      ensures 0 <= t ==> HasRecord(buckets, h.value) && h.value !in old(handles)
      ensures forall u :: |BucketAt(buckets, u)| == |BucketAt(old(buckets), u)| + (if 0 <= t && u == t then 1 else 0)
      ensures old(DestroyedOnce(buckets, destroyed, nextId)) ==> DestroyedOnce(buckets, destroyed, nextId)
    {
      if t < 0 {
        return None;
      }
      var events := if t in buckets then buckets[t] else [];
      var r := Record(nextId, payload, apply, destroy, phase);
      var sorted := SortByPhase(events + [r]);
      SortAppended(buckets, t, r);
      ScheduleKeepsInv(buckets, handles, nextId, t, r);
      ghost var index0 := buckets;
      assert events == BucketAt(buckets, t);
      assert sorted == InsertByPhase(BucketAt(buckets, t), r);
      buckets := buckets[t := sorted];
      nextId := nextId + 1;
      h := Some(Handle(t, r.id));
      handles := handles + [h.value];
      if DestroyedOnce(index0, destroyed, r.id) {
        ScheduleKeepsDestroyed(index0, destroyed, r.id, t, r);
      }
    }

    /** rwn_history_count_events: 0 for a negative or absent timepoint,
        otherwise the size of the bucket, records without apply function included. */
    method CountEvents(t: int) returns (n: int)
      ensures t < 0 ==> n == 0
      ensures 0 <= t ==> n == |BucketAt(buckets, t)|
    {
      if t < 0 {
        return 0;
      }
      if t in buckets {
        return |buckets[t]|;
      }
      return 0;
    }

    /** is_event_handle_valid: the handle's bucket exists and still holds its record. */
    method IsEventHandleValid(h: Handle) returns (found: bool)
      ensures found <==> HasRecord(buckets, h)
    {
      if h.timepoint !in buckets {
        return false;
      }
      var events := buckets[h.timepoint];
      if events == [] {
        return false;
      }
      found := false;
      var i := 0;
      while i < |events|
        invariant 0 <= i <= |events|
        invariant !found
        invariant forall k :: 0 <= k < i ==> events[k].id != h.id
      {
        if events[i].id == h.id {
          found := true;
          break;
        }
        i := i + 1;
      }
      if !found {
        assert h.id !in Ids(events) by {
          forall x | x in events ensures x.id != h.id {
            var k :| 0 <= k < |events| && events[k] == x;
          }
        }
      }
    }

    /**
     * rwn_history_unschedule.  The handle must be valid (the source asserts
     * it).  The record's destroy function is called if present, the record
     * is unlinked, an emptied bucket is evicted, and the handle is dropped;
     * the history invariant and the destroy log invariant are kept.
     */
    method Unschedule(h: Handle)
      requires Inv(buckets, handles, nextId) && HasRecord(buckets, h)
      modifies this`buckets, this`handles, this`destroyed
      ensures Inv(buckets, handles, nextId)
      ensures buckets == UnscheduleFrom(old(buckets), h)
      ensures handles == RemoveHandle(old(handles), h)
      ensures destroyed == old(destroyed) + DestroyCallOf(old(buckets), h)
      ensures h !in handles && !HasRecord(buckets, h) && |handles| == |old(handles)| - 1
      ensures old(DestroyedOnce(buckets, destroyed, nextId)) ==> DestroyedOnce(buckets, destroyed, nextId)
    {
      ghost var index0, handles0, log0 := buckets, handles, destroyed;
      Unlink(h);
      UnscheduleKeepsInv(index0, handles0, nextId, h);
      if DestroyedOnce(index0, log0, nextId) {
        UnscheduleKeepsDestroyed(index0, handles0, nextId, log0, h);
      }
    }

    /**
     * The steps of rwn_history_unschedule, also taken for each handle of
     * rwn_history_unschedule_all: the new state is stated by UnscheduleFrom
     * and RemoveHandle, whose invariant UnscheduleKeepsInv proves.
     */
    method Unlink(h: Handle)
      requires Inv(buckets, handles, nextId) && HasRecord(buckets, h)
      modifies this`buckets, this`handles, this`destroyed
      ensures buckets == UnscheduleFrom(old(buckets), h)
      ensures handles == RemoveHandle(old(handles), h)
      ensures destroyed == old(destroyed) + DestroyCallOf(old(buckets), h)
      ensures h !in handles && !HasRecord(buckets, h) && |handles| == |old(handles)| - 1
    {
      var events := buckets[h.timepoint];
      UnschedulePick(buckets, handles, nextId, h);
      var k := IndexOfId(events, h.id);
      var e := events[k];
      if e.destroy.Some? {
        destroyed := destroyed + [e];
      }
      events := events[..k] + events[k + 1..];
      var index := if |events| == 0 then buckets - {h.timepoint} else buckets[h.timepoint := events];
      assert index == UnscheduleFrom(buckets, h);
      buckets := index;
      handles := RemoveHandle(handles, h);
    }

    /**
     * rwn_history_unschedule_all.  An invalid range (a negative bound, or
     * finish before start) removes nothing and returns 0.  Otherwise every
     * registered handle whose timepoint lies in [start, finish] is
     * unscheduled, in registry order, and their number is returned.
     */
    method UnscheduleAll(start: int, finish: int) returns (count: int)
      requires Inv(buckets, handles, nextId)
      modifies this`buckets, this`handles, this`destroyed
      ensures Inv(buckets, handles, nextId) && nextId == old(nextId)
      ensures (start < 0 || finish < 0 || finish < start) ==>
        count == 0 && unchanged(this)
      ensures 0 <= start <= finish ==>
        && count == |HandlesIn(old(handles), start, finish)|
        && handles == HandlesOutside(old(handles), start, finish)
        && buckets == DropRange(old(buckets), start, finish)
        && destroyed == old(destroyed) + DestroyCallsOf(old(buckets), HandlesIn(old(handles), start, finish))
        && count == |StoredIn(old(buckets), start, finish)|
      ensures old(DestroyedOnce(buckets, destroyed, nextId)) ==> DestroyedOnce(buckets, destroyed, nextId)
    {
      if start < 0 || finish < 0 {
        return 0;
      }
      if finish < start {
        return 0;
      }
      count := 0;
      ghost var index0, log0 := buckets, destroyed;
      ghost var taken: seq<Handle> := [];
      var hs := handles;
      var i := 0;
      SweepStart(index0, log0, hs, nextId, start, finish);
      while i < |hs|
        invariant i <= |hs|
        invariant SweepState(index0, log0, hs, start, finish, i, taken, count, buckets, handles, nextId, destroyed)
        modifies this`buckets, this`handles, this`destroyed
      {
        count, taken := SweepOne(index0, log0, hs, start, finish, i, taken, count);
        i := i + 1;
      }
      SweepDone(index0, log0, hs, start, finish, taken, count, buckets, handles, nextId, destroyed);
      RangeCount(index0, hs, nextId, start, finish);
      if DestroyedOnce(index0, log0, nextId) {
        UnscheduleAllKeepsDestroyed(index0, hs, nextId, log0, start, finish);
      }
    }

    /** One iteration of the unschedule_all loop: the snapshot's i-th handle
        is unscheduled when its timepoint lies in [start, finish]. */
    method SweepOne(ghost index0: map<int, seq<Record>>, ghost log0: seq<Record>, hs: seq<Handle>,
                    start: int, finish: int, i: int, ghost taken: seq<Handle>, count: int)
      returns (count': int, ghost taken': seq<Handle>)
      requires i < |hs|
      requires SweepState(index0, log0, hs, start, finish, i, taken, count, buckets, handles, nextId, destroyed)
      modifies this`buckets, this`handles, this`destroyed
      ensures SweepState(index0, log0, hs, start, finish, i + 1, taken', count', buckets, handles, nextId, destroyed)
    {
      var eh := hs[i];
      if start <= eh.timepoint && eh.timepoint <= finish {
        SweepTake(index0, log0, hs, start, finish, i, taken, count, buckets, handles, nextId, destroyed);
        Unlink(eh);
        count', taken' := count + 1, taken + [eh];
      } else {
        SweepSkip(index0, log0, hs, start, finish, i, taken, count, buckets, handles, nextId, destroyed);
        count', taken' := count, taken;
      }
    }

    /**
     * rwn_history_get_events: writes the payloads of the bucket at `t`,
     * in bucket order, to the caller's buffer, which must hold at least
     * CountEvents(t) entries, and returns their number.
     */
    method GetEvents(t: int, out: array<Ptr>) returns (n: int)
      requires t < 0 || |BucketAt(buckets, t)| <= out.Length
      modifies out
      ensures n == if t < 0 then 0 else |BucketAt(buckets, t)|
      ensures forall k :: 0 <= k < n ==> out[k] == BucketAt(buckets, t)[k].payload
      ensures forall k :: n <= k < out.Length ==> out[k] == old(out[k])
    {
      var c := CountEvents(t);
      if c <= 0 {
        return 0;
      }
      var events := buckets[t];
      n := 0;
      while n < |events|
        invariant 0 <= n <= |events|
        invariant forall k :: 0 <= k < n ==> out[k] == events[k].payload
        invariant forall k :: n <= k < out.Length ==> out[k] == old(out[k])
      {
        out[n] := events[n].payload;
        n := n + 1;
      }
    }

    /**
     * rwn_history_state_delta.  An invalid range applies nothing and
     * returns 0.  Otherwise the timepoints start..finish are visited in
     * ascending order and each bucket's records with a payload and an apply
     * function are applied in bucket order; the result is their number.
     * With maxThreads > 0 the records are dispatched in batches, which the
     * ghost `batches` records.  The history itself is not modified.
     */
    method StateDelta<S>(start: int, finish: int, state: S, maxThreads: int, run: (FuncId, nat, S) -> S)
      returns (count: int, ghost batches: seq<seq<Record>>, state': S)
      ensures (start < 0 || finish < 0 || finish < start) ==> count == 0 && state' == state
      ensures 0 <= start <= finish ==>
        && count == |ReplayRange(buckets, start, finish)|
        && state' == Replay(run, ReplayRange(buckets, start, finish), state)
      ensures (start < 0 || finish < 0 || finish < start) ==> batches == []
      ensures 0 <= start <= finish ==>
        batches == if 0 < maxThreads then BatchRange(buckets, start, finish, maxThreads) else []
    {
      batches := [];
      if start < 0 || finish < 0 {
        return 0, [], state;
      }
      if finish < start {
        return 0, [], state;
      }
      count, batches, state' := ReplayTimepoints(buckets, start, finish, state, maxThreads, run);
    }

    /**
     * rwn_history_destroy.  Every bucket is visited once, in an order the
     * hash table decides; each record's destroy function is called if
     * present, and the bucket is dropped.  Then every handle is dropped.
     * No apply function is ever called.
     */
    method Destroy()
      modifies this
      ensures Inv(buckets, handles, nextId) && buckets == map[] && handles == [] && nextId == old(nextId)
      ensures exists order: seq<int> ::
        && NoRepeats(order)
        && (forall t :: t in order <==> t in old(buckets))
        && destroyed == old(destroyed) + TeardownCalls(old(buckets), order)
      ensures old(Inv(buckets, handles, nextId) && DestroyedOnce(buckets, destroyed, nextId)) ==>
        DestroyedOnce(buckets, destroyed, nextId)
    {
      ghost var index0, handles0, log0 := buckets, handles, destroyed;
      ghost var order := DestroyBuckets();
      FreeHandles();
      InvEmpty(nextId);
      if Inv(index0, handles0, nextId) && DestroyedOnce(index0, log0, nextId) {
        TeardownKeepsDestroyed(index0, handles0, nextId, log0, order);
      }
    }

    /** The HASH_ITER pass of teardown: the buckets are visited one at a
        time, in the returned order, and each is dropped after its records'
        destroy functions are called. */
    method DestroyBuckets() returns (ghost order: seq<int>)
      modifies this
      ensures buckets == map[] && handles == old(handles) && nextId == old(nextId)
      ensures NoRepeats(order) && forall t :: t in order <==> t in old(buckets)
      ensures destroyed == old(destroyed) + TeardownCalls(old(buckets), order)
    {
      ghost var index0, log0 := buckets, destroyed;
      order := [];
      while buckets != map[]
        invariant buckets == Without(index0, order) && NoRepeats(order)
        invariant forall t :: t in order ==> t in index0
        invariant destroyed == log0 + TeardownCalls(index0, order)
        modifies this`buckets, this`destroyed
        decreases |buckets|
      {
        SomeTimepoint(buckets);
        var t :| t in buckets;
        var calls := DestroyBucket(buckets[t]);
        destroyed := destroyed + calls;
        TeardownStep(index0, order, t, log0);
        buckets := buckets - {t};
        order := order + [t];
      }
      TeardownDone(index0, order);
    }

    /** The LL_FOREACH_SAFE pass of teardown over one bucket: the records
        whose destroy function is called, in call order. */
    method DestroyBucket(events: seq<Record>) returns (calls: seq<Record>)
      ensures calls == DestroyCalls(events)
    {
      calls := [];
      var j := 0;
      while j < |events|
        invariant 0 <= j <= |events|
        invariant calls == DestroyCalls(events[..j])
      {
        DestroyCallsPrefix(events, j);
        if events[j].destroy.Some? {
          calls := calls + [events[j]];
        }
        j := j + 1;
      }
      assert events[..|events|] == events;
    }

    /** The final pass of teardown: every handle is released. */
    method FreeHandles()
      modifies this
      ensures handles == []
      ensures buckets == old(buckets) && destroyed == old(destroyed) && nextId == old(nextId)
    {
      while handles != []
        invariant buckets == old(buckets) && destroyed == old(destroyed) && nextId == old(nextId)
        decreases |handles|
      {
        handles := handles[1..];
      }
    }
  }

  /**
   * The timepoint loop of state_delta over a valid range: each timepoint
   * start..finish is looked up in turn and a non-empty bucket is applied.
   */
  method ReplayTimepoints<S>(index: map<int, seq<Record>>, start: int, finish: int, state: S,
                             maxThreads: int, run: (FuncId, nat, S) -> S)
    returns (count: int, ghost batches: seq<seq<Record>>, state': S)
    requires start <= finish
    ensures count == |ReplayRange(index, start, finish)|
    ensures state' == Replay(run, ReplayRange(index, start, finish), state)
    ensures batches == if 0 < maxThreads then BatchRange(index, start, finish, maxThreads) else []
  {
    count, batches, state' := 0, [], state;
    var i := start;
    while i <= finish
      invariant start <= i <= finish + 1
      invariant count == |ReplayRange(index, start, i - 1)|
      invariant state' == Replay(run, ReplayRange(index, start, i - 1), state)
      invariant batches == if 0 < maxThreads then BatchRange(index, start, i - 1, maxThreads) else []
    {
      ReplayRangeStep(index, start, i, maxThreads, run, state);
      if i in index && index[i] != [] {
        var n, s;
        ghost var bs;
        n, bs, s := ApplyBucket(index[i], maxThreads, state', run);
        count, state' := count + n, s;
        batches := batches + bs;
      }
      i := i + 1;
    }
  }
}
