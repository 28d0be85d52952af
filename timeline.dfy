/**
 * The timepoint index and the handle registry as values: the map from
 * timepoints to buckets, the list of issued handles, the invariant that ties
 * them together, and what scheduling, unscheduling and replay over a range
 * do to them.
 */
module Timeline {
  import opened Wrappers
  import opened Events
  import opened Buckets
  import opened Applier

  /** The bucket stored for `t`, or the empty bucket if there is none. */
  function BucketAt(index: map<int, seq<Record>>, t: int): seq<Record> {
    if t in index then index[t] else []
  }

  /** A handle is valid when its timepoint has a bucket holding its record. */
  predicate HasRecord(index: map<int, seq<Record>>, h: Handle)
    ensures HasRecord(index, h) ==> BucketAt(index, h.timepoint) != []
  {
    h.timepoint in index && h.id in Ids(index[h.timepoint])
  }

  /** The record a handle refers to, if it is still stored. */
  function RecordOf(index: map<int, seq<Record>>, h: Handle): (r: Option<Record>)
    ensures r.Some? <==> HasRecord(index, h)
    ensures r.Some? ==> r.value in index[h.timepoint] && r.value.id == h.id
  {
    if h.timepoint in index then Find(index[h.timepoint], h.id) else None
  }

  /** The destroy call, if any, that removing `h`'s record makes. */
  function DestroyCallOf(index: map<int, seq<Record>>, h: Handle): seq<Record> {
    match RecordOf(index, h)
    case Some(r) => if r.destroy.Some? then [r] else []
    case None => []
  }

  /** The destroy calls made by removing the records of `hs`, in order. */
  function DestroyCallsOf(index: map<int, seq<Record>>, hs: seq<Handle>): seq<Record> {
    if hs == [] then []
    else DestroyCallsOf(index, hs[..|hs| - 1]) + DestroyCallOf(index, hs[|hs| - 1])
  }

  /** Buckets exist only for valid timepoints, are never empty and keep the
      phase order, records of equal phase in insertion order. */
  ghost predicate BucketsWellFormed(index: map<int, seq<Record>>) {
    forall t :: t in index ==>
      0 <= t && index[t] != [] && Ordered(index[t]) && DistinctIds(index[t])
  }

  /** Handles and stored records correspond one to one. */
  ghost predicate Registry(index: map<int, seq<Record>>, hs: seq<Handle>) {
    && (forall i, j :: 0 <= i < j < |hs| ==> hs[i].id != hs[j].id)
    && (forall i :: 0 <= i < |hs| ==> HasRecord(index, hs[i]))
    && (forall t, r :: t in index && r in index[t] ==> Handle(t, r.id) in hs)
  }

  /** Every identity in use is below the next one to be issued. */
  ghost predicate Fresh(index: map<int, seq<Record>>, hs: seq<Handle>, nextId: nat) {
    && (forall t, r :: t in index && r in index[t] ==> r.id < nextId)
    && (forall i :: 0 <= i < |hs| ==> hs[i].id < nextId)
  }

  ghost predicate Inv(index: map<int, seq<Record>>, hs: seq<Handle>, nextId: nat) {
    BucketsWellFormed(index) && Registry(index, hs) && Fresh(index, hs, nextId)
  }

  /** Every bucket of a well-formed index, present or not, is sorted. */
  lemma BucketSorted(index: map<int, seq<Record>>, t: int)
    requires BucketsWellFormed(index)
    ensures Ordered(BucketAt(index, t)) && PhaseSorted(BucketAt(index, t))
  {
    if t in index {
      OrderedIsPhaseSorted(index[t]);
    }
  }

  /**
   * Appending a record to a stored bucket and re-sorting it stably by phase
   * is the same as inserting it after the records of lower or equal phase.
   */
  lemma SortAppended(index: map<int, seq<Record>>, t: int, r: Record)
    requires BucketsWellFormed(index)
    ensures SortByPhase(BucketAt(index, t) + [r]) == InsertByPhase(BucketAt(index, t), r)
  {
    BucketSorted(index, t);
    AppendThenSort(BucketAt(index, t), r);
  }

  /** A handle is registered exactly when it is valid. */
  lemma RegisteredIffValid(index: map<int, seq<Record>>, hs: seq<Handle>, nextId: nat, h: Handle)
    requires Inv(index, hs, nextId)
    ensures h in hs <==> HasRecord(index, h)
  {
    if HasRecord(index, h) {
      var r :| r in index[h.timepoint] && r.id == h.id;
      assert Handle(h.timepoint, r.id) in hs;
    }
    if h in hs {
      var i :| 0 <= i < |hs| && hs[i] == h;
    }
  }

  /** Index of the first occurrence of `h` in the registry, or |hs|. */
  function IndexOfHandle(hs: seq<Handle>, h: Handle): (k: nat)
    ensures k <= |hs|
    ensures k < |hs| ==> hs[k] == h
    ensures forall i :: 0 <= i < k ==> hs[i] != h
    decreases |hs|
  {
    if hs == [] then 0
    else if hs[0] == h then 0
    else 1 + IndexOfHandle(hs[1..], h)
  }

  /** Unlink a handle from the registry (LL_DELETE). */
  function RemoveHandle(hs: seq<Handle>, h: Handle): seq<Handle> {
    var k := IndexOfHandle(hs, h);
    if k < |hs| then hs[..k] + hs[k + 1..] else hs
  }

  lemma RemoveHandleProperties(hs: seq<Handle>, h: Handle)
    requires forall i, j :: 0 <= i < j < |hs| ==> hs[i].id != hs[j].id
    ensures var hs' := RemoveHandle(hs, h);
      && (forall i, j :: 0 <= i < j < |hs'| ==> hs'[i].id != hs'[j].id)
      && (forall y :: y in hs' <==> y in hs && y != h)
      && (h in hs ==> |hs'| == |hs| - 1)
  {
    var k := IndexOfHandle(hs, h);
    var hs' := RemoveHandle(hs, h);
    if k < |hs| {
      forall i, j | 0 <= i < j < |hs'| ensures hs'[i].id != hs'[j].id {
        var i' := if i < k then i else i + 1;
        var j' := if j < k then j else j + 1;
        assert hs'[i] == hs[i'] && hs'[j] == hs[j'];
      }
      forall y ensures y in hs' <==> y in hs && y != h {
        if y in hs' {
          var i :| 0 <= i < |hs'| && hs'[i] == y;
          var i' := if i < k then i else i + 1;
          assert hs[i'] == y && i' != k;
          assert hs[i'].id != hs[k].id || i' == k;
        }
        if y in hs && y != h {
          var i :| 0 <= i < |hs| && hs[i] == y;
          if i < k { assert hs'[i] == y; } else { assert hs'[i - 1] == y; }
        }
      }
    }
  }

  /** The index after scheduling `r` at `t`. */
  function ScheduleAt(index: map<int, seq<Record>>, t: int, r: Record): (index': map<int, seq<Record>>)
    ensures t in index' && |index'[t]| == |BucketAt(index, t)| + 1
    ensures forall u :: u != t ==> BucketAt(index', u) == BucketAt(index, u)
  {
    index[t := InsertByPhase(BucketAt(index, t), r)]
  }

  /** Scheduling a fresh record at a valid timepoint, with its handle
      appended to the registry, keeps the invariant. */
  lemma ScheduleKeepsInv(index: map<int, seq<Record>>, hs: seq<Handle>, nextId: nat, t: int, r: Record)
    requires Inv(index, hs, nextId)
    requires 0 <= t && r.id == nextId
    ensures Inv(ScheduleAt(index, t, r), hs + [Handle(t, nextId)], nextId + 1)
    ensures HasRecord(ScheduleAt(index, t, r), Handle(t, nextId)) && Handle(t, nextId) !in hs
    ensures forall u :: |BucketAt(ScheduleAt(index, t, r), u)| == |BucketAt(index, u)| + (if u == t then 1 else 0)
  {
    ScheduleWellFormed(index, hs, nextId, t, r);
    ScheduleRegistry(index, hs, nextId, t, r);
    ScheduleFresh(index, hs, nextId, t, r);
  }

  /** Every record stored after scheduling is the new one or was stored before. */
  lemma ScheduleMembers(index: map<int, seq<Record>>, t: int, r: Record)
    ensures forall u, x :: u in ScheduleAt(index, t, r) && x in ScheduleAt(index, t, r)[u]
              <==> (u in index && x in index[u]) || (u == t && x == r)
  {
    var index' := ScheduleAt(index, t, r);
    InsertByPhaseMembers(BucketAt(index, t), r);
    forall u, x ensures u in index' && x in index'[u] <==> (u in index && x in index[u]) || (u == t && x == r) {
      if u == t {
        assert index'[u] == InsertByPhase(BucketAt(index, t), r);
      }
    }
  }

  lemma ScheduleWellFormed(index: map<int, seq<Record>>, hs: seq<Handle>, nextId: nat, t: int, r: Record)
    requires BucketsWellFormed(index) && Fresh(index, hs, nextId)
    requires 0 <= t && r.id == nextId
    ensures BucketsWellFormed(ScheduleAt(index, t, r))
  {
    var old_b := BucketAt(index, t);
    assert forall x :: x in old_b ==> x.id < r.id;
    InsertByPhaseOrdered(old_b, r);
    InsertByPhaseDistinct(old_b, r);
  }

  lemma ScheduleFresh(index: map<int, seq<Record>>, hs: seq<Handle>, nextId: nat, t: int, r: Record)
    requires Fresh(index, hs, nextId) && r.id == nextId
    ensures Fresh(ScheduleAt(index, t, r), hs + [Handle(t, nextId)], nextId + 1)
  {
    ScheduleMembers(index, t, r);
  }

  lemma ScheduleRegistry(index: map<int, seq<Record>>, hs: seq<Handle>, nextId: nat, t: int, r: Record)
    requires Registry(index, hs) && Fresh(index, hs, nextId)
    requires 0 <= t && r.id == nextId
    ensures Registry(ScheduleAt(index, t, r), hs + [Handle(t, nextId)])
    ensures HasRecord(ScheduleAt(index, t, r), Handle(t, nextId)) && Handle(t, nextId) !in hs
  {
    var index', hs' := ScheduleAt(index, t, r), hs + [Handle(t, nextId)];
    ScheduleMembers(index, t, r);
    assert r in index'[t];
    forall i | 0 <= i < |hs'| ensures HasRecord(index', hs'[i]) {
      if i < |hs| {
        var g := hs[i];
        assert HasRecord(index, g);
        var x :| x in index[g.timepoint] && x.id == g.id;
        assert x in index'[g.timepoint];
      }
    }
    forall u: int, x: Record | u in index' && x in index'[u] ensures Handle(u, x.id) in hs' {
      if !(u == t && x == r) {
        assert Handle(u, x.id) in hs;
      }
    }
    assert forall i :: 0 <= i < |hs| ==> hs[i] != Handle(t, nextId);
  }

  /** The index after unscheduling `h`: its record is unlinked and a bucket
      left empty is evicted. */
  function UnscheduleFrom(index: map<int, seq<Record>>, h: Handle): (index': map<int, seq<Record>>)
    ensures h.timepoint in index' ==> index'[h.timepoint] != []
    ensures |BucketAt(index', h.timepoint)|
         == |BucketAt(index, h.timepoint)| - (if h.id in Ids(BucketAt(index, h.timepoint)) then 1 else 0)
    ensures forall u :: u != h.timepoint ==> BucketAt(index', u) == BucketAt(index, u)
  {
    var b := RemoveId(BucketAt(index, h.timepoint), h.id);
    if b == [] then index - {h.timepoint} else index[h.timepoint := b]
  }

  /** Unscheduling a valid handle keeps the invariant, removes exactly one
      record at the handle's timepoint and evicts the bucket if it empties. */
  lemma UnscheduleKeepsInv(index: map<int, seq<Record>>, hs: seq<Handle>, nextId: nat, h: Handle)
    requires Inv(index, hs, nextId) && HasRecord(index, h)
    ensures Inv(UnscheduleFrom(index, h), RemoveHandle(hs, h), nextId)
    ensures |BucketAt(UnscheduleFrom(index, h), h.timepoint)| == |index[h.timepoint]| - 1
    ensures h.timepoint in UnscheduleFrom(index, h) <==> |index[h.timepoint]| > 1
    ensures forall u :: u != h.timepoint ==> BucketAt(UnscheduleFrom(index, h), u) == BucketAt(index, u)
    ensures !HasRecord(UnscheduleFrom(index, h), h)
  {
    var t := h.timepoint;
    RemoveIdKeepsOrder(index[t], h.id);
    RemoveIdMembers(index[t], h.id);
    RemoveHandleProperties(hs, h);
    RegisteredIffValid(index, hs, nextId, h);
    UnscheduleRegistry(index, hs, nextId, h);
    UnscheduleFresh(index, hs, nextId, h);
  }

  /** The record a valid handle refers to: its position in the bucket, the
      destroy call its removal makes, and its place in the registry. */
  lemma UnschedulePick(index: map<int, seq<Record>>, hs: seq<Handle>, nextId: nat, h: Handle)
    requires Inv(index, hs, nextId) && HasRecord(index, h)
    ensures IndexOfId(index[h.timepoint], h.id) < |index[h.timepoint]|
    ensures var e := index[h.timepoint][IndexOfId(index[h.timepoint], h.id)];
      DestroyCallOf(index, h) == if e.destroy.Some? then [e] else []
    ensures h in hs && h !in RemoveHandle(hs, h) && |RemoveHandle(hs, h)| == |hs| - 1
    ensures var b, k := index[h.timepoint], IndexOfId(index[h.timepoint], h.id);
      UnscheduleFrom(index, h)
        == if |b[..k] + b[k + 1..]| == 0 then index - {h.timepoint} else index[h.timepoint := b[..k] + b[k + 1..]]
    ensures !HasRecord(UnscheduleFrom(index, h), h)
  {
    RegisteredIffValid(index, hs, nextId, h);
    RemoveHandleProperties(hs, h);
    RemoveIdMembers(index[h.timepoint], h.id);
    RemoveIdAt(index[h.timepoint], h.id);
  }

  /** Every record stored after unscheduling `h` was stored before and is not `h`'s. */
  lemma UnscheduleMembers(index: map<int, seq<Record>>, h: Handle)
    requires h.timepoint in index && DistinctIds(index[h.timepoint])
    ensures forall u, x :: u in UnscheduleFrom(index, h) && x in UnscheduleFrom(index, h)[u] ==>
              u in index && x in index[u] && (u == h.timepoint ==> x.id != h.id)
    ensures forall u, x :: u in index && x in index[u] && (u == h.timepoint ==> x.id != h.id) ==>
              u in UnscheduleFrom(index, h) && x in UnscheduleFrom(index, h)[u]
  {
    var t, index' := h.timepoint, UnscheduleFrom(index, h);
    var b := RemoveId(index[t], h.id);
    RemoveIdMembers(index[t], h.id);
    forall u, x | u in index' && x in index'[u]
      ensures u in index && x in index[u] && (u == t ==> x.id != h.id)
    {
      if u == t {
        assert index'[u] == b;
      }
    }
    forall u, x | u in index && x in index[u] && (u == t ==> x.id != h.id)
      ensures u in index' && x in index'[u]
    {
      if u == t {
        assert x in b;
      }
    }
  }

  lemma UnscheduleFresh(index: map<int, seq<Record>>, hs: seq<Handle>, nextId: nat, h: Handle)
    requires Fresh(index, hs, nextId)
    requires h.timepoint in index && DistinctIds(index[h.timepoint])
    requires forall i, j :: 0 <= i < j < |hs| ==> hs[i].id != hs[j].id
    ensures Fresh(UnscheduleFrom(index, h), RemoveHandle(hs, h), nextId)
  {
    UnscheduleMembers(index, h);
    RemoveHandleProperties(hs, h);
    var hs' := RemoveHandle(hs, h);
    forall i | 0 <= i < |hs'| ensures hs'[i].id < nextId {
      assert hs'[i] in hs;
    }
  }

  lemma UnscheduleRegistry(index: map<int, seq<Record>>, hs: seq<Handle>, nextId: nat, h: Handle)
    requires Inv(index, hs, nextId) && HasRecord(index, h)
    ensures Registry(UnscheduleFrom(index, h), RemoveHandle(hs, h))
  {
    var t := h.timepoint;
    var index', hs' := UnscheduleFrom(index, h), RemoveHandle(hs, h);
    UnscheduleMembers(index, h);
    RemoveHandleProperties(hs, h);
    RegisteredIffValid(index, hs, nextId, h);
    forall g | g in hs' ensures HasRecord(index', g) {
      RegisteredIffValid(index, hs, nextId, g);
      var x :| x in index[g.timepoint] && x.id == g.id;
      if g.timepoint == t {
        var i :| 0 <= i < |hs| && hs[i] == g;
        var j :| 0 <= j < |hs| && hs[j] == h;
        assert i != j;
      }
      assert x in index'[g.timepoint];
    }
    assert forall i :: 0 <= i < |hs'| ==> HasRecord(index', hs'[i]) by {
      forall i | 0 <= i < |hs'| ensures HasRecord(index', hs'[i]) {
        assert hs'[i] in hs';
      }
    }
    forall u: int, x: Record | u in index' && x in index'[u] ensures Handle(u, x.id) in hs' {
      assert Handle(u, x.id) in hs;
    }
  }

  /** The records state_delta applies over [lo, hi]: timepoints ascending,
      each bucket's applicable records in bucket order. */
  function ReplayRange(index: map<int, seq<Record>>, lo: int, hi: int): (rs: seq<Record>)
    ensures forall i :: 0 <= i < |rs| ==> Applies(rs[i])
    decreases hi - lo + 1
  {
    if hi < lo then [] else ReplayRange(index, lo, hi - 1) + Applicable(BucketAt(index, hi))
  }

  /** The batches the threaded path joins over [lo, hi], in order. */
  function BatchRange(index: map<int, seq<Record>>, lo: int, hi: int, maxThreads: int): (bs: seq<seq<Record>>)
    ensures Flatten(bs) == ReplayRange(index, lo, hi)
    decreases hi - lo + 1
  {
    if hi < lo then []
    else
      var front, last := BatchRange(index, lo, hi - 1, maxThreads), Batches(BucketAt(index, hi), maxThreads);
      FlattenAppend(front, last);
      front + last
  }

  /** Extending a range by one timepoint appends that timepoint's records
      and batches; an empty timepoint adds nothing. */
  lemma ReplayRangeStep<S>(index: map<int, seq<Record>>, lo: int, hi: int, maxThreads: int,
                           run: (FuncId, nat, S) -> S, s: S)
    requires lo <= hi
    ensures |ReplayRange(index, lo, hi)| == |ReplayRange(index, lo, hi - 1)| + |Applicable(BucketAt(index, hi))|
    ensures Replay(run, ReplayRange(index, lo, hi), s)
         == Replay(run, Applicable(BucketAt(index, hi)), Replay(run, ReplayRange(index, lo, hi - 1), s))
    ensures BatchRange(index, lo, hi, maxThreads)
         == BatchRange(index, lo, hi - 1, maxThreads) + Batches(BucketAt(index, hi), maxThreads)
    ensures BucketAt(index, hi) == [] ==>
              ReplayRange(index, lo, hi) == ReplayRange(index, lo, hi - 1)
              && BatchRange(index, lo, hi, maxThreads) == BatchRange(index, lo, hi - 1, maxThreads)
  {
    ReplayAppend(run, ReplayRange(index, lo, hi - 1), Applicable(BucketAt(index, hi)), s);
    if BucketAt(index, hi) == [] {
      assert ReplayRange(index, lo, hi) == ReplayRange(index, lo, hi - 1) + [];
      assert BatchRange(index, lo, hi, maxThreads) == BatchRange(index, lo, hi - 1, maxThreads) + [];
    }
  }

  /** Replay over a range is replay over its first part, then its second:
      earlier timepoints are applied entirely before later ones. */
  lemma {:induction false} ReplayRangeSplit(index: map<int, seq<Record>>, lo: int, mid: int, hi: int)
    requires lo - 1 <= mid <= hi
    ensures ReplayRange(index, lo, hi) == ReplayRange(index, lo, mid) + ReplayRange(index, mid + 1, hi)
    decreases hi - mid
  {
    if hi == mid {
      assert ReplayRange(index, mid + 1, hi) == [];
    } else {
      ReplayRangeSplit(index, lo, mid, hi - 1);
    }
  }

  /** Replay over a range applies exactly the applicable records stored at
      the timepoints of the range. */
  lemma {:induction false} ReplayRangeMembers(index: map<int, seq<Record>>, lo: int, hi: int, x: Record)
    ensures x in ReplayRange(index, lo, hi)
        <==> Applies(x) && exists t :: lo <= t <= hi && t in index && x in index[t]
    decreases hi - lo + 1
  {
    if hi >= lo {
      ReplayRangeMembers(index, lo, hi - 1, x);
      ApplicableMembers(BucketAt(index, hi), x);
      if Applies(x) && hi in index && x in index[hi] {
        assert x in Applicable(BucketAt(index, hi));
      }
    }
  }

  /** Over a range of a well-formed index, the threaded batches together
      are the sequential order, and each batch holds 1 to maxThreads records
      of a single phase. */
  lemma {:induction false} BatchRangeShape(index: map<int, seq<Record>>, lo: int, hi: int, maxThreads: int)
    requires BucketsWellFormed(index) && 0 < maxThreads
    ensures Flatten(BatchRange(index, lo, hi, maxThreads)) == ReplayRange(index, lo, hi)
    ensures forall batch: seq<Record> :: batch in BatchRange(index, lo, hi, maxThreads) ==>
              0 < |batch| <= maxThreads && SinglePhase(batch)
    decreases hi - lo + 1
  {
    if hi >= lo {
      var b := BucketAt(index, hi);
      BatchRangeShape(index, lo, hi - 1, maxThreads);
      if hi in index {
        OrderedIsPhaseSorted(b);
      }
      assert PhaseSorted(b);
      BatchesShape(b, maxThreads);
      FlattenAppend(BatchRange(index, lo, hi - 1, maxThreads), Batches(b, maxThreads));
    }
  }

  /** Whether `t` lies in the inclusive range [start, finish]. */
  predicate InRange(t: int, start: int, finish: int) {
    start <= t <= finish
  }

  /** The handles whose timepoint lies in [start, finish], in registry order. */
  function HandlesIn(hs: seq<Handle>, start: int, finish: int): seq<Handle> {
    if hs == [] then []
    else
      var last := hs[|hs| - 1];
      HandlesIn(hs[..|hs| - 1], start, finish) + (if InRange(last.timepoint, start, finish) then [last] else [])
  }

  /** The handles whose timepoint lies outside [start, finish], in registry order. */
  function HandlesOutside(hs: seq<Handle>, start: int, finish: int): seq<Handle> {
    if hs == [] then []
    else
      var last := hs[|hs| - 1];
      HandlesOutside(hs[..|hs| - 1], start, finish) + (if InRange(last.timepoint, start, finish) then [] else [last])
  }

  /** The index with every bucket of [start, finish] dropped. */
  function DropRange(index: map<int, seq<Record>>, start: int, finish: int): (index': map<int, seq<Record>>)
    ensures forall t :: t in index' <==> t in index && !InRange(t, start, finish)
  {
    map t | t in index && !InRange(t, start, finish) :: index[t]
  }

  lemma {:induction false} HandlesOutsideMembers(hs: seq<Handle>, start: int, finish: int)
    ensures forall y :: y in HandlesOutside(hs, start, finish) <==> y in hs && !InRange(y.timepoint, start, finish)
  {
    if hs != [] {
      HandlesOutsideMembers(hs[..|hs| - 1], start, finish);
      assert hs == hs[..|hs| - 1] + [hs[|hs| - 1]];
    }
  }

  /** Two views of a bucket, one a subset of the other, yield the same
      record for a handle. */
  lemma SameRecordOf(index0: map<int, seq<Record>>, index: map<int, seq<Record>>, h: Handle)
    requires HasRecord(index, h)
    requires h.timepoint in index0 && DistinctIds(index0[h.timepoint])
    requires forall x :: x in index[h.timepoint] ==> x in index0[h.timepoint]
    ensures DestroyCallOf(index, h) == DestroyCallOf(index0, h)
  {
    var b0 := index0[h.timepoint];
    var r := RecordOf(index, h).value;
    assert r in b0;
    assert h.id in Ids(b0);
    var r0 := RecordOf(index0, h).value;
    var p :| 0 <= p < |b0| && b0[p] == r;
    var q :| 0 <= q < |b0| && b0[q] == r0;
  }

  /** Unlinking a handle that occurs after a prefix not containing it. */
  lemma RemoveHandleAt(a: seq<Handle>, h: Handle, b: seq<Handle>)
    requires h !in a
    ensures RemoveHandle(a + [h] + b, h) == a + b
  {
    var hs := a + [h] + b;
    var k := IndexOfHandle(hs, h);
    assert hs[|a|] == h;
    assert forall i :: 0 <= i < |a| ==> hs[i] == a[i] && a[i] in a;
    assert k == |a|;
    assert hs[..k] == a && hs[k + 1..] == b;
  }

  /** The state of unscheduling a range, after the first i handles of the
      snapshot hs: the handles outside the range are kept, the rest of the
      snapshot is untouched, buckets outside the range are as they were and
      no record has appeared. */
  ghost predicate RangeProgress(index0: map<int, seq<Record>>, index: map<int, seq<Record>>,
                                handles: seq<Handle>, hs: seq<Handle>, i: int, start: int, finish: int)
  {
    && 0 <= i <= |hs|
    && handles == HandlesOutside(hs[..i], start, finish) + hs[i..]
    && (forall t :: !InRange(t, start, finish) ==> BucketAt(index, t) == BucketAt(index0, t))
    && (forall t, x :: t in index && x in index[t] ==> t in index0 && x in index0[t])
  }

  /** A snapshot handle outside the range is skipped. */
  lemma RangeSkip(hs: seq<Handle>, i: int, start: int, finish: int)
    requires 0 <= i < |hs| && !InRange(hs[i].timepoint, start, finish)
    ensures HandlesOutside(hs[..i + 1], start, finish) + hs[i + 1..] == HandlesOutside(hs[..i], start, finish) + hs[i..]
    ensures HandlesIn(hs[..i + 1], start, finish) == HandlesIn(hs[..i], start, finish)
  {
    assert hs[..i + 1][..i] == hs[..i];
    assert hs[i..] == [hs[i]] + hs[i + 1..];
  }

  /** A snapshot handle inside the range is still valid and its record is
      the one stored at the start. */
  lemma RangeTake(index0: map<int, seq<Record>>, index: map<int, seq<Record>>, handles: seq<Handle>,
                  nextId: nat, hs: seq<Handle>, i: int, start: int, finish: int)
    requires Inv(index, handles, nextId) && BucketsWellFormed(index0)
    requires RangeProgress(index0, index, handles, hs, i, start, finish)
    requires i < |hs| && InRange(hs[i].timepoint, start, finish)
    ensures HasRecord(index, hs[i])
    ensures DestroyCallOf(index, hs[i]) == DestroyCallOf(index0, hs[i])
  {
    RangeTakeHandle(handles, hs, i, start, finish);
    RegisteredIffValid(index, handles, nextId, hs[i]);
    SameRecordOf(index0, index, hs[i]);
  }

  /** Unscheduling a snapshot handle inside the range moves the progress
      on by one handle. */
  lemma RangeTaken(index0: map<int, seq<Record>>, index: map<int, seq<Record>>, handles: seq<Handle>,
                   nextId: nat, hs: seq<Handle>, i: int, start: int, finish: int)
    requires Inv(index, handles, nextId) && BucketsWellFormed(index0)
    requires RangeProgress(index0, index, handles, hs, i, start, finish)
    requires i < |hs| && InRange(hs[i].timepoint, start, finish) && HasRecord(index, hs[i])
    ensures RangeProgress(index0, UnscheduleFrom(index, hs[i]), RemoveHandle(handles, hs[i]), hs, i + 1, start, finish)
    ensures HandlesIn(hs[..i + 1], start, finish) == HandlesIn(hs[..i], start, finish) + [hs[i]]
  {
    RangeTakeHandle(handles, hs, i, start, finish);
    UnscheduleKeepsInv(index, handles, nextId, hs[i]);
    UnscheduleMembers(index, hs[i]);
  }

  /** A snapshot handle inside the range is still registered, and unlinking
      it leaves the registry of the next step. */
  lemma RangeTakeHandle(handles: seq<Handle>, hs: seq<Handle>, i: int, start: int, finish: int)
    requires 0 <= i < |hs| && InRange(hs[i].timepoint, start, finish)
    requires handles == HandlesOutside(hs[..i], start, finish) + hs[i..]
    ensures hs[i] in handles
    ensures RemoveHandle(handles, hs[i]) == HandlesOutside(hs[..i + 1], start, finish) + hs[i + 1..]
    ensures HandlesIn(hs[..i + 1], start, finish) == HandlesIn(hs[..i], start, finish) + [hs[i]]
  {
    var h, kept := hs[i], HandlesOutside(hs[..i], start, finish);
    assert hs[..i + 1][..i] == hs[..i];
    assert hs[i..] == [h] + hs[i + 1..];
    assert handles == kept + [h] + hs[i + 1..];
    HandlesOutsideMembers(hs[..i], start, finish);
    RemoveHandleAt(kept, h, hs[i + 1..]);
  }

  /** The destroy calls of one more unscheduled handle follow the earlier ones. */
  lemma DestroyCallsOfStep(index: map<int, seq<Record>>, taken: seq<Handle>, h: Handle, log: seq<Record>)
    ensures log + DestroyCallsOf(index, taken + [h]) == log + DestroyCallsOf(index, taken) + DestroyCallOf(index, h)
  {
    assert (taken + [h])[..|taken|] == taken;
    assert log + (DestroyCallsOf(index, taken) + DestroyCallOf(index, h))
        == log + DestroyCallsOf(index, taken) + DestroyCallOf(index, h);
  }

  /** When every handle of the range is gone, exactly the buckets of the
      range have been dropped. */
  lemma RangeDropped(index0: map<int, seq<Record>>, index: map<int, seq<Record>>, handles: seq<Handle>,
                     nextId: nat, hs: seq<Handle>, start: int, finish: int)
    requires Inv(index, handles, nextId) && BucketsWellFormed(index0)
    requires RangeProgress(index0, index, handles, hs, |hs|, start, finish)
    ensures index == DropRange(index0, start, finish)
  {
    assert hs[..|hs|] == hs;
    assert handles == HandlesOutside(hs, start, finish);
    HandlesOutsideMembers(hs, start, finish);
    var dropped := DropRange(index0, start, finish);
    forall t | t in index ensures t in dropped && index[t] == dropped[t] {
      var x := index[t][0];
      assert x in index[t];
      assert Handle(t, x.id) in handles;
      assert BucketAt(index, t) == BucketAt(index0, t);
    }
    forall t | t in dropped ensures t in index {
      assert BucketAt(index0, t) != [];
    }
    assert index.Keys == dropped.Keys;
  }

  /**
   * The state of unschedule_all after the first i handles of the snapshot
   * hs of the registry: the handles taken so far are the snapshot's handles
   * in [start, finish] up to i, their number is `count`, their records'
   * destroy calls follow the log `log0` of the start, the invariant holds
   * and the unscheduling has progressed as RangeProgress says.
   */
  ghost predicate SweepState(index0: map<int, seq<Record>>, log0: seq<Record>, hs: seq<Handle>,
                             start: int, finish: int, i: int, taken: seq<Handle>, count: int,
                             index: map<int, seq<Record>>, handles: seq<Handle>, nextId: nat, log: seq<Record>)
  {
    && Inv(index, handles, nextId) && BucketsWellFormed(index0)
    && RangeProgress(index0, index, handles, hs, i, start, finish)
    && taken == HandlesIn(hs[..i], start, finish)
    && count == |taken|
    && log == log0 + DestroyCallsOf(index0, taken)
  }

  /** The sweep starts with nothing taken. */
  lemma SweepStart(index0: map<int, seq<Record>>, log0: seq<Record>, hs: seq<Handle>, nextId: nat,
                   start: int, finish: int)
    requires Inv(index0, hs, nextId)
    ensures SweepState(index0, log0, hs, start, finish, 0, [], 0, index0, hs, nextId, log0)
  {
    assert hs[0..] == hs;
  }

  /** A snapshot handle in the range is still valid, and unscheduling it
      moves the sweep on by one handle. */
  lemma SweepTake(index0: map<int, seq<Record>>, log0: seq<Record>, hs: seq<Handle>,
                  start: int, finish: int, i: int, taken: seq<Handle>, count: int,
                  index: map<int, seq<Record>>, handles: seq<Handle>, nextId: nat, log: seq<Record>)
    requires SweepState(index0, log0, hs, start, finish, i, taken, count, index, handles, nextId, log)
    requires i < |hs| && InRange(hs[i].timepoint, start, finish)
    ensures HasRecord(index, hs[i])
    ensures SweepState(index0, log0, hs, start, finish, i + 1, taken + [hs[i]], count + 1,
                       UnscheduleFrom(index, hs[i]), RemoveHandle(handles, hs[i]), nextId,
                       log + DestroyCallOf(index, hs[i]))
  {
    RangeTake(index0, index, handles, nextId, hs, i, start, finish);
    RangeTaken(index0, index, handles, nextId, hs, i, start, finish);
    UnscheduleKeepsInv(index, handles, nextId, hs[i]);
    DestroyCallsOfStep(index0, taken, hs[i], log0);
  }

  /** A snapshot handle outside the range is passed over. */
  lemma SweepSkip(index0: map<int, seq<Record>>, log0: seq<Record>, hs: seq<Handle>,
                  start: int, finish: int, i: int, taken: seq<Handle>, count: int,
                  index: map<int, seq<Record>>, handles: seq<Handle>, nextId: nat, log: seq<Record>)
    requires SweepState(index0, log0, hs, start, finish, i, taken, count, index, handles, nextId, log)
    requires i < |hs| && !InRange(hs[i].timepoint, start, finish)
    ensures SweepState(index0, log0, hs, start, finish, i + 1, taken, count, index, handles, nextId, log)
  {
    RangeSkip(hs, i, start, finish);
  }

  /** At the end of the snapshot every handle of the range is gone, together
      with exactly the buckets of the range. */
  lemma SweepDone(index0: map<int, seq<Record>>, log0: seq<Record>, hs: seq<Handle>,
                  start: int, finish: int, taken: seq<Handle>, count: int,
                  index: map<int, seq<Record>>, handles: seq<Handle>, nextId: nat, log: seq<Record>)
    requires SweepState(index0, log0, hs, start, finish, |hs|, taken, count, index, handles, nextId, log)
    ensures Inv(index, handles, nextId)
    ensures count == |HandlesIn(hs, start, finish)|
    ensures handles == HandlesOutside(hs, start, finish)
    ensures index == DropRange(index0, start, finish)
    ensures log == log0 + DestroyCallsOf(index0, HandlesIn(hs, start, finish))
  {
    assert hs[..|hs|] == hs;
    RangeDropped(index0, index, handles, nextId, hs, start, finish);
  }

  /** The records of a bucket whose destroy function is present, in order. */
  function DestroyCalls(b: seq<Record>): (calls: seq<Record>)
    ensures |calls| <= |b|
    ensures forall i :: 0 <= i < |calls| ==> calls[i].destroy.Some?
  {
    if b == [] then []
    else DestroyCalls(b[..|b| - 1]) + (if b[|b| - 1].destroy.Some? then [b[|b| - 1]] else [])
  }

  /** The destroy calls of a teardown that visits the buckets in `order`. */
  function TeardownCalls(index: map<int, seq<Record>>, order: seq<int>): (calls: seq<Record>)
    ensures forall i :: 0 <= i < |calls| ==> calls[i].destroy.Some?
  {
    if order == [] then []
    else TeardownCalls(index, order[..|order| - 1]) + DestroyCalls(BucketAt(index, order[|order| - 1]))
  }

  /** The buckets a teardown has not yet visited. */
  function Without(index: map<int, seq<Record>>, order: seq<int>): (index': map<int, seq<Record>>)
    ensures forall t :: t in index' <==> t in index && t !in order
    ensures forall t :: t in index' ==> index'[t] == index[t]
  {
    map t | t in index && t !in order :: index[t]
  }

  /** No timepoint is visited twice. */
  predicate NoRepeats(order: seq<int>) {
    forall i, j :: 0 <= i < j < |order| ==> order[i] != order[j]
  }

  /** A non-empty index has a timepoint to visit. */
  lemma SomeTimepoint(index: map<int, seq<Record>>)
    requires index != map[]
    ensures exists t :: t in index
  {
    if forall t :: t !in index {
      assert false;
    }
  }

  /** Visiting one more unvisited bucket drops it from the rest, keeps the
      visit order free of repeats and appends that bucket's destroy calls. */
  lemma TeardownStep(index: map<int, seq<Record>>, order: seq<int>, t: int, log: seq<Record>)
    requires NoRepeats(order) && t in Without(index, order)
    ensures Without(index, order + [t]) == Without(index, order) - {t}
    ensures |Without(index, order + [t])| < |Without(index, order)|
    ensures NoRepeats(order + [t])
    ensures log + TeardownCalls(index, order + [t])
         == log + TeardownCalls(index, order) + DestroyCalls(Without(index, order)[t])
  {
    WithoutStep(index, order, t);
    TeardownCallsStep(index, order, t, log);
  }

  lemma WithoutStep(index: map<int, seq<Record>>, order: seq<int>, t: int)
    requires t in Without(index, order)
    ensures Without(index, order + [t]) == Without(index, order) - {t}
    ensures |Without(index, order + [t])| < |Without(index, order)|
  {
    var rest, rest' := Without(index, order), Without(index, order + [t]);
    assert rest'.Keys == rest.Keys - {t};
    forall u | u in rest' ensures rest'[u] == (rest - {t})[u] {
    }
    assert rest' == rest - {t};
  }

  lemma TeardownCallsStep(index: map<int, seq<Record>>, order: seq<int>, t: int, log: seq<Record>)
    ensures log + TeardownCalls(index, order + [t]) == log + TeardownCalls(index, order) + DestroyCalls(BucketAt(index, t))
  {
    assert (order + [t])[..|order|] == order;
    var done, next := TeardownCalls(index, order), DestroyCalls(BucketAt(index, t));
    assert log + (done + next) == log + done + next;
  }

  /** The empty history satisfies the invariant. */
  lemma InvEmpty(nextId: nat)
    ensures Inv(map[], [], nextId)
  {
  }

  /** Once every bucket is visited, the visit order covers exactly the index. */
  lemma TeardownDone(index: map<int, seq<Record>>, order: seq<int>)
    requires Without(index, order) == map[]
    requires forall t :: t in order ==> t in index
    ensures forall t :: t in order <==> t in index
  {
    forall t | t in index ensures t in order {
      assert t !in Without(index, order);
    }
  }

  /** Calling destroy on one more record of a bucket. */
  lemma DestroyCallsPrefix(b: seq<Record>, j: int)
    requires 0 <= j < |b|
    ensures DestroyCalls(b[..j + 1]) == DestroyCalls(b[..j]) + (if b[j].destroy.Some? then [b[j]] else [])
  {
    assert b[..j + 1][..j] == b[..j];
  }

  lemma {:induction false} DestroyCallsMembers(b: seq<Record>)
    requires DistinctIds(b)
    ensures forall x :: x in DestroyCalls(b) <==> x in b && x.destroy.Some?
    ensures DistinctIds(DestroyCalls(b))
  {
    if b != [] {
      var front, last := b[..|b| - 1], b[|b| - 1];
      assert b == front + [last];
      assert DistinctIds(front) by {
        forall i, j | 0 <= i < |front| && 0 <= j < |front| && i != j ensures front[i].id != front[j].id {
          assert front[i] == b[i] && front[j] == b[j];
        }
      }
      DestroyCallsMembers(front);
      var d := DestroyCalls(front);
      forall x | x in d ensures x.id != last.id {
        var i :| 0 <= i < |front| && front[i] == x;
        assert b[i] == x && b[|b| - 1] == last;
      }
      var d' := DestroyCalls(b);
      forall i, j | 0 <= i < |d'| && 0 <= j < |d'| && i != j ensures d'[i].id != d'[j].id {
        if i < |d| && j < |d| {
          assert d'[i] == d[i] && d'[j] == d[j];
        } else if i < |d| {
          assert d'[i] == d[i] && d[i] in d;
        } else if j < |d| {
          assert d'[j] == d[j] && d[j] in d;
        }
      }
    }
  }

  /** Under the invariant, no two stored records share an identity. */
  lemma IdsUnique(index: map<int, seq<Record>>, hs: seq<Handle>, nextId: nat,
                  t1: int, t2: int, r1: Record, r2: Record)
    requires Inv(index, hs, nextId)
    requires t1 in index && r1 in index[t1] && t2 in index && r2 in index[t2]
    requires r1.id == r2.id
    ensures t1 == t2 && r1 == r2
  {
    assert Handle(t1, r1.id) in hs && Handle(t2, r2.id) in hs;
    var i :| 0 <= i < |hs| && hs[i] == Handle(t1, r1.id);
    var j :| 0 <= j < |hs| && hs[j] == Handle(t2, r2.id);
    assert i == j;
    var p :| 0 <= p < |index[t1]| && index[t1][p] == r1;
    var q :| 0 <= q < |index[t1]| && index[t1][q] == r2;
  }

  /**
   * A teardown that visits every bucket once, in any order, calls each
   * stored record's destroy function exactly once: the calls are exactly
   * the stored records with a destroy function, and no record is called twice.
   */
  lemma TeardownDestroysEachOnce(index: map<int, seq<Record>>, hs: seq<Handle>, nextId: nat, order: seq<int>)
    requires Inv(index, hs, nextId)
    requires NoRepeats(order)
    requires forall i :: 0 <= i < |order| ==> order[i] in index
    ensures forall x :: x in TeardownCalls(index, order)
              <==> x.destroy.Some? && exists t :: t in order && x in index[t]
    ensures DistinctIds(TeardownCalls(index, order))
  {
    TeardownCallsMembers(index, order);
    TeardownCallsDistinct(index, hs, nextId, order);
  }

  /** The teardown calls are the stored records, with a destroy function, of
      the visited buckets. */
  lemma {:induction false} TeardownCallsMembers(index: map<int, seq<Record>>, order: seq<int>)
    requires BucketsWellFormed(index)
    requires forall i :: 0 <= i < |order| ==> order[i] in index
    ensures forall x :: x in TeardownCalls(index, order)
              <==> x.destroy.Some? && exists t :: t in order && x in index[t]
  {
    if order != [] {
      var front, t := order[..|order| - 1], order[|order| - 1];
      TeardownCallsMembers(index, front);
      DestroyCallsMembers(index[t]);
      var a, d := TeardownCalls(index, front), DestroyCalls(index[t]);
      assert TeardownCalls(index, order) == a + d;
      assert order == front + [t];
      forall x: Record | x in a + d
        ensures x.destroy.Some? && exists u :: u in order && x in index[u]
      {
        if x in a {
          var u :| u in front && x in index[u];
          assert u in order;
        } else {
          assert t in order;
        }
      }
      forall x: Record | x.destroy.Some? && (exists u :: u in order && x in index[u])
        ensures x in a + d
      {
        var u :| u in order && x in index[u];
        if u != t {
          assert u in front;
        }
      }
    }
  }

  /** A teardown that visits each bucket at most once calls no record twice. */
  lemma {:induction false} TeardownCallsDistinct(index: map<int, seq<Record>>, hs: seq<Handle>, nextId: nat, order: seq<int>)
    requires Inv(index, hs, nextId)
    requires NoRepeats(order)
    requires forall i :: 0 <= i < |order| ==> order[i] in index
    ensures DistinctIds(TeardownCalls(index, order))
  {
    if order != [] {
      var front, t := order[..|order| - 1], order[|order| - 1];
      TeardownCallsDistinct(index, hs, nextId, front);
      TeardownCallsMembers(index, front);
      DestroyCallsMembers(index[t]);
      var a, d := TeardownCalls(index, front), DestroyCalls(index[t]);
      forall x, y | x in a && y in d ensures x.id != y.id {
        var u :| u in front && x in index[u];
        var k :| 0 <= k < |front| && front[k] == u;
        assert order[k] == u && order[|order| - 1] == t;
        if x.id == y.id {
          IdsUnique(index, hs, nextId, u, t, x, y);
        }
      }
      DistinctConcat(a, d);
    }
  }
}
