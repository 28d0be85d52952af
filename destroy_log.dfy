/**
 * What the destroy log of a history says about its records: which records
 * unscheduling a range destroys and how many events it removes, and the
 * invariant that no record's destroy function is ever called twice, nor
 * called for a record that is still stored.
 */
module DestroyLog {
  import opened Wrappers
  import opened Events
  import opened Buckets
  import opened Timeline

  /** The handles of the records stored at the timepoints of [start, finish]. */
  ghost function StoredIn(index: map<int, seq<Record>>, start: int, finish: int): set<Handle> {
    set t, x | t in index && InRange(t, start, finish) && x in index[t] :: Handle(t, x.id)
  }

  /**
   * The log keeps each record at most once, holds only records already
   * issued, and holds none that is still stored.
   */
  ghost predicate DestroyedOnce(index: map<int, seq<Record>>, destroyed: seq<Record>, nextId: nat) {
    && DistinctIds(destroyed)
    && (forall i :: 0 <= i < |destroyed| ==> destroyed[i].id < nextId)
    && (forall t, x :: t in index && x in index[t] ==> x.id !in Ids(destroyed))
  }

  /** The handles of a range are exactly the registered handles whose
      timepoint lies in it. */
  lemma {:induction false} HandlesInMembers(hs: seq<Handle>, start: int, finish: int)
    ensures forall y :: y in HandlesIn(hs, start, finish) <==> y in hs && InRange(y.timepoint, start, finish)
  {
    if hs != [] {
      HandlesInMembers(hs[..|hs| - 1], start, finish);
      assert hs == hs[..|hs| - 1] + [hs[|hs| - 1]];
    }
  }

  /** Selecting the handles of a range keeps their identities distinct. */
  lemma {:induction false} HandlesInDistinct(hs: seq<Handle>, start: int, finish: int)
    requires forall i, j :: 0 <= i < j < |hs| ==> hs[i].id != hs[j].id
    ensures forall i, j :: 0 <= i < j < |HandlesIn(hs, start, finish)| ==>
              HandlesIn(hs, start, finish)[i].id != HandlesIn(hs, start, finish)[j].id
  {
    if hs != [] {
      var front, last := hs[..|hs| - 1], hs[|hs| - 1];
      HandlesInDistinct(front, start, finish);
      HandlesInMembers(front, start, finish);
      var g0, g := HandlesIn(front, start, finish), HandlesIn(hs, start, finish);
      assert g == g0 + (if InRange(last.timepoint, start, finish) then [last] else []);
      forall y | y in g0 ensures y.id != last.id {
        var i :| 0 <= i < |front| && front[i] == y;
        assert hs[i] == y;
      }
      forall i, j | 0 <= i < j < |g| ensures g[i].id != g[j].id {
        if j < |g0| {
          assert g[i] == g0[i] && g[j] == g0[j];
          assert g0[i].id != g0[j].id;
        } else {
          assert g[j] == last && g[i] == g0[i] && g0[i] in g0;
        }
      }
    }
  }

  /** Handles with distinct identities are as many as the set they form. */
  lemma {:induction false} DistinctHandlesCard(hs: seq<Handle>)
    requires forall i, j :: 0 <= i < j < |hs| ==> hs[i].id != hs[j].id
    ensures |set h | h in hs| == |hs|
  {
    if hs != [] {
      var front, last := hs[..|hs| - 1], hs[|hs| - 1];
      forall i, j | 0 <= i < j < |front| ensures front[i].id != front[j].id {
        assert front[i] == hs[i] && front[j] == hs[j];
      }
      DistinctHandlesCard(front);
      var before, after := set h | h in front, set h | h in hs;
      forall h ensures h in after <==> h in before || h == last {
        assert hs == front + [last];
      }
      assert after == before + {last};
      forall h | h in before ensures h != last {
        var i :| 0 <= i < |front| && front[i] == h;
        assert hs[i] == h;
      }
    }
  }

  /** Removing the records of `g` destroys exactly the stored records of
      `g`'s handles that have a destroy function. */
  lemma {:induction false} DestroyCallsOfMember(index: map<int, seq<Record>>, g: seq<Handle>, x: Record)
    ensures x in DestroyCallsOf(index, g) <==> x.destroy.Some? && exists h :: h in g && RecordOf(index, h) == Some(x)
  {
    if g != [] {
      var front, last := g[..|g| - 1], g[|g| - 1];
      DestroyCallsOfMember(index, front, x);
      assert g == front + [last];
      if x in DestroyCallsOf(index, front) {
        var h :| h in front && RecordOf(index, h) == Some(x);
        assert h in g;
      } else if x in DestroyCallOf(index, last) {
        assert last in g && RecordOf(index, last) == Some(x);
      }
      if x.destroy.Some? && exists h :: h in g && RecordOf(index, h) == Some(x) {
        var h :| h in g && RecordOf(index, h) == Some(x);
        if h != last {
          assert h in front;
        }
      }
    }
  }

  /** Handles with distinct identities destroy records with distinct identities. */
  lemma {:induction false} DestroyCallsOfDistinct(index: map<int, seq<Record>>, g: seq<Handle>)
    requires forall i, j :: 0 <= i < j < |g| ==> g[i].id != g[j].id
    ensures DistinctIds(DestroyCallsOf(index, g))
  {
    if g != [] {
      var front, last := g[..|g| - 1], g[|g| - 1];
      DestroyCallsOfDistinct(index, front);
      var a, d := DestroyCallsOf(index, front), DestroyCallOf(index, last);
      forall x, y | x in a && y in d ensures x.id != y.id {
        DestroyCallsOfMember(index, front, x);
        var h :| h in front && RecordOf(index, h) == Some(x);
        var i :| 0 <= i < |front| && front[i] == h;
        assert g[i] == h;
      }
      DistinctConcat(a, d);
    }
  }

  /** Under the invariant, a stored record is the one its handle refers to. */
  lemma RecordOfStored(index: map<int, seq<Record>>, hs: seq<Handle>, nextId: nat, t: int, x: Record)
    requires Inv(index, hs, nextId) && t in index && x in index[t]
    ensures RecordOf(index, Handle(t, x.id)) == Some(x)
  {
    assert x.id in Ids(index[t]);
    var r := RecordOf(index, Handle(t, x.id)).value;
    IdsUnique(index, hs, nextId, t, t, r, x);
  }

  /** One record's part in RangeDestroyCalls. */
  lemma RangeDestroyCall(index: map<int, seq<Record>>, hs: seq<Handle>, nextId: nat,
                         start: int, finish: int, x: Record)
    requires Inv(index, hs, nextId)
    ensures x in DestroyCallsOf(index, HandlesIn(hs, start, finish))
        <==> x.destroy.Some? && exists t :: start <= t <= finish && t in index && x in index[t]
  {
    var g := HandlesIn(hs, start, finish);
    HandlesInMembers(hs, start, finish);
    DestroyCallsOfMember(index, g, x);
    if x in DestroyCallsOf(index, g) {
      var h :| h in g && RecordOf(index, h) == Some(x);
      assert InRange(h.timepoint, start, finish) && x in index[h.timepoint];
    }
    if x.destroy.Some? && exists t :: start <= t <= finish && t in index && x in index[t] {
      var t :| start <= t <= finish && t in index && x in index[t];
      assert Handle(t, x.id) in hs;
      RecordOfStored(index, hs, nextId, t, x);
      assert Handle(t, x.id) in g;
    }
  }

  /**
   * Under the invariant, unscheduling the handles of [start, finish]
   * destroys exactly the stored records of that range that have a destroy
   * function, each of them once.
   */
  lemma RangeDestroyCalls(index: map<int, seq<Record>>, hs: seq<Handle>, nextId: nat, start: int, finish: int)
    requires Inv(index, hs, nextId)
    ensures forall x :: x in DestroyCallsOf(index, HandlesIn(hs, start, finish))
              <==> x.destroy.Some? && exists t :: start <= t <= finish && t in index && x in index[t]
    ensures DistinctIds(DestroyCallsOf(index, HandlesIn(hs, start, finish)))
  {
    HandlesInDistinct(hs, start, finish);
    DestroyCallsOfDistinct(index, HandlesIn(hs, start, finish));
    forall x ensures x in DestroyCallsOf(index, HandlesIn(hs, start, finish))
               <==> x.destroy.Some? && exists t :: start <= t <= finish && t in index && x in index[t]
    {
      RangeDestroyCall(index, hs, nextId, start, finish, x);
    }
  }

  /** One handle's part in RangeCount. */
  lemma StoredInMember(index: map<int, seq<Record>>, hs: seq<Handle>, nextId: nat,
                       start: int, finish: int, h: Handle)
    requires Inv(index, hs, nextId)
    ensures h in HandlesIn(hs, start, finish) <==> h in StoredIn(index, start, finish)
  {
    HandlesInMembers(hs, start, finish);
    if h in HandlesIn(hs, start, finish) {
      RegisteredIffValid(index, hs, nextId, h);
      var x :| x in index[h.timepoint] && x.id == h.id;
      assert h == Handle(h.timepoint, x.id);
    }
    if h in StoredIn(index, start, finish) {
      var t, x :| t in index && InRange(t, start, finish) && x in index[t] && h == Handle(t, x.id);
      assert h in hs;
    }
  }

  /** Under the invariant, unscheduling [start, finish] removes one
      registered handle for each record stored in that range. */
  lemma RangeCount(index: map<int, seq<Record>>, hs: seq<Handle>, nextId: nat, start: int, finish: int)
    requires Inv(index, hs, nextId)
    ensures |HandlesIn(hs, start, finish)| == |StoredIn(index, start, finish)|
  {
    var g := HandlesIn(hs, start, finish);
    HandlesInDistinct(hs, start, finish);
    DistinctHandlesCard(g);
    forall h | h in g ensures h in StoredIn(index, start, finish) {
      StoredInMember(index, hs, nextId, start, finish, h);
    }
    forall h | h in StoredIn(index, start, finish) ensures h in g {
      StoredInMember(index, hs, nextId, start, finish, h);
    }
    assert (set h | h in g) == StoredIn(index, start, finish);
  }

  /** Scheduling a fresh record keeps the log: the new record's identity
      has never been issued, so it is not in the log. */
  lemma ScheduleKeepsDestroyed(index: map<int, seq<Record>>, destroyed: seq<Record>, nextId: nat, t: int, r: Record)
    requires DestroyedOnce(index, destroyed, nextId) && r.id == nextId
    ensures DestroyedOnce(ScheduleAt(index, t, r), destroyed, nextId + 1)
  {
    ScheduleMembers(index, t, r);
    assert r.id !in Ids(destroyed) by {
      forall x | x in destroyed ensures x.id != r.id {
        var i :| 0 <= i < |destroyed| && destroyed[i] == x;
      }
    }
  }

  /** Unscheduling a valid handle logs its record at most once: the record
      is not logged yet, and once unlinked no stored record shares its identity. */
  lemma UnscheduleKeepsDestroyed(index: map<int, seq<Record>>, hs: seq<Handle>, nextId: nat,
                                 destroyed: seq<Record>, h: Handle)
    requires Inv(index, hs, nextId) && DestroyedOnce(index, destroyed, nextId) && HasRecord(index, h)
    ensures DestroyedOnce(UnscheduleFrom(index, h), destroyed + DestroyCallOf(index, h), nextId)
  {
    var r := RecordOf(index, h).value;
    var calls := DestroyCallOf(index, h);
    assert r in index[h.timepoint] && r.id !in Ids(destroyed);
    forall x, y | x in destroyed && y in calls ensures x.id != y.id {
      assert y == r;
    }
    DistinctConcat(destroyed, calls);
    UnscheduleMembers(index, h);
    var index' := UnscheduleFrom(index, h);
    forall u: int, x: Record | u in index' && x in index'[u] ensures x.id !in Ids(destroyed + calls) {
      if x.id == r.id {
        IdsUnique(index, hs, nextId, u, h.timepoint, x, r);
      }
    }
  }

  /** Unscheduling a range keeps the log: the calls are stored records,
      logged once each, and none of them stays stored. */
  lemma UnscheduleAllKeepsDestroyed(index: map<int, seq<Record>>, hs: seq<Handle>, nextId: nat,
                                    destroyed: seq<Record>, start: int, finish: int)
    requires Inv(index, hs, nextId) && DestroyedOnce(index, destroyed, nextId)
    ensures DestroyedOnce(DropRange(index, start, finish),
                          destroyed + DestroyCallsOf(index, HandlesIn(hs, start, finish)), nextId)
  {
    var calls := DestroyCallsOf(index, HandlesIn(hs, start, finish));
    RangeDestroyCalls(index, hs, nextId, start, finish);
    forall x, y | x in destroyed && y in calls ensures x.id != y.id {
      var t :| start <= t <= finish && t in index && y in index[t];
    }
    DistinctConcat(destroyed, calls);
    var log := destroyed + calls;
    forall i | 0 <= i < |log| ensures log[i].id < nextId {
      if i >= |destroyed| {
        var y := log[i];
        assert y in calls;
        var t :| start <= t <= finish && t in index && y in index[t];
      }
    }
    var index' := DropRange(index, start, finish);
    forall u: int, x: Record | u in index' && x in index'[u] ensures x.id !in Ids(log) {
      forall y | y in calls ensures y.id != x.id {
        var t :| start <= t <= finish && t in index && y in index[t];
        if y.id == x.id {
          IdsUnique(index, hs, nextId, u, t, x, y);
        }
      }
    }
  }

  /** A teardown that visits every bucket once logs each stored record at
      most once, and leaves nothing stored. */
  lemma TeardownKeepsDestroyed(index: map<int, seq<Record>>, hs: seq<Handle>, nextId: nat,
                               destroyed: seq<Record>, order: seq<int>)
    requires Inv(index, hs, nextId) && DestroyedOnce(index, destroyed, nextId)
    requires NoRepeats(order) && forall t :: t in order <==> t in index
    ensures DestroyedOnce(map[], destroyed + TeardownCalls(index, order), nextId)
  {
    var calls := TeardownCalls(index, order);
    TeardownDestroysEachOnce(index, hs, nextId, order);
    forall x, y | x in destroyed && y in calls ensures x.id != y.id {
      var t :| t in order && y in index[t];
    }
    DistinctConcat(destroyed, calls);
    var log := destroyed + calls;
    forall i | 0 <= i < |log| ensures log[i].id < nextId {
      if i >= |destroyed| {
        var y := log[i];
        assert y in calls;
        var t :| t in order && y in index[t];
      }
    }
  }
}
