/**
 * Replaying one bucket against a caller's state.  In sequential mode the
 * records are applied one after another; in threaded mode they are
 * dispatched in batches that run concurrently and are joined before the next
 * batch starts.  The caller's apply functions are the parameter `run`.
 */
module Applier {
  import opened Events
  import opened Buckets

  /** Replay applies a record only when its payload and apply function are non-NULL. */
  predicate Applies(r: Record) {
    r.payload.Addr? && r.apply.Some?
  }

  /** The records of a bucket that replay applies, in bucket order. */
  function Applicable(b: seq<Record>): (a: seq<Record>)
    ensures |a| <= |b|
    ensures forall i :: 0 <= i < |a| ==> Applies(a[i])
  {
    if b == [] then []
    else (if Applies(b[0]) then [b[0]] else []) + Applicable(b[1..])
  }

  lemma {:induction false} ApplicableSubset(b: seq<Record>)
    ensures forall x :: x in Applicable(b) ==> x in b && Applies(x)
  {
    if b != [] {
      ApplicableSubset(b[1..]);
    }
  }

  lemma {:induction false} ApplicableMembers(b: seq<Record>, x: Record)
    ensures x in Applicable(b) <==> x in b && Applies(x)
  {
    if b != [] {
      ApplicableMembers(b[1..], x);
      assert x in b <==> x == b[0] || x in b[1..];
    }
  }

  lemma {:induction false} ApplicableAppend(a: seq<Record>, b: seq<Record>)
    ensures Applicable(a + b) == Applicable(a) + Applicable(b)
  {
    if a == [] {
      assert a + b == b;
    } else {
      var head := if Applies(a[0]) then [a[0]] else [];
      assert (a + b)[0] == a[0];
      assert (a + b)[1..] == a[1..] + b;
      assert Applicable(a + b) == head + Applicable(a[1..] + b);
      ApplicableAppend(a[1..], b);
      assert Applicable(a) == head + Applicable(a[1..]);
    }
  }

  /** A bucket's applicable records are sorted whenever the bucket is. */
  lemma {:induction false} ApplicableSorted(b: seq<Record>)
    requires PhaseSorted(b)
    ensures PhaseSorted(Applicable(b))
  {
    if b != [] {
      var rest := b[1..];
      assert PhaseSorted(rest) by {
        forall i, j | 0 <= i < j < |rest| ensures rest[i].phase <= rest[j].phase {
          assert rest[i] == b[i + 1] && rest[j] == b[j + 1];
        }
      }
      ApplicableSorted(rest);
      var a := Applicable(b);
      forall i, j | 0 <= i < j < |a| ensures a[i].phase <= a[j].phase {
        ApplicableSubset(rest);
        if Applies(b[0]) && i == 0 {
          assert a[j] == Applicable(rest)[j - 1];
          assert a[j] in rest;
        } else if Applies(b[0]) {
          assert a[i] == Applicable(rest)[i - 1] && a[j] == Applicable(rest)[j - 1];
        }
      }
    }
  }

  /** One step of replay: what an applied record does to the state. */
  function Step<S>(run: (FuncId, nat, S) -> S, r: Record, s: S): S {
    if Applies(r) then run(r.apply.value, r.payload.addr, s) else s
  }

  /** The state after applying `rs` in order, starting from `s`. */
  function Replay<S>(run: (FuncId, nat, S) -> S, rs: seq<Record>, s: S): (s': S)
    ensures (forall i :: 0 <= i < |rs| ==> !Applies(rs[i])) ==> s' == s
    decreases |rs|
  {
    if rs == [] then s
    else Step(run, rs[|rs| - 1], Replay(run, rs[..|rs| - 1], s))
  }

  /** Replaying two runs back to back is replaying their concatenation. */
  lemma {:induction false} ReplayAppend<S>(run: (FuncId, nat, S) -> S, a: seq<Record>, b: seq<Record>, s: S)
    ensures Replay(run, a + b, s) == Replay(run, b, Replay(run, a, s))
    decreases |b|
  {
    if b == [] {
      assert a + b == a;
    } else {
      var front := b[..|b| - 1];
      assert (a + b)[..|a + b| - 1] == a + front;
      ReplayAppend(run, a, front, s);
    }
  }

  /** Concatenation of a list of batches. */
  function Flatten(bs: seq<seq<Record>>): seq<Record> {
    if bs == [] then [] else bs[0] + Flatten(bs[1..])
  }

  lemma {:induction false} FlattenAppend(a: seq<seq<Record>>, b: seq<seq<Record>>)
    ensures Flatten(a + b) == Flatten(a) + Flatten(b)
  {
    if a == [] {
      assert a + b == b;
    } else {
      assert (a + b)[1..] == a[1..] + b;
      FlattenAppend(a[1..], b);
    }
  }

  /** Joining the in-flight threads closes a batch, if any thread was running. */
  function Join(inflight: seq<Record>): seq<seq<Record>> {
    if inflight == [] then [] else [inflight]
  }

  /**
   * The batches the threaded path dispatches for the bucket entries `rs`,
   * given the in-flight batch `inflight` and the phase `prev` that the
   * source reads once from the bucket's first entry and never updates.
   * Before dispatching an applicable record, all in-flight threads are
   * joined if there are already `maxThreads` of them or if the record's
   * phase differs from `prev`.
   */
  function Dispatch(rs: seq<Record>, maxThreads: int, prev: int, inflight: seq<Record>): (bs: seq<seq<Record>>)
    ensures forall i :: 0 <= i < |bs| ==> bs[i] != []
    decreases |rs|
  {
    if rs == [] then Join(inflight)
    else if !Applies(rs[0]) then Dispatch(rs[1..], maxThreads, prev, inflight)
    else if |inflight| >= maxThreads || rs[0].phase != prev then
      Join(inflight) + Dispatch(rs[1..], maxThreads, prev, [rs[0]])
    else Dispatch(rs[1..], maxThreads, prev, inflight + [rs[0]])
  }

  /** The dispatch batches of a whole bucket. */
  function Batches(b: seq<Record>, maxThreads: int): (bs: seq<seq<Record>>)
    ensures Flatten(bs) == Applicable(b)
  {
    if b == [] then []
    else
      DispatchFlatten(b, maxThreads, b[0].phase, []);
      assert [] + Applicable(b) == Applicable(b);
      Dispatch(b, maxThreads, b[0].phase, [])
  }

  /** Every record of a batch has the batch's first record's phase. */
  ghost predicate SinglePhase(batch: seq<Record>) {
    forall i :: 0 <= i < |batch| ==> batch[i].phase == batch[0].phase
  }

  lemma FlattenJoin(inflight: seq<Record>)
    ensures Flatten(Join(inflight)) == inflight
  {
    if inflight != [] {
      assert [inflight][1..] == [];
      assert Flatten([inflight]) == inflight + Flatten([]);
    }
  }

  /** The batches, run one after the other, run exactly the applicable
      records in bucket order. */
  lemma {:induction false} DispatchFlatten(rs: seq<Record>, maxThreads: int, prev: int, inflight: seq<Record>)
    ensures Flatten(Dispatch(rs, maxThreads, prev, inflight)) == inflight + Applicable(rs)
    decreases |rs|
  {
    if rs == [] {
      FlattenJoin(inflight);
    } else if !Applies(rs[0]) {
      DispatchFlatten(rs[1..], maxThreads, prev, inflight);
      assert Applicable(rs) == Applicable(rs[1..]);
    } else if |inflight| >= maxThreads || rs[0].phase != prev {
      DispatchFlatten(rs[1..], maxThreads, prev, [rs[0]]);
      FlattenJoinedStep(rs, maxThreads, prev, inflight);
    } else {
      DispatchFlatten(rs[1..], maxThreads, prev, inflight + [rs[0]]);
      assert Applicable(rs) == [rs[0]] + Applicable(rs[1..]);
    }
  }

  /** The step of DispatchFlatten where the in-flight batch is joined first. */
  lemma FlattenJoinedStep(rs: seq<Record>, maxThreads: int, prev: int, inflight: seq<Record>)
    requires rs != [] && Applies(rs[0]) && (|inflight| >= maxThreads || rs[0].phase != prev)
    requires Flatten(Dispatch(rs[1..], maxThreads, prev, [rs[0]])) == [rs[0]] + Applicable(rs[1..])
    ensures Flatten(Dispatch(rs, maxThreads, prev, inflight)) == inflight + Applicable(rs)
  {
    var tail := Dispatch(rs[1..], maxThreads, prev, [rs[0]]);
    assert Dispatch(rs, maxThreads, prev, inflight) == Join(inflight) + tail;
    assert Applicable(rs) == [rs[0]] + Applicable(rs[1..]);
    FlattenJoin(inflight);
    FlattenAppend(Join(inflight), tail);
  }

  /** No batch is empty and none has more than `maxThreads` records. */
  lemma {:induction false} DispatchBounded(rs: seq<Record>, maxThreads: int, prev: int, inflight: seq<Record>)
    requires 0 < maxThreads && |inflight| <= maxThreads
    ensures forall batch: seq<Record> :: batch in Dispatch(rs, maxThreads, prev, inflight) ==> 0 < |batch| <= maxThreads
    decreases |rs|
  {
    if rs == [] {
    } else if !Applies(rs[0]) {
      DispatchBounded(rs[1..], maxThreads, prev, inflight);
    } else if |inflight| >= maxThreads || rs[0].phase != prev {
      DispatchBounded(rs[1..], maxThreads, prev, [rs[0]]);
    } else {
      DispatchBounded(rs[1..], maxThreads, prev, inflight + [rs[0]]);
    }
  }

  /**
   * On a phase-sorted bucket whose lowest phase is `prev`, every batch is
   * single-phase: a record joins the in-flight batch only when its phase is
   * `prev`, and then everything in flight has phase `prev` too.
   */
  lemma {:induction false} DispatchSinglePhase(rs: seq<Record>, maxThreads: int, prev: int, inflight: seq<Record>)
    requires PhaseSorted(inflight + rs)
    requires forall x :: x in inflight + rs ==> prev <= x.phase
    requires SinglePhase(inflight)
    ensures forall batch: seq<Record> :: batch in Dispatch(rs, maxThreads, prev, inflight) ==> SinglePhase(batch)
    decreases |rs|
  {
    if rs == [] {
    } else if !Applies(rs[0]) {
      SkipKeepsSorted(inflight, rs);
      DispatchSinglePhase(rs[1..], maxThreads, prev, inflight);
    } else if |inflight| >= maxThreads || rs[0].phase != prev {
      RestartKeepsSorted(inflight, rs);
      DispatchSinglePhase(rs[1..], maxThreads, prev, [rs[0]]);
    } else {
      ExtendKeepsSinglePhase(inflight, rs, prev);
      DispatchSinglePhase(rs[1..], maxThreads, prev, inflight + [rs[0]]);
    }
  }

  /** Skipping the next entry keeps the in-flight batch and the rest sorted. */
  lemma SkipKeepsSorted(inflight: seq<Record>, rs: seq<Record>)
    requires rs != [] && PhaseSorted(inflight + rs)
    ensures PhaseSorted(inflight + rs[1..])
    ensures forall x :: x in inflight + rs[1..] ==> x in inflight + rs
  {
    var s, u := inflight + rs[1..], inflight + rs;
    forall i, j | 0 <= i < j < |s| ensures s[i].phase <= s[j].phase {
      var i' := if i < |inflight| then i else i + 1;
      var j' := if j < |inflight| then j else j + 1;
      assert s[i] == u[i'] && s[j] == u[j'];
    }
    forall x | x in s ensures x in u {
      var i :| 0 <= i < |s| && s[i] == x;
      assert u[if i < |inflight| then i else i + 1] == x;
    }
  }

  /** Starting a new batch with the next entry keeps the rest sorted. */
  lemma RestartKeepsSorted(inflight: seq<Record>, rs: seq<Record>)
    requires rs != [] && PhaseSorted(inflight + rs)
    ensures PhaseSorted([rs[0]] + rs[1..])
    ensures forall x :: x in [rs[0]] + rs[1..] ==> x in inflight + rs
    ensures SinglePhase([rs[0]])
  {
    var u := inflight + rs;
    assert [rs[0]] + rs[1..] == rs;
    forall i, j | 0 <= i < j < |rs| ensures rs[i].phase <= rs[j].phase {
      assert rs[i] == u[|inflight| + i] && rs[j] == u[|inflight| + j];
    }
  }

  /** Adding an entry of phase `prev` to a batch of phase `prev` keeps it single-phase. */
  lemma ExtendKeepsSinglePhase(inflight: seq<Record>, rs: seq<Record>, prev: int)
    requires rs != [] && rs[0].phase == prev
    requires PhaseSorted(inflight + rs) && SinglePhase(inflight)
    requires forall x :: x in inflight + rs ==> prev <= x.phase
    ensures (inflight + [rs[0]]) + rs[1..] == inflight + rs
    ensures SinglePhase(inflight + [rs[0]])
  {
    var u, next := inflight + rs, inflight + [rs[0]];
    assert next + rs[1..] == u;
    if inflight != [] {
      assert u[0] == inflight[0] && u[|inflight|] == rs[0];
      assert inflight[0] in u;
      assert inflight[0].phase <= rs[0].phase;
    }
  }

  /**
   * Because `prev` is never updated, only records of phase `prev` ever join
   * a batch that is already in flight: after the first phase every batch
   * holds a single record.
   */
  lemma {:induction false} DispatchLaterPhasesAlone(rs: seq<Record>, maxThreads: int, prev: int, inflight: seq<Record>)
    requires forall i :: 1 <= i < |inflight| ==> inflight[i].phase == prev
    ensures forall batch: seq<Record> :: batch in Dispatch(rs, maxThreads, prev, inflight) ==>
              forall i :: 1 <= i < |batch| ==> batch[i].phase == prev
    decreases |rs|
  {
    if rs == [] {
    } else if !Applies(rs[0]) {
      DispatchLaterPhasesAlone(rs[1..], maxThreads, prev, inflight);
    } else if |inflight| >= maxThreads || rs[0].phase != prev {
      DispatchLaterPhasesAlone(rs[1..], maxThreads, prev, [rs[0]]);
    } else {
      DispatchLaterPhasesAlone(rs[1..], maxThreads, prev, inflight + [rs[0]]);
    }
  }

  /**
   * The threaded path's batches of a sorted bucket: together they are the
   * sequential order, each has between 1 and `maxThreads` records of one
   * phase, and a batch of any phase but the bucket's first is a single record.
   */
  lemma BatchesShape(b: seq<Record>, maxThreads: int)
    requires PhaseSorted(b) && 0 < maxThreads
    ensures Flatten(Batches(b, maxThreads)) == Applicable(b)
    ensures forall batch: seq<Record> :: batch in Batches(b, maxThreads) ==>
              && 0 < |batch| <= maxThreads
              && SinglePhase(batch)
              && (batch[0].phase != b[0].phase ==> |batch| == 1)
  {
    if b != [] {
      var prev := b[0].phase;
      DispatchFlatten(b, maxThreads, prev, []);
      DispatchBounded(b, maxThreads, prev, []);
      assert [] + b == b;
      forall x | x in b ensures prev <= x.phase {
        var i :| 0 <= i < |b| && b[i] == x;
        assert i == 0 || b[0].phase <= b[i].phase;
      }
      DispatchSinglePhase(b, maxThreads, prev, []);
      DispatchLaterPhasesAlone(b, maxThreads, prev, []);
      forall batch: seq<Record> | batch in Batches(b, maxThreads)
        ensures batch[0].phase != prev ==> |batch| == 1
      {
        assert 0 < |batch|;
        if |batch| > 1 {
          assert batch[1].phase == prev;
        }
      }
    }
  }

  /** The sequential path for one bucket (LL_FOREACH over the records). */
  method ApplySequential<S>(b: seq<Record>, state: S, run: (FuncId, nat, S) -> S)
    returns (count: int, state': S)
    ensures count == |Applicable(b)|
    ensures state' == Replay(run, Applicable(b), state)
  {
    count, state' := 0, state;
    var i := 0;
    while i < |b|
      invariant 0 <= i <= |b|
      invariant count == |Applicable(b[..i])|
      invariant state' == Replay(run, Applicable(b[..i]), state)
    {
      var e := b[i];
      ghost var done := Applicable(b[..i]);
      assert b[..i + 1] == b[..i] + [e];
      ApplicableAppend(b[..i], [e]);
      assert Applicable([e]) == (if Applies(e) then [e] else []) + Applicable([]);
      if Applies(e) {
        assert Applicable(b[..i + 1]) == done + [e];
        assert (done + [e])[..|done|] == done;
        state' := run(e.apply.value, e.payload.addr, state');
        count := count + 1;
      } else {
        assert Applicable(b[..i + 1]) == done;
      }
      i := i + 1;
    }
    assert b[..|b|] == b;
  }

  /** Joining the in-flight threads: each has applied its record to the
      state; the model applies them in the order they were dispatched. */
  method JoinAll<S>(inflight: seq<Record>, state: S, run: (FuncId, nat, S) -> S)
    returns (state': S)
    ensures state' == Replay(run, inflight, state)
  {
    state' := state;
    var j := 0;
    while j < |inflight|
      invariant 0 <= j <= |inflight|
      invariant state' == Replay(run, inflight[..j], state)
    {
      assert inflight[..j + 1][..j] == inflight[..j];
      state' := Step(run, inflight[j], state');
      j := j + 1;
    }
    assert inflight[..|inflight|] == inflight;
  }

  /**
   * The threaded path for one bucket: dispatch each applicable record into
   * the in-flight batch, joining the batch first when it already holds
   * `maxThreads` records or the record's phase differs from `prev`, and join
   * what is left at the end.  Returns the number of dispatched records, the
   * joined batches in order and the state after they have all run.
   */
  method ApplyThreaded<S>(b: seq<Record>, maxThreads: int, state: S, run: (FuncId, nat, S) -> S)
    returns (count: int, ghost batches: seq<seq<Record>>, state': S)
    requires b != [] && 0 < maxThreads
    ensures count == |Applicable(b)|
    ensures batches == Batches(b, maxThreads)
    ensures state' == Replay(run, Applicable(b), state)
  {
    var prev := b[0].phase;
    var inflight: seq<Record> := [];
    count, state' := 0, state;
    batches := [];
    var i := 0;
    while i < |b|
      invariant 0 <= i <= |b|
      invariant batches + Dispatch(b[i..], maxThreads, prev, inflight) == Dispatch(b, maxThreads, prev, [])
      invariant count == |Applicable(b[..i])|
      invariant state' == Replay(run, Flatten(batches), state)
    {
      var e := b[i];
      assert b[i..][0] == e && b[i..][1..] == b[i + 1..];
      assert b[..i + 1] == b[..i] + [e];
      ApplicableAppend(b[..i], [e]);
      assert Applicable([e]) == (if Applies(e) then [e] else []) + Applicable([]);
      ghost var rest := Dispatch(b[i + 1..], maxThreads, prev, [e]);
      if Applies(e) {
        var current := e.phase;
        var inflightLength := |inflight|;
        if inflightLength >= maxThreads || current != prev {
          assert Dispatch(b[i..], maxThreads, prev, inflight) == Join(inflight) + rest;
          assert batches + (Join(inflight) + rest) == (batches + Join(inflight)) + rest;
          state' := JoinAll(inflight, state', run);
          JoinedReplay(run, batches, inflight, state);
          batches := batches + Join(inflight);
          inflight := [];
          assert [] + [e] == [e];
        }
        inflight := inflight + [e];
        count := count + 1;
      }
      i := i + 1;
    }
    assert b[..|b|] == b;
    assert b[|b|..] == [];
    state' := JoinAll(inflight, state', run);
    JoinedReplay(run, batches, inflight, state);
    batches := batches + Join(inflight);
    DispatchFlatten(b, maxThreads, prev, []);
    assert [] + Applicable(b) == Applicable(b);
  }

  /** One non-empty bucket's pass in state_delta: the threaded path when
      `maxThreads` is positive, the sequential path otherwise. */
  method ApplyBucket<S>(b: seq<Record>, maxThreads: int, state: S, run: (FuncId, nat, S) -> S)
    returns (count: int, ghost batches: seq<seq<Record>>, state': S)
    requires b != []
    ensures count == |Applicable(b)|
    ensures batches == if 0 < maxThreads then Batches(b, maxThreads) else []
    ensures state' == Replay(run, Applicable(b), state)
  {
    if 0 < maxThreads {
      count, batches, state' := ApplyThreaded(b, maxThreads, state, run);
    } else {
      batches := [];
      count, state' := ApplySequential(b, state, run);
    }
  }

  /** Joining a batch extends the replayed prefix by that batch. */
  lemma JoinedReplay<S>(run: (FuncId, nat, S) -> S, batches: seq<seq<Record>>, inflight: seq<Record>, s: S)
    ensures Replay(run, Flatten(batches + Join(inflight)), s)
         == Replay(run, inflight, Replay(run, Flatten(batches), s))
  {
    if inflight == [] {
      assert batches + Join(inflight) == batches;
    } else {
      FlattenAppend(batches, Join(inflight));
      FlattenJoin(inflight);
      ReplayAppend(run, Flatten(batches), inflight, s);
    }
  }
}
