/**
 * A worked history: the phase-ordering scenario of the library's test
 * suite, stated over the value model.  Four records are scheduled at
 * timepoint 0: "+1" and "+2" in phase 1, "*1" and "*2" in phase 0, in the
 * order +1, *1, +2, *2.  Replaying timepoint 0 applies the multiplications
 * first, so a state of 0 becomes 3 and a state of 1 becomes 5.
 */
module Scenarios {
  import opened Wrappers
  import opened Events
  import opened Buckets
  import opened Applier
  import opened Timeline

  /** Apply function 0 adds the payload's amount, apply function 1 multiplies by it. */
  const Incr: FuncId := 0
  const Mult: FuncId := 1
  /** The destroy function every record of the scenario names (free). */
  const Free: FuncId := 2

  /** The amount stored at each payload address of the scenario. */
  function Amount(addr: nat): int {
    if addr == 1 then 1 else if addr == 2 then 1 else if addr == 3 then 2 else if addr == 4 then 2 else 0
  }

  /** The apply callbacks of the scenario over an integer state. */
  function Run(f: FuncId, addr: nat, s: int): int {
    if f == Incr then s + Amount(addr) else s * Amount(addr)
  }

  const IncrOne := Record(0, Addr(1), Some(Incr), Some(Free), 1)
  const MultOne := Record(1, Addr(2), Some(Mult), Some(Free), 0)
  const IncrTwo := Record(2, Addr(3), Some(Incr), Some(Free), 1)
  const MultTwo := Record(3, Addr(4), Some(Mult), Some(Free), 0)

  /** The index after scheduling the four records at timepoint 0 in turn. */
  function Scheduled(): map<int, seq<Record>> {
    ScheduleAt(ScheduleAt(ScheduleAt(ScheduleAt(map[], 0, IncrOne), 0, MultOne), 0, IncrTwo), 0, MultTwo)
  }

  /** Each insertion goes after the records of lower or equal phase: the
      bucket ends up phase 0 first, each phase in scheduling order. */
  lemma InsertSteps()
    ensures InsertByPhase([], IncrOne) == [IncrOne]
    ensures InsertByPhase([IncrOne], MultOne) == [MultOne, IncrOne]
    ensures InsertByPhase([MultOne, IncrOne], IncrTwo) == [MultOne, IncrOne, IncrTwo]
    ensures InsertByPhase([MultOne, IncrOne, IncrTwo], MultTwo) == [MultOne, MultTwo, IncrOne, IncrTwo]
  {
    var b1 := [IncrOne];
    assert InsertionPoint([], IncrOne) == 0;
    var b2 := [MultOne, IncrOne];
    assert InsertionPoint(b1, MultOne) == InsertionPoint([], MultOne) == 0;
    var b3 := [MultOne, IncrOne, IncrTwo];
    assert InsertionPoint(b2, IncrTwo) == 2;
    assert InsertByPhase(b2, IncrTwo) == b2[..2] + [IncrTwo] + b2[2..] == b3;
    var b4 := [MultOne, MultTwo, IncrOne, IncrTwo];
    assert b3[..2] == [MultOne, IncrOne] && [MultOne, IncrOne][..1] == [MultOne];
    assert InsertionPoint(b3, MultTwo) == InsertionPoint([MultOne, IncrOne], MultTwo)
        == InsertionPoint([MultOne], MultTwo) == 1;
    assert InsertByPhase(b3, MultTwo) == b3[..1] + [MultTwo] + b3[1..] == b4;
  }

  /** Scheduling the four records at timepoint 0 in turn leaves one bucket,
      phase 0 first, each phase in scheduling order. */
  lemma ScheduledBucket()
    ensures Scheduled() == map[0 := [MultOne, MultTwo, IncrOne, IncrTwo]]
  {
    InsertSteps();
    var b1, b2, b3 := [IncrOne], [MultOne, IncrOne], [MultOne, IncrOne, IncrTwo];
    ScheduleIntoOne(map[], 0, IncrOne);
    var m1 := ScheduleAt(map[], 0, IncrOne);
    assert m1 == map[0 := b1];
    ScheduleIntoOne(m1, 0, MultOne);
    var m2 := ScheduleAt(m1, 0, MultOne);
    assert m2 == map[0 := b2];
    ScheduleIntoOne(m2, 0, IncrTwo);
    var m3 := ScheduleAt(m2, 0, IncrTwo);
    assert m3 == map[0 := b3];
    ScheduleIntoOne(m3, 0, MultTwo);
  }

  /** Scheduling into an index with no timepoint other than `t` leaves the
      one bucket at `t`. */
  lemma ScheduleIntoOne(index: map<int, seq<Record>>, t: int, r: Record)
    requires index.Keys <= {t}
    ensures ScheduleAt(index, t, r) == map[t := InsertByPhase(BucketAt(index, t), r)]
  {
    var index', one := ScheduleAt(index, t, r), map[t := InsertByPhase(BucketAt(index, t), r)];
    assert index' == index[t := InsertByPhase(BucketAt(index, t), r)];
    assert forall u :: u in index' <==> u == t;
  }

  /** What each record of the scenario does to a state. */
  lemma StepValues(s: int)
    ensures Step(Run, MultOne, s) == s && Step(Run, MultTwo, s) == 2 * s
    ensures Step(Run, IncrOne, s) == s + 1 && Step(Run, IncrTwo, s) == s + 2
  {
  }

  /** Replaying the sorted bucket doubles the state and then adds 3. */
  lemma ReplayBucket(s: int)
    ensures Replay(Run, [MultOne, MultTwo, IncrOne, IncrTwo], s) == 2 * s + 3
  {
    var b := [MultOne, MultTwo, IncrOne, IncrTwo];
    assert b[..3] == [MultOne, MultTwo, IncrOne];
    assert b[..3][..2] == [MultOne, MultTwo];
    assert b[..3][..2][..1] == [MultOne];
    assert b[..3][..2][..1][..0] == [];
    StepValues(s);
    StepValues(2 * s);
    StepValues(2 * s + 1);
    assert Replay(Run, [MultOne], s) == s;
    assert Replay(Run, [MultOne, MultTwo], s) == 2 * s;
    assert Replay(Run, [MultOne, MultTwo, IncrOne], s) == 2 * s + 1;
  }

  /** Every record of the scenario has an apply callback. */
  lemma AllApplicable()
    ensures Applicable([MultOne, MultTwo, IncrOne, IncrTwo]) == [MultOne, MultTwo, IncrOne, IncrTwo]
  {
    var b := [MultOne, MultTwo, IncrOne, IncrTwo];
    assert Applicable(b[3..]) == b[3..];
    assert Applicable(b[2..]) == [b[2]] + Applicable(b[3..]);
    assert Applicable(b[1..]) == [b[1]] + Applicable(b[2..]);
  }

  /** A range of one timepoint replays that timepoint's applicable records. */
  lemma SingleRange(index: map<int, seq<Record>>, t: int)
    ensures ReplayRange(index, t, t) == Applicable(BucketAt(index, t))
  {
    assert ReplayRange(index, t, t) == ReplayRange(index, t, t - 1) + Applicable(BucketAt(index, t));
  }

  /** Timepoint 0 is the only bucket in the range, and every record in it has
      an apply callback, so the range replays the whole sorted bucket. */
  lemma ScheduledRange()
    ensures ReplayRange(Scheduled(), 0, 0) == [MultOne, MultTwo, IncrOne, IncrTwo]
  {
    var m := Scheduled();
    ScheduledBucket();
    SingleRange(m, 0);
    AllApplicable();
  }

  /** Replaying timepoint 0 multiplies before it adds: 0 * 1 * 2 + 1 + 2 == 3
      and 1 * 1 * 2 + 1 + 2 == 5. */
  lemma PhasesScenario()
    ensures Replay(Run, ReplayRange(Scheduled(), 0, 0), 0) == 3
    ensures Replay(Run, ReplayRange(Scheduled(), 0, 0), 1) == 5
  {
    ScheduledRange();
    ReplayBucket(0);
    ReplayBucket(1);
  }
}
