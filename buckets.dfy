/**
 * The per-timepoint bucket: the list of event records of one timepoint,
 * kept sorted ascending by phase, records of equal phase in insertion order.
 * Everything here works on values; the History class stores buckets in a map.
 */
module Buckets {
  import opened Events

  /** Phases never decrease along the bucket. */
  ghost predicate PhaseSorted(b: seq<Record>) {
    forall i, j :: 0 <= i < j < |b| ==> b[i].phase <= b[j].phase
  }

  /** `x` comes before `y` in a bucket: lower phase, or equal phase and older. */
  ghost predicate Before(x: Record, y: Record) {
    x.phase < y.phase || (x.phase == y.phase && x.id < y.id)
  }

  /**
   * The order a History keeps in every bucket: by phase, and among equal
   * phases by insertion (record ids grow with insertion).
   */
  ghost predicate Ordered(b: seq<Record>) {
    forall i, j :: 0 <= i < j < |b| ==> Before(b[i], b[j])
  }

  /** The identities of the records of a bucket. */
  function Ids(b: seq<Record>): set<nat> {
    set r | r in b :: r.id
  }

  /** The records of phase `p`, in bucket order. */
  function OfPhase(b: seq<Record>, p: int): seq<Record> {
    if b == [] then []
    else (if b[0].phase == p then [b[0]] else []) + OfPhase(b[1..], p)
  }

  lemma {:induction false} OfPhaseAppend(a: seq<Record>, b: seq<Record>, p: int)
    ensures OfPhase(a + b, p) == OfPhase(a, p) + OfPhase(b, p)
  {
    if a == [] {
      assert a + b == b;
    } else {
      var c, head := a + b, if a[0].phase == p then [a[0]] else [];
      assert c[0] == a[0] && c[1..] == a[1..] + b;
      OfPhaseAppend(a[1..], b, p);
      assert OfPhase(c, p) == head + (OfPhase(a[1..], p) + OfPhase(b, p));
      assert OfPhase(a, p) == head + OfPhase(a[1..], p);
    }
  }

  /**
   * Where InsertByPhase puts `r`: after the last record, counted from the
   * back, whose phase is not greater than `r`'s.
   */
  function InsertionPoint(b: seq<Record>, r: Record): (k: nat)
    ensures k <= |b|
    decreases |b|
  {
    if b == [] || ComparePhase(b[|b| - 1], r) <= 0 then |b|
    else InsertionPoint(b[..|b| - 1], r)
  }

  /**
   * Insert `r` into a bucket at its insertion point.  Applied to a sorted
   * bucket this is what appending `r` and then sorting stably by phase
   * produces (AppendThenSort).
   */
  function InsertByPhase(b: seq<Record>, r: Record): (b': seq<Record>)
    ensures |b'| == |b| + 1
  {
    var k := InsertionPoint(b, r);
    assert b == b[..k] + b[k..];
    b[..k] + [r] + b[k..]
  }

  /**
   * The stable sort by phase that the library applies after every append,
   * written as an insertion sort.  A stable sort's output is determined by
   * its input, so this stands for any stable sort by the same comparator.
   */
  function SortByPhase(b: seq<Record>): (s: seq<Record>)
    ensures |s| == |b|
    ensures multiset(s) == multiset(b)
    decreases |b|
  {
    if b == [] then []
    else
      assert b == b[..|b| - 1] + [b[|b| - 1]];
      InsertByPhasePermutes(SortByPhase(b[..|b| - 1]), b[|b| - 1]);
      InsertByPhase(SortByPhase(b[..|b| - 1]), b[|b| - 1])
  }

  /** Inserting adds exactly `r` to the bucket: nothing is lost or duplicated. */
  lemma InsertByPhasePermutes(b: seq<Record>, r: Record)
    ensures multiset(InsertByPhase(b, r)) == multiset(b) + multiset{r}
  {
    var k := InsertionPoint(b, r);
    assert b == b[..k] + b[k..];
  }

  /** Every record after the insertion point has a greater phase than `r`,
      and the one just before it does not. */
  lemma {:induction false} InsertionPointBounds(b: seq<Record>, r: Record)
    ensures var k := InsertionPoint(b, r);
      && (forall i :: k <= i < |b| ==> b[i].phase > r.phase)
      && (0 < k ==> b[k - 1].phase <= r.phase)
    decreases |b|
  {
    if b != [] && ComparePhase(b[|b| - 1], r) > 0 {
      var front := b[..|b| - 1];
      InsertionPointBounds(front, r);
      var k := InsertionPoint(front, r);
      forall i | k <= i < |b| ensures b[i].phase > r.phase {
        if i < |b| - 1 {
          assert b[i] == front[i];
        }
      }
      if 0 < k {
        assert b[k - 1] == front[k - 1];
      }
    }
  }

  /** Positions in `b` after `r` is put at position `k`. */
  lemma InsertAtIndices(b: seq<Record>, r: Record, k: nat)
    requires k <= |b|
    ensures var b' := b[..k] + [r] + b[k..];
      && |b'| == |b| + 1 && b'[k] == r
      && (forall i :: 0 <= i < k ==> b'[i] == b[i])
      && (forall i :: k < i < |b'| ==> b'[i] == b[i - 1])
  {
  }

  /** Positions in `b` after the record at position `k` is taken out. */
  lemma RemoveAtIndices(b: seq<Record>, k: nat)
    requires k < |b|
    ensures var b' := b[..k] + b[k + 1..];
      && |b'| == |b| - 1
      && (forall i :: 0 <= i < k ==> b'[i] == b[i])
      && (forall i :: k <= i < |b'| ==> b'[i] == b[i + 1])
  {
  }

  /** Insertion adds exactly `r` to the records of the bucket. */
  lemma InsertByPhaseMembers(b: seq<Record>, r: Record)
    ensures forall x :: x in InsertByPhase(b, r) <==> x in b || x == r
  {
    var k := InsertionPoint(b, r);
    assert b == b[..k] + b[k..];
  }

  /** A new record lands after every record of lower or equal phase, and
      before every record of greater phase. */
  lemma InsertByPhasePlacement(b: seq<Record>, r: Record)
    requires PhaseSorted(b)
    ensures var k := InsertionPoint(b, r);
      && InsertByPhase(b, r) == b[..k] + [r] + b[k..]
      && (forall i :: 0 <= i < k ==> b[i].phase <= r.phase)
      && (forall i :: k <= i < |b| ==> b[i].phase > r.phase)
  {
    var k := InsertionPoint(b, r);
    InsertionPointBounds(b, r);
    forall i | 0 <= i < k ensures b[i].phase <= r.phase {
      assert b[i].phase <= b[k - 1].phase;
    }
  }

  lemma InsertByPhaseSorted(b: seq<Record>, r: Record)
    requires PhaseSorted(b)
    ensures PhaseSorted(InsertByPhase(b, r))
  {
    var k := InsertionPoint(b, r);
    InsertByPhasePlacement(b, r);
    var b' := b[..k] + [r] + b[k..];
    InsertAtIndices(b, r, k);
    forall i, j | 0 <= i < j < |b'| ensures b'[i].phase <= b'[j].phase {
      if i == k {
        assert b'[j] == b[j - 1];
      } else if j == k {
        assert b'[i] == b[i];
      } else if j < k {
        assert b'[i] == b[i] && b'[j] == b[j];
      } else if i < k {
        assert b'[i] == b[i] && b'[j] == b[j - 1];
      } else {
        assert b'[i] == b[i - 1] && b'[j] == b[j - 1];
      }
    }
  }

  lemma OrderedInsertAt(b: seq<Record>, r: Record, k: nat)
    requires Ordered(b) && k <= |b|
    requires forall i :: 0 <= i < k ==> Before(b[i], r)
    requires forall i :: k <= i < |b| ==> Before(r, b[i])
    ensures Ordered(b[..k] + [r] + b[k..])
  {
    var b' := b[..k] + [r] + b[k..];
    InsertAtIndices(b, r, k);
    forall i, j | 0 <= i < j < |b'| ensures Before(b'[i], b'[j]) {
      if i == k {
        assert b'[j] == b[j - 1];
      } else if j == k {
        assert b'[i] == b[i];
      } else if j < k {
        assert b'[i] == b[i] && b'[j] == b[j];
      } else if i < k {
        assert b'[i] == b[i] && b'[j] == b[j - 1];
      } else {
        assert b'[i] == b[i - 1] && b'[j] == b[j - 1];
      }
    }
  }

  /** Inserting a record younger than every record keeps the bucket order. */
  lemma InsertByPhaseOrdered(b: seq<Record>, r: Record)
    requires Ordered(b)
    requires forall x :: x in b ==> x.id < r.id
    ensures Ordered(InsertByPhase(b, r))
  {
    var k := InsertionPoint(b, r);
    OrderedIsPhaseSorted(b);
    InsertByPhasePlacement(b, r);
    forall i | 0 <= i < k ensures Before(b[i], r) {
      assert b[i] in b;
    }
    OrderedInsertAt(b, r, k);
  }

  /** Inserting a record younger than every record keeps identities distinct. */
  lemma InsertByPhaseDistinct(b: seq<Record>, r: Record)
    requires DistinctIds(b)
    requires forall x :: x in b ==> x.id < r.id
    ensures DistinctIds(InsertByPhase(b, r))
  {
    var k := InsertionPoint(b, r);
    var b' := b[..k] + [r] + b[k..];
    InsertAtIndices(b, r, k);
    assert forall i :: 0 <= i < |b| ==> b[i].id < r.id by {
      forall i | 0 <= i < |b| ensures b[i].id < r.id {
        assert b[i] in b;
      }
    }
    forall i, j | 0 <= i < |b'| && 0 <= j < |b'| && i != j ensures b'[i].id != b'[j].id {
      var i' := if i < k then i else i - 1;
      var j' := if j < k then j else j - 1;
      if i == k {
        assert b'[j] == b[j'];
      } else if j == k {
        assert b'[i] == b[i'];
      } else {
        assert b'[i] == b[i'] && b'[j] == b[j'] && i' != j';
      }
    }
  }

  lemma OfPhaseSplit(b: seq<Record>, k: nat, p: int)
    requires k <= |b|
    ensures OfPhase(b, p) == OfPhase(b[..k], p) + OfPhase(b[k..], p)
  {
    assert b == b[..k] + b[k..];
    OfPhaseAppend(b[..k], b[k..], p);
  }

  lemma OfPhaseSingle(r: Record, p: int)
    ensures OfPhase([r], p) == if r.phase == p then [r] else []
  {
    assert OfPhase([r], p) == (if r.phase == p then [r] else []) + OfPhase([], p);
  }

  /** A bucket with no record of phase `p` has an empty phase-`p` part. */
  lemma {:induction false} OfPhaseNone(b: seq<Record>, p: int)
    requires forall i :: 0 <= i < |b| ==> b[i].phase != p
    ensures OfPhase(b, p) == []
    decreases |b|
  {
    if b != [] {
      OfPhaseNone(b[1..], p);
    }
  }

  /** Insertion leaves the relative order of every phase's records alone
      and puts `r` last among its own phase. */
  lemma InsertByPhaseStable(b: seq<Record>, r: Record, p: int)
    ensures OfPhase(InsertByPhase(b, r), p)
         == OfPhase(b, p) + (if r.phase == p then [r] else [])
  {
    var k := InsertionPoint(b, r);
    var x, y := b[..k], b[k..];
    if r.phase == p {
      InsertionTail(b, r);
    }
    OfPhaseSingle(r, p);
    OfPhaseAppend(x + [r], y, p);
    OfPhaseAppend(x, [r], p);
    OfPhaseSplit(b, k, p);
  }

  /** No record after the insertion point shares `r`'s phase. */
  lemma InsertionTail(b: seq<Record>, r: Record)
    ensures OfPhase(b[InsertionPoint(b, r)..], r.phase) == []
  {
    var k := InsertionPoint(b, r);
    var y := b[k..];
    InsertionPointBounds(b, r);
    forall i | 0 <= i < |y| ensures y[i].phase != r.phase {
      assert y[i] == b[k + i];
    }
    OfPhaseNone(y, r.phase);
  }

  lemma {:induction false} SortByPhaseSorted(b: seq<Record>)
    ensures PhaseSorted(SortByPhase(b))
    decreases |b|
  {
    if b != [] {
      SortByPhaseSorted(b[..|b| - 1]);
      InsertByPhaseSorted(SortByPhase(b[..|b| - 1]), b[|b| - 1]);
    }
  }

  /** The sort is stable: for every phase, the records of that phase keep
      their relative order. */
  lemma {:induction false} SortByPhaseStable(b: seq<Record>, p: int)
    ensures OfPhase(SortByPhase(b), p) == OfPhase(b, p)
    decreases |b|
  {
    if b != [] {
      var front := b[..|b| - 1];
      var last := b[|b| - 1];
      assert b == front + [last];
      SortByPhaseStable(front, p);
      InsertByPhaseStable(SortByPhase(front), last, p);
      OfPhaseAppend(front, [last], p);
      assert OfPhase([last], p) == (if last.phase == p then [last] else []) + OfPhase([], p);
    }
  }

  /** Sorting an already sorted bucket changes nothing. */
  lemma {:induction false} SortByPhaseOfSorted(b: seq<Record>)
    requires PhaseSorted(b)
    ensures SortByPhase(b) == b
    decreases |b|
  {
    if b != [] {
      var front := b[..|b| - 1];
      var last := b[|b| - 1];
      SortedFront(b);
      SortByPhaseOfSorted(front);
      InsertAfterLast(front, last);
      assert front + [last] == b;
    }
  }

  /** Dropping the last record of a sorted bucket leaves it sorted, and that
      record has the greatest phase. */
  lemma SortedFront(b: seq<Record>)
    requires PhaseSorted(b) && b != []
    ensures PhaseSorted(b[..|b| - 1])
    ensures |b| > 1 ==> b[..|b| - 1][|b| - 2].phase <= b[|b| - 1].phase
  {
    var front := b[..|b| - 1];
    forall i, j | 0 <= i < j < |front| ensures front[i].phase <= front[j].phase {
      assert front[i] == b[i] && front[j] == b[j];
    }
  }

  /** A record of phase not below the last one's is simply appended. */
  lemma InsertAfterLast(b: seq<Record>, r: Record)
    requires b == [] || b[|b| - 1].phase <= r.phase
    ensures InsertByPhase(b, r) == b + [r]
  {
    assert InsertionPoint(b, r) == |b|;
    assert b[..|b|] == b;
  }

  /** Appending a record to a sorted bucket and sorting stably inserts it
      after every record of lower or equal phase. */
  lemma AppendThenSort(b: seq<Record>, r: Record)
    requires PhaseSorted(b)
    ensures SortByPhase(b + [r]) == InsertByPhase(b, r)
  {
    assert (b + [r])[..|b|] == b;
    SortByPhaseOfSorted(b);
  }

  lemma OrderedIsPhaseSorted(b: seq<Record>)
    requires Ordered(b)
    ensures PhaseSorted(b)
  {
    forall i, j | 0 <= i < j < |b| ensures b[i].phase <= b[j].phase {
      assert Before(b[i], b[j]);
    }
  }

  /** Position of the record with identity `id`, or |b| if there is none. */
  function IndexOfId(b: seq<Record>, id: nat): (k: nat)
    ensures k <= |b|
    ensures k < |b| ==> b[k].id == id
    ensures forall i :: 0 <= i < k ==> b[i].id != id
    decreases |b|
  {
    if b == [] then 0
    else if b[0].id == id then 0
    else 1 + IndexOfId(b[1..], id)
  }

  /** The record with identity `id` (the node a handle points to). */
  function Find(b: seq<Record>, id: nat): (r: Wrappers.Option<Record>)
    ensures r.Some? <==> id in Ids(b)
    ensures r.Some? ==> r.value in b && r.value.id == id
  {
    var k := IndexOfId(b, id);
    if k < |b| then Wrappers.Some(b[k])
    else
      assert forall x :: x in b ==> x.id != id by {
        forall x | x in b ensures x.id != id {
          var i :| 0 <= i < |b| && b[i] == x;
        }
      }
      Wrappers.None
  }

  /** Unlink the record with identity `id` (LL_DELETE); no-op if absent. */
  function RemoveId(b: seq<Record>, id: nat): (b': seq<Record>)
    ensures |b'| == if id in Ids(b) then |b| - 1 else |b|
    ensures forall i :: 0 <= i < |b'| ==> b'[i] in b
    ensures forall i :: 0 <= i < |b| && b[i].id != id ==> b[i] in b'
  {
    var k := IndexOfId(b, id);
    if k < |b| then
      assert b[k] in b && b == b[..k] + [b[k]] + b[k + 1..];
      b[..k] + b[k + 1..]
    else
      assert id !in Ids(b) by {
        forall x | x in b ensures x.id != id {
          var i :| 0 <= i < |b| && b[i] == x;
        }
      }
      b
  }

  /** Where RemoveId unlinks: at the first record with the identity. */
  lemma RemoveIdAt(b: seq<Record>, id: nat)
    ensures var k := IndexOfId(b, id);
      RemoveId(b, id) == if k < |b| then b[..k] + b[k + 1..] else b
  {
  }

  /** No two records of the bucket share an identity. */
  ghost predicate DistinctIds(b: seq<Record>) {
    forall i, j :: 0 <= i < |b| && 0 <= j < |b| && i != j ==> b[i].id != b[j].id
  }

  /** Two runs with distinct identities, and none in common, concatenate
      to a run with distinct identities. */
  lemma DistinctConcat(a: seq<Record>, d: seq<Record>)
    requires DistinctIds(a) && DistinctIds(d)
    requires forall x, y :: x in a && y in d ==> x.id != y.id
    ensures DistinctIds(a + d)
  {
    var c := a + d;
    forall i, j | 0 <= i < |c| && 0 <= j < |c| && i != j ensures c[i].id != c[j].id {
      if i < |a| && j < |a| {
        assert c[i] == a[i] && c[j] == a[j];
      } else if i >= |a| && j >= |a| {
        assert c[i] == d[i - |a|] && c[j] == d[j - |a|];
      } else if i < |a| {
        assert c[i] == a[i] && a[i] in a && c[j] == d[j - |a|] && d[j - |a|] in d;
      } else {
        assert c[j] == a[j] && a[j] in a && c[i] == d[i - |a|] && d[i - |a|] in d;
      }
    }
  }

  /** Removing a record keeps the bucket ordered and its identities distinct. */
  lemma RemoveIdKeepsOrder(b: seq<Record>, id: nat)
    requires Ordered(b) && DistinctIds(b)
    ensures Ordered(RemoveId(b, id)) && DistinctIds(RemoveId(b, id))
  {
    var k := IndexOfId(b, id);
    var b' := RemoveId(b, id);
    if k < |b| {
      RemoveAtIndices(b, k);
      forall i, j | 0 <= i < j < |b'| ensures Before(b'[i], b'[j]) {
        var i' := if i < k then i else i + 1;
        var j' := if j < k then j else j + 1;
        assert b'[i] == b[i'] && b'[j] == b[j'];
      }
      forall i, j | 0 <= i < |b'| && 0 <= j < |b'| && i != j ensures b'[i].id != b'[j].id {
        var i' := if i < k then i else i + 1;
        var j' := if j < k then j else j + 1;
        assert b'[i] == b[i'] && b'[j] == b[j'];
      }
    }
  }

  /** Removing a record takes out exactly the record with that identity. */
  lemma RemoveIdMembers(b: seq<Record>, id: nat)
    requires DistinctIds(b)
    ensures id in Ids(b) ==> |RemoveId(b, id)| == |b| - 1
    ensures forall x :: x in RemoveId(b, id) <==> x in b && x.id != id
    ensures id !in Ids(RemoveId(b, id))
  {
    var k := IndexOfId(b, id);
    var b' := RemoveId(b, id);
    if k < |b| {
      RemoveAtIndices(b, k);
      forall x ensures x in b' <==> x in b && x.id != id {
        if x in b' {
          var i :| 0 <= i < |b'| && b'[i] == x;
          var i' := if i < k then i else i + 1;
          assert b[i'] == x && i' != k;
        }
        if x in b && x.id != id {
          var i :| 0 <= i < |b| && b[i] == x;
          assert i != k;
          if i < k { assert b'[i] == x; } else { assert b'[i - 1] == x; }
        }
      }
    } else {
      var _ := Find(b, id);
    }
  }
}
