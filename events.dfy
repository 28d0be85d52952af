/**
 * The entities a History stores: event records (one per scheduled event)
 * and the handles issued for them.  Pointers of the C library are modelled
 * by identities: a record's `id` stands for the address of its list node,
 * which no other live record shares, and a caller-supplied function is
 * named by a `FuncId`.
 */
module Events {
  import opened Wrappers

  /** A caller's payload pointer: NULL or the address of the caller's event. */
  datatype Ptr = Null | Addr(addr: nat)

  /** Names a caller-supplied apply or destroy function. */
  type FuncId = nat

  /**
   * One scheduled event (struct EventListEntry): the payload, the optional
   * apply and destroy functions and the phase.  `id` is unique among the
   * records ever created by one History and grows with insertion order.
   */
  datatype Record = Record(
    id: nat,
    payload: Ptr,
    apply: Option<FuncId>,
    destroy: Option<FuncId>,
    phase: int)

  /**
   * The opaque handle returned by scheduling (struct RwnEventHandle): the
   * timepoint of the event and the identity of its record.
   */
  datatype Handle = Handle(timepoint: int, id: nat)

  /** The three-way comparator by which a bucket is sorted. */
  function ComparePhase(lhs: Record, rhs: Record): (c: int)
    ensures c < 0 <==> lhs.phase < rhs.phase
    ensures c > 0 <==> lhs.phase > rhs.phase
    ensures c == 0 <==> lhs.phase == rhs.phase
    ensures -1 <= c <= 1
  {
    if lhs.phase < rhs.phase then -1
    else if lhs.phase > rhs.phase then 1
    else 0
  }
}
