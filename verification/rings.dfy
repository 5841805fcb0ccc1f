/**
 The device's atomic actions on the split rings, on a view of the rings in guest memory.
 Each action is one store or one load of the code; the driver may run between any two of them.
 */
module Rings {
  import opened Words
  import opened QueueState

  const NO_NOTIFY: u16 := 1

  datatype UsedElem = UsedElem(id: u32, len: u32)

  /** The fields of the available and used rings that the device reads or writes. */
  datatype View = View(
    avail: seq<u16>,
    availIdx: u16,
    usedEvent: u16,
    used: seq<UsedElem>,
    usedIdx: u16,
    usedFlags: u16,
    availEvent: u16)

  predicate Fits(v: View, q: Regs) {
    |v.avail| == q.size && |v.used| == q.size && q.size > 0
  }

  // ---- Actions --------------------------------------------------------------------------------

  /** The slot a counter selects. */
  function Slot(n: u16, q: Regs): (i: nat)
    requires q.size > 0
    ensures i < q.size
  {
    SlotInRange(n, q.size);
    n % q.size
  }

  function WriteElem(v: View, q: Regs, e: UsedElem): (v': View)
    requires Fits(v, q)
    ensures Fits(v', q)
  {
    v.(used := v.used[Slot(q.nextUsed, q) := e])
  }

  function PublishUsed(v: View, q: Regs): View {
    v.(usedIdx := WrapAdd(q.nextUsed, 1))
  }

  function SetNotification(v: View, q: Regs, enable: bool): View {
    if enable then
      if q.eventIdx then v.(availEvent := q.nextAvail) else v.(usedFlags := 0)
    else
      if q.eventIdx then v else v.(usedFlags := NO_NOTIFY)
  }

  /** The check of `AvailIter::new`. */
  predicate IterAccepts(v: View, q: Regs) {
    WrapSub(v.availIdx, q.nextAvail) <= q.size
  }

  function HeadAt(v: View, q: Regs): u16
    requires Fits(v, q)
  {
    v.avail[Slot(q.nextAvail, q)]
  }

  predicate NeedsNotification(v: View, q: Regs) {
    !q.eventIdx || EventReached(v.usedEvent, q.nextUsed, WrapSub(q.nextUsed, q.numAdded))
  }

  /** The entries of the rings by unbounded number. */
  function AvailEntry(v: View, q: Regs, n: nat): u16
    requires Fits(v, q)
  {
    SlotInRange(n, q.size);
    v.avail[n % q.size]
  }

  function Entry(v: View, q: Regs, n: nat): UsedElem
    requires Fits(v, q)
  {
    SlotInRange(n, q.size);
    v.used[n % q.size]
  }

  /** For a device that has taken `popped` heads of the `published` ones, an iterator is accepted exactly
      when no more than a ring of them are left, however often the counters have wrapped. */
  lemma IterAcceptsARing(v: View, q: Regs, popped: nat, published: nat)
    requires q.nextAvail == Wrap(popped) && v.availIdx == Wrap(published)
    requires popped <= published < popped + TWO16
    ensures IterAccepts(v, q) <==> published - popped <= q.size
  {
    WrapDistance(published, popped);
  }

  // ---- The used ring refines an unbounded log --------------------------------------------------

  /** The newest `keep` entries of `log`, numbered from `start`, are in their slots. */
  ghost predicate Holds(v: View, q: Regs, log: seq<UsedElem>, start: nat, keep: int)
    requires Fits(v, q)
  {
    forall i :: 0 <= i < |log| && |log| - keep <= i ==> Entry(v, q, start + i) == log[i]
  }

  /** The used ring shows the last `size` entries of a log whose first entry has number `start`. */
  ghost predicate Refines(v: View, q: Regs, log: seq<UsedElem>, start: nat)
    requires Fits(v, q)
  {
    && q.nextUsed == Wrap(start + |log|)
    && v.usedIdx == q.nextUsed
    && Holds(v, q, log, start, q.size)
  }

  /** Writing an element keeps all published entries but the oldest and publishes nothing. */
  lemma WriteElemKeepsRecent(v: View, q: Regs, log: seq<UsedElem>, start: nat, e: UsedElem)
    requires Fits(v, q) && IsRingSize(q.size) && Refines(v, q, log, start)
    ensures WriteElem(v, q, e).usedIdx == Wrap(start + |log|)
    ensures Holds(WriteElem(v, q, e), q, log, start, q.size - 1)
    ensures Holds(WriteElem(v, q, e), q, log + [e], start, q.size)
  {
    var v' := WriteElem(v, q, e);
    var n := start + |log|;
    SlotOfWrapped(n, q.size);
    forall i | 0 <= i < |log| && |log| - (q.size - 1) <= i
      ensures Entry(v', q, start + i) == log[i]
    {
      assert Entry(v, q, start + i) == log[i];
      SlotsDiffer(start + i, n, q.size);
    }
    assert Entry(v', q, n) == e;
  }

  /** One `add_used`: the element write, then the index store. */
  function AddUsed(v: View, q: Regs, e: UsedElem): (View, Regs)
    requires Fits(v, q)
  {
    (PublishUsed(WriteElem(v, q, e), q), Apply(q, UsedAdded))
  }

  lemma AddUsedExtendsLog(v: View, q: Regs, log: seq<UsedElem>, start: nat, e: UsedElem)
    requires Fits(v, q) && IsRingSize(q.size) && Refines(v, q, log, start)
    ensures var (v', q') := AddUsed(v, q, e); Fits(v', q') && Refines(v', q', log + [e], start)
  {
    WriteElemKeepsRecent(v, q, log, start, e);
    WrapOfSum(start + |log|, 1);
    var (v', q') := AddUsed(v, q, e);
    var w := WriteElem(v, q, e);
    forall i | 0 <= i < |log + [e]| && |log + [e]| - q.size <= i
      ensures Entry(v', q', start + i) == (log + [e])[i]
    {
      assert Entry(w, q, start + i) == (log + [e])[i];
    }
  }

  function AddUsedAll(v: View, q: Regs, es: seq<UsedElem>): (View, Regs)
    requires Fits(v, q)
    decreases |es|
  {
    if es == [] then (v, q)
    else var (v', q') := AddUsed(v, q, es[0]); AddUsedAll(v', q', es[1..])
  }

  /** After any number of `add_used` calls the ring refines the log of all of them. */
  lemma {:induction false} UsedRingRefinesLog(v: View, q: Regs, log: seq<UsedElem>, start: nat, es: seq<UsedElem>)
    requires Fits(v, q) && IsRingSize(q.size) && Refines(v, q, log, start)
    ensures var (v', q') := AddUsedAll(v, q, es); Fits(v', q') && Refines(v', q', log + es, start)
    decreases |es|
  {
    if es == [] {
      assert log + es == log;
    } else {
      AddUsedExtendsLog(v, q, log, start, es[0]);
      var (v', q') := AddUsed(v, q, es[0]);
      UsedRingRefinesLog(v', q', log + [es[0]], start, es[1..]);
      assert log + [es[0]] + es[1..] == log + es;
    }
  }

  // ---- Notification windows --------------------------------------------------------------------

  /** `numAdded` counts, wrapping, the entries `from <= n < to` added since the last check. */
  ghost predicate Counts(q: Regs, from: nat, to: nat) {
    from <= to && q.nextUsed == Wrap(to) && q.numAdded == Wrap(to - from)
  }

  /** Below 2^16 additions the check is true exactly when `used_event` names an entry added since
      the last check. */
  lemma NeedsNotificationIsWindow(v: View, q: Regs, from: nat, to: nat)
    requires q.eventIdx && Counts(q, from, to) && to - from < TWO16
    ensures NeedsNotification(v, q) <==> InWindow(from, to, v.usedEvent)
  {
    assert WrapSub(q.nextUsed, q.numAdded) == Wrap(from);
    EventReachedIsInWindow(from, to, v.usedEvent);
  }

  /** From 2^16 additions on every index is due, but only the last `count % 2^16` are looked at. */
  lemma NeedsNotificationOverflow(v: View, q: Regs, from: nat, to: nat)
    requires q.eventIdx && Counts(q, from, to) && to - from >= TWO16
    ensures InWindow(from, to, v.usedEvent)
    ensures NeedsNotification(v, q) <==> InWindow(to - (to - from) % TWO16, to, v.usedEvent)
  {
    var lo := to - (to - from) % TWO16;
    assert WrapSub(q.nextUsed, q.numAdded) == Wrap(lo);
    EventReachedIsInWindow(lo, to, v.usedEvent);
    EntryBehind(to, v.usedEvent);
    var n := to - 1 - Behind(v.usedEvent, Wrap(to));
    assert from <= n < to && Wrap(n) == v.usedEvent;
  }

  /** So a window of exactly 2^16 additions, which holds every event, is never reported. */
  lemma FullWindowIsMissed(v: View, q: Regs, from: nat)
    requires q.eventIdx && Counts(q, from, from + TWO16)
    ensures InWindow(from, from + TWO16, v.usedEvent) && !NeedsNotification(v, q)
  {
    NeedsNotificationOverflow(v, q, from, from + TWO16);
  }
}
