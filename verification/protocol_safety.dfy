/** Invariants of the virtqueue protocol and what they give in every reachable state. */
module ProtocolSafety {
  import opened Words
  import opened QueueState
  import opened Rings
  import opened Protocol

  function Ids(log: seq<UsedElem>): (ids: seq<int>)
    ensures |ids| == |log|
  {
    seq(|log|, i requires 0 <= i < |log| => log[i].id)
  }

  // ---- The invariants -----------------------------------------------------------------------------

  /** The counters of the available ring are the lengths of its histories, which are nested. */
  ghost predicate AvailCounted(s: State) {
    && |s.popped| <= s.published <= |s.heads|
    && s.q.nextAvail == Wrap(|s.popped|) && s.v.availIdx == Wrap(s.published) && s.drvAvail == Wrap(|s.heads|)
    && (s.iter.Some? ==> |s.popped| <= s.sampled <= s.published && s.iter.value == Wrap(s.sampled))
  }

  /** Likewise for the used ring. */
  ghost predicate UsedCounted(s: State) {
    && |s.taken| <= s.seen <= s.returned <= |s.log|
    && |s.log| == s.returned + (if s.adding then 1 else 0)
    && s.q.nextUsed == s.v.usedIdx == Wrap(s.returned)
    && s.drvUsed == Wrap(|s.taken|) && s.drvSeen == Wrap(s.seen)
  }

  /** The wrapping counters are the lengths of the histories, and the histories are nested. */
  ghost predicate Counted(s: State) { AvailCounted(s) && UsedCounted(s) }

  ghost predicate Partition(out: set<int>, waiting: seq<int>, held: multiset<int>, done: seq<int>) {
    multiset(out) == multiset(waiting) + held + multiset(done)
  }

  /** Every outstanding head is in exactly one place: waiting in the available ring, held by the
      device, or waiting in the used ring. */
  ghost predicate Owned(s: State) {
    && |s.popped| <= |s.heads| && |s.taken| <= |s.log|
    && Partition(s.out, s.heads[|s.popped|..], s.held, Ids(s.log)[|s.taken|..])
    && (forall h :: h in s.out ==> 0 <= h < s.q.size)
  }

  /** Slots that have not been read still hold what was written. */
  ghost predicate Intact(s: State)
    requires Fits(s.v, s.q)
  {
    && (forall i :: |s.popped| <= i < |s.heads| ==> AvailEntry(s.v, s.q, i) == s.heads[i])
    && (forall i :: |s.taken| <= i < |s.log| ==> Entry(s.v, s.q, i) == s.log[i])
  }

  /** What each side has read is what the other side wrote, in order. */
  ghost predicate Ordered(s: State) {
    s.popped <= s.heads && s.taken <= s.log
  }

  /** A driver about to look at the event has published a batch of at most `size` heads. */
  ghost predicate BatchKnown(s: State) {
    s.driver.Kicking? ==>
      && s.driver.before == Wrap(s.publishedBefore)
      && s.publishedBefore < s.published <= s.publishedBefore + s.q.size
  }

  /** A device that is about to wait, or waits, has asked for a notification. */
  ghost predicate Armed(s: State) {
    !s.phase.Busy? ==> if s.q.eventIdx then s.v.availEvent == s.q.nextAvail else s.v.usedFlags == 0
  }

  /** While the device waits, either it has taken everything, or it will be told. */
  ghost predicate Told(s: State) {
    s.phase.Asleep? ==>
      || s.kick
      || s.published == |s.popped|
      || (s.driver.Kicking? && s.publishedBefore <= |s.popped|)
  }

  ghost predicate Wakeful(s: State) { BatchKnown(s) && Armed(s) && Told(s) }

  /** The checks cover the entries below `n`, each exactly once and in order. */
  ghost predicate TileUpTo(checks: seq<Check>, n: nat) {
    && (if checks == [] then n == 0 else checks[0].from == 0 && checks[|checks| - 1].to == n)
    && (forall i :: 0 <= i < |checks| ==> checks[i].from <= checks[i].to)
    && (forall i :: 0 < i < |checks| ==> checks[i - 1].to == checks[i].from)
  }

  /** The check was true exactly when the driver's event was among the entries it covers. */
  ghost predicate Right(c: Check) {
    c.to - c.from < TWO16 ==> (c.answer <==> InWindow(c.from, c.to, c.event))
  }

  /** The notification checks tile the used entries. */
  ghost predicate Tiled(s: State) {
    && s.checked <= s.returned && s.q.numAdded == Wrap(s.returned - s.checked)
    && TileUpTo(s.checks, s.checked)
    && (forall i :: 0 <= i < |s.checks| ==> Right(s.checks[i]))
  }

  ghost predicate Inv(s: State) {
    && Fits(s.v, s.q) && Valid(s.q)
    && Counted(s) && Owned(s) && Intact(s) && Ordered(s) && Wakeful(s) && Tiled(s)
  }

  // ---- At most `size` chains are outstanding ------------------------------------------------------

  lemma Outstanding(s: State)
    requires Owned(s)
    ensures |s.heads| - |s.popped| + |s.held| + |s.log| - |s.taken| <= s.q.size
  {
    BoundedSet(s.out, s.q.size);
    assert |multiset(s.heads[|s.popped|..])| == |s.heads| - |s.popped|;
    assert |multiset(Ids(s.log)[|s.taken|..])| == |s.log| - |s.taken|;
    assert |multiset(s.out)| == |s.out|;
  }

  // ---- Every action keeps the invariants ----------------------------------------------------------

  lemma SameCounter(a: nat, b: nat, size: u16)
    requires b <= a <= b + size
    ensures Wrap(a) == Wrap(b) <==> a == b
  {
    WrapDistance(a, b);
  }

  lemma CountedAfterPut(s: State, h: u16)
    requires Fits(s.v, s.q) && AvailCounted(s) && Enabled(s, PutHead(h))
    ensures AvailCounted(Step(s, PutHead(h)))
  {
    WrapOfSum(|s.heads|, 1);
  }

  lemma CountedAfterPop(s: State)
    requires Fits(s.v, s.q) && AvailCounted(s) && Enabled(s, Pop)
    ensures AvailCounted(Step(s, Pop))
  {
    WrapOfSum(|s.popped|, 1);
  }

  lemma CountedAfterTake(s: State)
    requires Fits(s.v, s.q) && UsedCounted(s) && Enabled(s, TakeUsed)
    ensures UsedCounted(Step(s, TakeUsed))
  {
    WrapOfSum(|s.taken|, 1);
  }

  lemma CountedAfterPublish(s: State)
    requires Fits(s.v, s.q) && UsedCounted(s) && Enabled(s, StoreUsedIdx)
    ensures UsedCounted(Step(s, StoreUsedIdx))
  {
    WrapOfSum(s.returned, 1);
  }

  lemma KeepsAvailCounted(s: State, a: Action)
    requires Fits(s.v, s.q) && AvailCounted(s) && Enabled(s, a)
    ensures AvailCounted(Step(s, a))
  {
    match a
    case PutHead(h) => CountedAfterPut(s, h);
    case Pop => CountedAfterPop(s);
    case _ =>
  }

  lemma KeepsUsedCounted(s: State, a: Action)
    requires Fits(s.v, s.q) && UsedCounted(s) && Enabled(s, a)
    ensures UsedCounted(Step(s, a))
  {
    match a
    case TakeUsed => CountedAfterTake(s);
    case StoreUsedIdx => CountedAfterPublish(s);
    case _ =>
  }

  /** The head and the element that are read next are the ones the histories say. */
  ghost predicate ReadsRight(s: State)
    requires Fits(s.v, s.q)
  {
    && (s.iter.Some? && s.q.nextAvail != s.iter.value ==>
          |s.popped| < |s.heads| && HeadAt(s.v, s.q) == s.heads[|s.popped|])
    && (s.drvUsed != s.drvSeen ==>
          |s.taken| < |s.log| && s.v.used[Slot(s.drvUsed, s.q)] == s.log[|s.taken|])
  }

  lemma NextReads(s: State)
    requires Fits(s.v, s.q) && Valid(s.q) && Counted(s) && Intact(s)
    ensures ReadsRight(s)
  {
    ValidSizes(s.q);
    SlotOfWrapped(|s.popped|, s.q.size);
    SlotOfWrapped(|s.taken|, s.q.size);
    if |s.popped| < |s.heads| {
      assert AvailEntry(s.v, s.q, |s.popped|) == s.heads[|s.popped|];
    }
    if |s.taken| < |s.log| {
      assert Entry(s.v, s.q, |s.taken|) == s.log[|s.taken|];
    }
  }

  lemma KeepsOrdered(s: State, a: Action)
    requires Fits(s.v, s.q) && Ordered(s) && ReadsRight(s) && Enabled(s, a)
    ensures Ordered(Step(s, a))
  {
  }

  lemma IdsOfAppend(log: seq<UsedElem>, e: UsedElem)
    ensures Ids(log + [e]) == Ids(log) + [e.id]
  {
  }

  lemma PartitionAfterPut(out: set<int>, waiting: seq<int>, held: multiset<int>, done: seq<int>, h: int)
    requires Partition(out, waiting, held, done) && h !in out
    ensures Partition(out + {h}, waiting + [h], held, done)
  {
    assert multiset(out + {h}) == multiset(out) + multiset{h};
  }

  lemma PartitionAfterPop(out: set<int>, waiting: seq<int>, held: multiset<int>, done: seq<int>)
    requires Partition(out, waiting, held, done) && waiting != []
    ensures Partition(out, waiting[1..], held + multiset{waiting[0]}, done)
  {
    assert waiting == [waiting[0]] + waiting[1..];
  }

  lemma PartitionAfterWrite(out: set<int>, waiting: seq<int>, held: multiset<int>, done: seq<int>, id: int)
    requires Partition(out, waiting, held, done) && id in held
    ensures Partition(out, waiting, held - multiset{id}, done + [id])
  {
  }

  lemma PartitionAfterTake(out: set<int>, waiting: seq<int>, held: multiset<int>, done: seq<int>)
    requires Partition(out, waiting, held, done) && done != []
    ensures Partition(out - {done[0]}, waiting, held, done[1..])
  {
    assert done == [done[0]] + done[1..];
    assert done[0] in multiset(out);
    assert multiset(out - {done[0]}) == multiset(out) - multiset{done[0]};
  }

  lemma OwnedAfterPut(s: State, h: u16)
    requires Fits(s.v, s.q) && Owned(s) && Enabled(s, PutHead(h))
    ensures Owned(Step(s, PutHead(h)))
  {
    var w := s.heads[|s.popped|..];
    PartitionAfterPut(s.out, w, s.held, Ids(s.log)[|s.taken|..], h);
    assert Step(s, PutHead(h)).heads[|s.popped|..] == w + [h];
  }

  lemma OwnedAfterPop(s: State)
    requires Fits(s.v, s.q) && Owned(s) && ReadsRight(s) && Enabled(s, Pop)
    ensures Owned(Step(s, Pop))
  {
    var w := s.heads[|s.popped|..];
    PartitionAfterPop(s.out, w, s.held, Ids(s.log)[|s.taken|..]);
    assert w[1..] == s.heads[|s.popped| + 1..];
  }

  lemma OwnedAfterWrite(s: State, id: u16, len: u32)
    requires Fits(s.v, s.q) && Owned(s) && Enabled(s, WriteUsed(id, len))
    ensures Owned(Step(s, WriteUsed(id, len)))
  {
    var d := Ids(s.log)[|s.taken|..];
    IdsOfAppend(s.log, UsedElem(id, len));
    PartitionAfterWrite(s.out, s.heads[|s.popped|..], s.held, d, id);
    assert Ids(Step(s, WriteUsed(id, len)).log)[|s.taken|..] == d + [id];
  }

  lemma OwnedAfterTake(s: State)
    requires Fits(s.v, s.q) && Owned(s) && ReadsRight(s) && Enabled(s, TakeUsed)
    ensures Owned(Step(s, TakeUsed))
  {
    var d := Ids(s.log)[|s.taken|..];
    PartitionAfterTake(s.out, s.heads[|s.popped|..], s.held, d);
    assert d[1..] == Ids(s.log)[|s.taken| + 1..];
  }

  lemma KeepsOwned(s: State, a: Action)
    requires Fits(s.v, s.q) && Owned(s) && ReadsRight(s) && Enabled(s, a)
    ensures Owned(Step(s, a))
  {
    match a
    case PutHead(h) => OwnedAfterPut(s, h);
    case Pop => OwnedAfterPop(s);
    case WriteUsed(id, len) => OwnedAfterWrite(s, id, len);
    case TakeUsed => OwnedAfterTake(s);
    case _ =>
  }

  lemma AvailSlotsKept(s: State, n: nat, h: u16)
    requires Fits(s.v, s.q) && Valid(s.q) && |s.heads| - |s.popped| < s.q.size
    requires Intact(s) && n == Wrap(|s.heads|)
    ensures var v' := s.v.(avail := s.v.avail[Slot(n, s.q) := h]);
            forall i :: |s.popped| <= i < |s.heads| + 1 ==> AvailEntry(v', s.q, i) == (s.heads + [h])[i]
  {
    ValidSizes(s.q);
    SlotOfWrapped(|s.heads|, s.q.size);
    forall i | |s.popped| <= i < |s.heads|
      ensures i % s.q.size != Slot(n, s.q)
    {
      SlotsDiffer(i, |s.heads|, s.q.size);
    }
    assert forall i :: |s.popped| <= i < |s.heads| ==> AvailEntry(s.v, s.q, i) == s.heads[i];
  }

  lemma UsedSlotsKept(s: State, e: UsedElem)
    requires Fits(s.v, s.q) && Valid(s.q) && |s.log| - |s.taken| < s.q.size
    requires Intact(s) && s.q.nextUsed == Wrap(|s.log|)
    ensures forall i :: |s.taken| <= i < |s.log| + 1 ==> Entry(WriteElem(s.v, s.q, e), s.q, i) == (s.log + [e])[i]
  {
    ValidSizes(s.q);
    SlotOfWrapped(|s.log|, s.q.size);
    forall i | |s.taken| <= i < |s.log|
      ensures i % s.q.size != Slot(s.q.nextUsed, s.q)
    {
      SlotsDiffer(i, |s.log|, s.q.size);
    }
    assert forall i :: |s.taken| <= i < |s.log| ==> Entry(s.v, s.q, i) == s.log[i];
  }

  lemma SameRings(s: State, s': State)
    requires Fits(s.v, s.q) && Fits(s'.v, s'.q) && s'.q.size == s.q.size && Intact(s)
    requires s'.v.avail == s.v.avail && s'.v.used == s.v.used
    requires s'.heads == s.heads && s'.log == s.log && |s.popped| <= |s'.popped| && |s.taken| <= |s'.taken|
    ensures Intact(s')
  {
    assert forall i: nat :: AvailEntry(s'.v, s'.q, i) == AvailEntry(s.v, s.q, i);
    assert forall i: nat :: Entry(s'.v, s'.q, i) == Entry(s.v, s.q, i);
  }

  lemma IntactAfterPut(s: State, h: u16)
    requires Fits(s.v, s.q) && Valid(s.q) && Counted(s) && Intact(s) && Enabled(s, PutHead(h))
    requires |s.heads| - |s.popped| < s.q.size
    ensures Intact(Step(s, PutHead(h)))
  {
    AvailSlotsKept(s, s.drvAvail, h);
    var s' := Step(s, PutHead(h));
    assert forall i: nat :: Entry(s'.v, s'.q, i) == Entry(s.v, s.q, i);
  }

  lemma IntactAfterWrite(s: State, id: u16, len: u32)
    requires Fits(s.v, s.q) && Valid(s.q) && Counted(s) && Intact(s) && Enabled(s, WriteUsed(id, len))
    requires |s.log| - |s.taken| < s.q.size
    ensures Intact(Step(s, WriteUsed(id, len)))
  {
    UsedSlotsKept(s, UsedElem(id, len));
    var s' := Step(s, WriteUsed(id, len));
    assert forall i: nat :: AvailEntry(s'.v, s'.q, i) == AvailEntry(s.v, s.q, i);
  }

  lemma KeepsIntact(s: State, a: Action)
    requires Fits(s.v, s.q) && Valid(s.q) && Counted(s) && Intact(s) && Enabled(s, a)
    requires Owned(Step(s, a))
    ensures Intact(Step(s, a))
  {
    Outstanding(Step(s, a));
    match a
    case PutHead(h) => IntactAfterPut(s, h);
    case WriteUsed(id, len) => IntactAfterWrite(s, id, len);
    case _ => SameRings(s, Step(s, a));
  }

  /** A batch that starts at or below what the device has taken, and ends above it, makes the driver
      notify a device that waits. */
  lemma BatchKicks(s: State)
    requires Counted(s) && Wakeful(s) && s.q.size <= 32768
    requires s.phase.Asleep? && s.driver.Kicking?
    requires s.publishedBefore <= |s.popped| < s.published
    ensures MustKick(s, s.driver.before)
  {
    if s.q.eventIdx {
      EventReachedIsInWindow(s.publishedBefore, s.published, s.v.availEvent);
      assert Wrap(|s.popped|) == s.v.availEvent;
    }
  }

  lemma KeepsBatchKnown(s: State, a: Action)
    requires Fits(s.v, s.q) && AvailCounted(s) && BatchKnown(s) && Enabled(s, a)
    requires |s.heads| - |s.popped| <= s.q.size
    ensures BatchKnown(Step(s, a))
  {
  }

  lemma KeepsArmed(s: State, a: Action)
    requires Fits(s.v, s.q) && Armed(s) && Enabled(s, a)
    ensures Armed(Step(s, a))
  {
  }

  lemma ToldAfterLook(s: State, extra: bool)
    requires Fits(s.v, s.q) && s.q.size <= 32768 && Counted(s) && Wakeful(s) && Enabled(s, LookAtEvent(extra))
    ensures Told(Step(s, LookAtEvent(extra)))
  {
    if s.phase.Asleep? && !s.kick && s.published != |s.popped| {
      BatchKicks(s);
    }
  }

  lemma ToldAfterSleep(s: State)
    requires Fits(s.v, s.q) && AvailCounted(s) && Enabled(s, LookAgain) && |s.heads| - |s.popped| <= s.q.size
    ensures Told(Step(s, LookAgain))
  {
    SameCounter(s.published, |s.popped|, s.q.size);
  }

  lemma KeepsTold(s: State, a: Action)
    requires Fits(s.v, s.q) && s.q.size <= 32768 && Counted(s) && Wakeful(s) && Enabled(s, a)
    requires |s.heads| - |s.popped| <= s.q.size
    ensures Told(Step(s, a))
  {
    match a
    case LookAtEvent(extra) => ToldAfterLook(s, extra);
    case LookAgain => ToldAfterSleep(s);
    case _ =>
  }

  lemma TileOneMore(checks: seq<Check>, n: nat, c: Check)
    requires TileUpTo(checks, n) && c.from == n <= c.to
    ensures TileUpTo(checks + [c], c.to)
  {
    var cs := checks + [c];
    assert forall i :: 0 <= i < |checks| ==> cs[i] == checks[i];
  }

  lemma RightOneMore(checks: seq<Check>, c: Check)
    requires Right(c) && forall i :: 0 <= i < |checks| ==> Right(checks[i])
    ensures forall i :: 0 <= i < |checks + [c]| ==> Right((checks + [c])[i])
  {
  }

  lemma CheckIsRight(s: State, c: Check)
    requires s.q.eventIdx && UsedCounted(s) && Tiled(s)
    requires c == Check(s.checked, s.returned, s.v.usedEvent, NeedsNotification(s.v, s.q))
    ensures Right(c)
  {
    if s.returned - s.checked < TWO16 {
      NeedsNotificationIsWindow(s.v, s.q, s.checked, s.returned);
    }
  }

  lemma TiledAfterCheck(s: State)
    requires Fits(s.v, s.q) && UsedCounted(s) && Tiled(s) && Enabled(s, CheckNotification)
    ensures Tiled(Step(s, CheckNotification))
  {
    if s.q.eventIdx {
      var c := Check(s.checked, s.returned, s.v.usedEvent, NeedsNotification(s.v, s.q));
      TileOneMore(s.checks, s.checked, c);
      CheckIsRight(s, c);
      RightOneMore(s.checks, c);
    }
  }

  lemma TiledAfterPublish(s: State)
    requires Fits(s.v, s.q) && Counted(s) && Tiled(s) && Enabled(s, StoreUsedIdx)
    ensures Tiled(Step(s, StoreUsedIdx))
  {
    WrapOfSum(s.returned - s.checked, 1);
  }

  lemma KeepsTiled(s: State, a: Action)
    requires Fits(s.v, s.q) && Counted(s) && Tiled(s) && Enabled(s, a)
    ensures Tiled(Step(s, a))
  {
    match a
    case StoreUsedIdx => TiledAfterPublish(s);
    case CheckNotification => TiledAfterCheck(s);
    case _ =>
  }

  lemma KeepsValid(s: State, a: Action)
    requires Fits(s.v, s.q) && Valid(s.q) && Enabled(s, a)
    ensures Valid(Step(s, a).q)
  {
    ApplyKeepsValid(s.q, ChainPopped);
    ApplyKeepsValid(s.q, UsedAdded);
    ApplyKeepsValid(s.q, EventChecked);
  }

  lemma KeepsRings(s: State, a: Action)
    requires Inv(s) && Enabled(s, a)
    ensures Counted(Step(s, a)) && Owned(Step(s, a)) && Intact(Step(s, a)) && Ordered(Step(s, a))
  {
    NextReads(s);
    KeepsAvailCounted(s, a);
    KeepsUsedCounted(s, a);
    KeepsOwned(s, a);
    KeepsIntact(s, a);
    KeepsOrdered(s, a);
  }

  lemma KeepsEvents(s: State, a: Action)
    requires Inv(s) && Enabled(s, a)
    ensures Wakeful(Step(s, a)) && Tiled(Step(s, a)) && Valid(Step(s, a).q)
  {
    Outstanding(s);
    KeepsValid(s, a);
    KeepsBatchKnown(s, a);
    KeepsArmed(s, a);
    KeepsTold(s, a);
    KeepsTiled(s, a);
  }

  lemma StepKeepsInv(s: State, a: Action)
    requires Inv(s) && Enabled(s, a)
    ensures Inv(Step(s, a))
  {
    KeepsRings(s, a);
    KeepsEvents(s, a);
  }

  lemma {:induction false} RunKeepsInv(s: State, run: seq<Action>)
    requires Inv(s) && IsRun(s, run)
    ensures Inv(After(s, run))
    decreases |run|
  {
    if run != [] {
      StepKeepsInv(s, run[0]);
      RunKeepsInv(Step(s, run[0]), run[1..]);
    }
  }

  // ---- What holds in every reachable state --------------------------------------------------------

  lemma Reachable(s0: State, run: seq<Action>)
    requires Init(s0) && IsRun(s0, run)
    ensures Inv(After(s0, run))
  {
    assert Ids(s0.log)[|s0.taken|..] == [];
    RunKeepsInv(s0, run);
  }

  /** No lost wakeup: if `enable_notification` has returned false and the available ring is not
      empty, a notification is pending, or the driver is about to look at the event and will notify.
      A driver at rest and no notification mean that everything published has been taken. */
  lemma NoLostWakeup(s0: State, run: seq<Action>)
    requires Init(s0) && IsRun(s0, run)
    ensures var s := After(s0, run);
            s.phase.Asleep? && s.v.availIdx != s.q.nextAvail ==>
              s.kick || (s.driver.Kicking? && MustKick(s, s.driver.before))
    ensures var s := After(s0, run);
            s.phase.Asleep? && s.driver.Composing? && !s.kick ==>
              s.published <= |s.heads| && s.popped == s.heads[..s.published]
  {
    Reachable(s0, run);
    var s := After(s0, run);
    if s.phase.Asleep? && s.driver.Kicking? && !s.kick && s.published != |s.popped| {
      BatchKicks(s);
    }
  }

  /** A device that has declined notifications by flag is not notified, unless the driver does more than it
      must; one that has asked for them by flag is, for every batch. */
  lemma FlagDecides(s: State, before: u16)
    requires Fits(s.v, s.q) && !s.q.eventIdx
    ensures Enabled(s, Disable) ==> !MustKick(Step(s, Disable), before)
    ensures Enabled(s, StoreEvent) ==> MustKick(Step(s, StoreEvent), before)
  {
  }

  /** Where a waiting device stands after a notification and a new iterator. */
  function Woken(s: State): State {
    s.(kick := false, phase := Busy, iter := Some(s.v.availIdx), sampled := s.published)
  }

  /** A waiting device behind a driver at rest is notified, and can then take the next head. */
  lemma WokenDeviceProceeds(s0: State, run: seq<Action>)
    requires Init(s0) && IsRun(s0, run)
    ensures var s := After(s0, run);
            s.phase.Asleep? && s.driver.Composing? && !s.adding && s.v.availIdx != s.q.nextAvail ==>
              && Enabled(s, ConsumeKick)
              && Enabled(Step(s, ConsumeKick), StartIter)
              && Step(Step(s, ConsumeKick), StartIter) == Woken(s)
              && Enabled(Woken(s), Pop)
              && |s.popped| < |s.heads|
              && Step(Woken(s), Pop).popped == s.popped + [s.heads[|s.popped|]]
  {
    Reachable(s0, run);
    NoLostWakeup(s0, run);
    var s := After(s0, run);
    AlwaysAccepted(s);
    if s.phase.Asleep? && s.driver.Composing? && !s.adding && s.v.availIdx != s.q.nextAvail {
      HeadIsNext(Woken(s), s);
    }
  }

  lemma HeadIsNext(w: State, s: State)
    requires Inv(s) && w == Woken(s)
    ensures Fits(w.v, w.q) && ReadsRight(w)
  {
    assert Counted(w);
    NextReads(w);
  }

  lemma AlwaysAccepted(s: State)
    requires Inv(s)
    ensures IterAccepts(s.v, s.q)
  {
    Outstanding(s);
    WrapDistance(s.published, |s.popped|);
  }

  /** Popped heads are the published heads in order, none skipped or repeated; the driver gets back
      the returned elements in order; no iterator is refused; unread slots are intact; what the
      device holds is distinct and in range, so that `add_used` accepts it. */
  lemma HeadsInOrder(s0: State, run: seq<Action>)
    requires Init(s0) && IsRun(s0, run)
    ensures var s := After(s0, run);
            && s.popped <= s.heads && s.taken <= s.log
            && IterAccepts(s.v, s.q)
            && Intact(s)
            && (s.iter.Some? && s.q.nextAvail == s.iter.value ==>
                  s.sampled <= |s.heads| && s.popped == s.heads[..s.sampled])
            && (forall h :: h in s.held ==> s.held[h] == 1 && 0 <= h < s.q.size)
  {
    Reachable(s0, run);
    var s := After(s0, run);
    AlwaysAccepted(s);
    Outstanding(s);
    if s.iter.Some? {
      SameCounter(s.sampled, |s.popped|, s.q.size);
    }
    forall h | h in s.held
      ensures s.held[h] == 1 && 0 <= h < s.q.size
    {
      assert multiset(s.out)[h] >= s.held[h];
    }
  }

  lemma {:induction false} TilesAscend(checks: seq<Check>, n: nat, i: nat, j: nat)
    requires TileUpTo(checks, n) && i < j < |checks|
    ensures checks[i].to <= checks[j].from
    decreases j - i
  {
    if i + 1 < j {
      TilesAscend(checks, n, i, j - 1);
    }
  }

  predicate Covers(c: Check, k: nat) { c.from <= k < c.to }

  lemma SomeTile(checks: seq<Check>, n: nat, k: nat) returns (i: nat)
    requires TileUpTo(checks, n) && k < n
    ensures i < |checks| && Covers(checks[i], k)
  {
    i := |checks| - 1;
    while k < checks[i].from
      invariant i < |checks| && k < checks[i].to
      decreases i
    {
      i := i - 1;
    }
  }

  /** Each used entry `k` that has been checked for belongs to exactly one check, and each check
      that covers fewer than 2^16 entries was true exactly when the driver's event was among them. */
  lemma ChecksTileTheUsedRing(s0: State, run: seq<Action>, k: nat)
    requires Init(s0) && IsRun(s0, run)
    ensures var s := After(s0, run);
            && (k < s.checked ==> exists i :: 0 <= i < |s.checks| && Covers(s.checks[i], k))
            && (forall i, j :: 0 <= i < j < |s.checks| ==> !(Covers(s.checks[i], k) && Covers(s.checks[j], k)))
            && (forall i :: 0 <= i < |s.checks| ==> Right(s.checks[i]))
  {
    Reachable(s0, run);
    var s := After(s0, run);
    if k < s.checked {
      var i := SomeTile(s.checks, s.checked, k);
    }
    forall i, j | 0 <= i < j < |s.checks|
      ensures !(Covers(s.checks[i], k) && Covers(s.checks[j], k))
    {
      TilesAscend(s.checks, s.checked, i, j);
    }
  }
}
