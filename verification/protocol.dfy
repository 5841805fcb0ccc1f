/**
 The split virtqueue as a protocol: a driver and a device that interleave their loads and stores
 in any order (sequentially consistent). The device performs the actions of `Rings`; the driver
 follows sections 2.7.10 and 2.7.13 of VIRTIO 1.2. The unbounded histories in the state are what
 the wrapping counters in the rings stand for.
 */
module Protocol {
  import opened Words
  import opened QueueState
  import opened Rings

  /** `Enabling` lies between the event store and the index load of `enable_notification`;
      the device is `Asleep` after that method has returned false. */
  datatype DevicePhase = Busy | Enabling | Asleep

  /** `Kicking` lies between the driver's index store and its look at the event field;
      `before` is the index it replaced. */
  datatype DriverPhase = Composing | Kicking(before: u16)

  /** One call of `needs_notification` with EVENT_IDX: the entries it covers and its answer. */
  datatype Check = Check(from: nat, to: nat, event: u16, answer: bool)

  datatype State = State(
    v: View,
    q: Regs,
    phase: DevicePhase,
    iter: Option<u16>,         // the last index of the live iterator
    adding: bool,              // inside `add_used`, after the element write
    kick: bool,                // an available-buffer notification is pending
    driver: DriverPhase,
    drvAvail: u16,             // the driver's counters
    drvUsed: u16,
    drvSeen: u16,
    heads: seq<int>,           // heads put in the available ring, ever
    published: nat,            // how many of them the index has covered
    publishedBefore: nat,      // the same, before the last index store
    sampled: nat,              // how many of them the live iterator covers
    popped: seq<int>,          // heads the device has taken
    held: multiset<int>,       // heads taken and not yet returned
    log: seq<UsedElem>,        // elements written to the used ring, ever
    returned: nat,             // how many of them the index has covered
    seen: nat,                 // how many of them the driver's last sample covers
    taken: seq<UsedElem>,      // elements the driver has taken back
    out: set<int>,             // heads the driver has given away and not taken back
    checked: nat,              // entries covered by notification checks
    checks: seq<Check>)

  datatype Action =
    // driver
    | PutHead(head: u16)
    | StoreAvailIdx
    | LookAtEvent(extra: bool)
    | SampleUsedIdx
    | TakeUsed
    | StoreUsedEvent(event: u16)
    // device
    | Disable
    | StartIter
    | Pop
    | WriteUsed(id: u16, len: u32)
    | StoreUsedIdx
    | CheckNotification
    | StoreEvent
    | LookAgain
    | ConsumeKick
    | Poll

  /** The driver must notify: the rule it applies to the event field or the flags it reads. */
  predicate MustKick(s: State, before: u16) {
    if s.q.eventIdx then EventReached(s.v.availEvent, s.v.availIdx, before) else s.v.usedFlags == 0
  }

  predicate Enabled(s: State, a: Action)
    requires Fits(s.v, s.q)
  {
    match a
    // A driver never makes a chain available that is still outstanding.
    case PutHead(h) => s.driver.Composing? && h < s.q.size && h !in s.out
    case StoreAvailIdx => s.driver.Composing? && s.published < |s.heads|
    case LookAtEvent(_) => s.driver.Kicking?
    case SampleUsedIdx => true
    case TakeUsed => s.drvUsed != s.drvSeen
    case StoreUsedEvent(_) => true
    case Disable => s.phase.Busy? && !s.adding
    case StartIter => s.phase.Busy? && !s.adding && IterAccepts(s.v, s.q)
    case Pop => s.phase.Busy? && !s.adding && s.iter.Some? && s.q.nextAvail != s.iter.value
    // A device returns each chain it has popped once, in any order, also while it waits.
    case WriteUsed(id, _) => !s.phase.Enabling? && !s.adding && (id as int) in s.held
    case StoreUsedIdx => s.adding
    case CheckNotification => !s.phase.Enabling? && !s.adding
    case StoreEvent => s.phase.Busy? && !s.adding
    case LookAgain => s.phase.Enabling?
    case ConsumeKick => s.kick && !s.phase.Enabling?
    case Poll => s.phase.Asleep?
  }

  function Step(s: State, a: Action): (s': State)
    requires Fits(s.v, s.q) && Enabled(s, a)
    ensures Fits(s'.v, s'.q) && s'.q.size == s.q.size && s'.q.eventIdx == s.q.eventIdx
  {
    match a
    case PutHead(h) =>
      SlotInRange(s.drvAvail, s.q.size);
      s.(v := s.v.(avail := s.v.avail[s.drvAvail % s.q.size := h]), drvAvail := WrapAdd(s.drvAvail, 1),
         heads := s.heads + [h], out := s.out + {h as int})
    case StoreAvailIdx =>
      s.(v := s.v.(availIdx := s.drvAvail), driver := Kicking(s.v.availIdx),
         published := |s.heads|, publishedBefore := s.published)
    case LookAtEvent(extra) =>
      s.(driver := Composing, kick := s.kick || extra || MustKick(s, s.driver.before))
    case SampleUsedIdx => s.(drvSeen := s.v.usedIdx, seen := s.returned)
    case TakeUsed =>
      SlotInRange(s.drvUsed, s.q.size);
      var e := s.v.used[s.drvUsed % s.q.size];
      s.(drvUsed := WrapAdd(s.drvUsed, 1), taken := s.taken + [e], out := s.out - {e.id as int})
    case StoreUsedEvent(event) => s.(v := s.v.(usedEvent := event))
    case Disable => s.(v := SetNotification(s.v, s.q, false))
    case StartIter => s.(iter := Some(s.v.availIdx), sampled := s.published)
    case Pop =>
      var h := HeadAt(s.v, s.q);
      s.(q := Apply(s.q, ChainPopped), popped := s.popped + [h], held := s.held + multiset{h as int})
    case WriteUsed(id, len) =>
      var e := UsedElem(id, len);
      s.(v := WriteElem(s.v, s.q, e), adding := true, log := s.log + [e], held := s.held - multiset{id as int})
    case StoreUsedIdx =>
      s.(v := PublishUsed(s.v, s.q), q := Apply(s.q, UsedAdded), adding := false, returned := |s.log|)
    case CheckNotification =>
      if s.q.eventIdx then
        s.(q := Apply(s.q, EventChecked), checked := s.returned,
           checks := s.checks + [Check(s.checked, s.returned, s.v.usedEvent, NeedsNotification(s.v, s.q))])
      else
        s
    case StoreEvent => s.(v := SetNotification(s.v, s.q, true), phase := Enabling, iter := None)
    case LookAgain => s.(phase := if s.v.availIdx != s.q.nextAvail then Busy else Asleep)
    case ConsumeKick => s.(kick := false, phase := Busy)
    case Poll => s.(phase := Busy)
  }

  /** A freshly configured queue; the event fields hold anything. */
  ghost predicate Init(s: State) {
    && Fits(s.v, s.q) && Valid(s.q)
    && s.q.nextAvail == s.q.nextUsed == s.q.numAdded == 0
    && s.v.availIdx == s.v.usedIdx == 0
    && s.phase.Busy? && s.iter.None? && !s.adding && !s.kick && s.driver.Composing?
    && s.drvAvail == s.drvUsed == s.drvSeen == 0
    && s.heads == s.popped == [] && s.log == s.taken == []
    && s.published == s.publishedBefore == s.sampled == s.returned == s.seen == s.checked == 0
    && s.held == multiset{} && s.out == {} && s.checks == []
  }

  /** Every action of the run is enabled when it is taken. */
  predicate IsRun(s: State, run: seq<Action>)
    requires Fits(s.v, s.q)
    decreases |run|
  {
    run == [] || (Enabled(s, run[0]) && IsRun(Step(s, run[0]), run[1..]))
  }

  function After(s: State, run: seq<Action>): (s': State)
    requires Fits(s.v, s.q) && IsRun(s, run)
    ensures Fits(s'.v, s'.q)
    decreases |run|
  {
    if run == [] then s else After(Step(s, run[0]), run[1..])
  }
}
