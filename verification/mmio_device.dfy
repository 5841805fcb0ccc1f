/**
 A virtio device behind MMIO registers: status, feature negotiation and queue configuration.
 A register word is represented by the set of its one bits.
 */
module MmioDevice {
  import opened Words
  import GuestMemory
  import opened QueueState
  import opened VirtQueue

  type Bits = set<nat>

  /** Bit `i` of `v`. */
  predicate Bit(v: nat, i: nat)
    decreases i
  {
    if i == 0 then v % 2 == 1 else Bit(v / 2, i - 1)
  }

  function BitsOf(v: nat, width: nat): Bits { set i | 0 <= i < width && Bit(v, i) }

  // Bits of the device status.
  const ACKNOWLEDGE: nat := 0
  const DRIVER: nat := 1
  const DRIVER_OK: nat := 2
  const FEATURES_OK: nat := 3
  const FAILED: nat := 7

  // VIRTIO_F_RING_EVENT_IDX
  const EVENT_IDX: nat := 29

  /** `VirtioConfig` as a value. `activations` counts the successful calls of `activate` since the
      last reset. */
  datatype Device = Device(
    deviceFeatures: Bits,
    driverFeatures: Bits,
    deviceFeaturesSelect: u32,
    driverFeaturesSelect: u32,
    status: Bits,
    queueSelect: u16,
    queues: seq<Regs>,
    configSpace: seq<u8>,
    interruptStatus: Bits,
    activations: nat)

  /** What the device-specific `activate` and `reset` answer if the write calls them. */
  datatype Hooks = Hooks(activateOk: bool, resetOk: bool)

  /** One write of the driver. */
  datatype Access = Access(offset: u64, data: seq<u8>, hooks: Hooks)

  function Restarted(d: Device): Device {
    d.(driverFeatures := {}, deviceFeaturesSelect := 0, driverFeaturesSelect := 0, status := {}, queueSelect := 0,
       queues := seq(|d.queues|, i requires 0 <= i < |d.queues| => Apply(d.queues[i], Reset)),
       interruptStatus := {}, activations := 0)
  }

  /** The status has the bits `present` and lacks the other bits of `cleared`. */
  predicate StatusIs(d: Device, present: Bits, cleared: Bits) {
    present <= d.status && (cleared - present) !! d.status
  }

  /** The driver accepted only features that were offered. */
  predicate FeaturesOffered(d: Device) { d.driverFeatures <= d.deviceFeatures }

  function WithEventIdx(qs: seq<Regs>): seq<Regs> {
    seq(|qs|, i requires 0 <= i < |qs| => Apply(qs[i], SetEventIdx(true)))
  }

  /** The driver writes `st` to the status register. */
  function AckStatus(d: Device, st: Bits, hooks: Hooks): Device {
    var changed := st - d.status;
    if changed == {ACKNOWLEDGE} && d.status == {} then d.(status := st)
    else if changed == {DRIVER} && d.status == {ACKNOWLEDGE} then d.(status := st)
    else if changed == {FEATURES_OK} && d.status == {ACKNOWLEDGE, DRIVER} then
      if !FeaturesOffered(d) then d
      else d.(queues := if EVENT_IDX in d.driverFeatures then WithEventIdx(d.queues) else d.queues, status := st)
    else if changed == {DRIVER_OK} && d.status == {ACKNOWLEDGE, DRIVER, FEATURES_OK} then
      if hooks.activateOk then d.(status := st, activations := d.activations + 1) else d
    else if FAILED in st then d.(status := d.status + {FAILED})
    else if st == {} then (if hooks.resetOk then Restarted(d) else d)
    else d
  }

  // ---- Registers ----------------------------------------------------------------------------------

  /** The little-endian word that is written. */
  function Word(data: seq<u8>): u32
    requires |data| == 4
  {
    GuestMemory.FromLe32(data[0], data[1], data[2], data[3])
  }

  /** The word cut to 16 bits. */
  function Half(data: seq<u8>): u16
    requires |data| == 4
  {
    Word(data) % TWO16
  }

  /** Replaces the low (page 0) or the high (page 1) half of a feature word. */
  function WithFeaturesPage(features: Bits, page: u32, v: Bits): Bits {
    if page == 0 then (set b | b in features && b >= 32) + v
    else if page == 1 then (set b | b in features && b < 32) + (set b | b in v :: b + 32)
    else features
  }

  /** The setter of the selected queue that a register stands for. */
  function QueueCall(offset: u64, data: seq<u8>): Option<Call>
    requires |data| == 4
  {
    if offset == 0x38 then Some(SetSize(Half(data)))
    else if offset == 0x44 then Some(SetReady(Word(data) == 1))
    else if offset == 0x80 then Some(SetDescTable(Some(Word(data)), None))
    else if offset == 0x84 then Some(SetDescTable(None, Some(Word(data))))
    else if offset == 0x90 then Some(SetAvailRing(Some(Word(data)), None))
    else if offset == 0x94 then Some(SetAvailRing(None, Some(Word(data))))
    else if offset == 0xa0 then Some(SetUsedRing(Some(Word(data)), None))
    else if offset == 0xa4 then Some(SetUsedRing(None, Some(Word(data))))
    else None
  }

  function UpdateQueue(d: Device, c: Call): Device {
    if StatusIs(d, {FEATURES_OK}, {DRIVER_OK, FAILED}) && d.queueSelect < |d.queues| then
      d.(queues := d.queues[d.queueSelect := Apply(d.queues[d.queueSelect], c)])
    else
      d
  }

  function WriteConfig(space: seq<u8>, offset: nat, data: seq<u8>): seq<u8> {
    if offset >= |space| then space
    else
      var end := Min(offset + |data|, |space|);
      space[..offset] + data[..end - offset] + space[end..]
  }

  /** A 32-bit write to a register. */
  function RegisterWritten(d: Device, offset: u64, data: seq<u8>, hooks: Hooks): Device
    requires |data| == 4
  {
    if offset == 0x14 then d.(deviceFeaturesSelect := Word(data))
    else if offset == 0x20 then
      if StatusIs(d, {DRIVER}, {FEATURES_OK, FAILED}) then
        d.(driverFeatures := WithFeaturesPage(d.driverFeatures, d.driverFeaturesSelect, BitsOf(Word(data), 32)))
      else d
    else if offset == 0x24 then d.(driverFeaturesSelect := Word(data))
    else if offset == 0x30 then d.(queueSelect := Half(data))
    else if offset == 0x64 then
      if StatusIs(d, {DRIVER_OK}, {}) then d.(interruptStatus := d.interruptStatus - BitsOf(data[0], 8)) else d
    else if offset == 0x70 then AckStatus(d, BitsOf(data[0], 8), hooks)
    else if QueueCall(offset, data).Some? then UpdateQueue(d, QueueCall(offset, data).value)
    else d
  }

  /** A write to the MMIO space of the device. */
  function Written(d: Device, a: Access): Device {
    if a.offset <= 0xff && |a.data| == 4 then RegisterWritten(d, a.offset, a.data, a.hooks)
    else if 0x100 <= a.offset <= 0xfff && StatusIs(d, {DRIVER}, {FAILED}) then
      d.(configSpace := WriteConfig(d.configSpace, a.offset - 0x100, a.data))
    else d
  }

  function AfterWrites(d: Device, run: seq<Access>): Device
    decreases |run|
  {
    if run == [] then d else AfterWrites(Written(d, run[0]), run[1..])
  }

  // ---- Invariants over every run --------------------------------------------------------------------

  ghost predicate AllValid(qs: seq<Regs>) {
    forall i :: 0 <= i < |qs| ==> Valid(qs[i])
  }

  /** Every queue has EVENT_IDX switched on (`b`) or off. */
  ghost predicate AllEventIdx(qs: seq<Regs>, b: bool) {
    forall i :: 0 <= i < |qs| ==> qs[i].eventIdx == b
  }

  /** The device has just been created or reset. */
  ghost predicate IsFresh(d: Device) {
    d.status == {} && d.activations == 0 && AllValid(d.queues) && AllEventIdx(d.queues, false)
  }

  /** The negotiated features are offered ones and every queue agrees with them. */
  ghost predicate Negotiated(d: Device) {
    FeaturesOffered(d) && AllEventIdx(d.queues, EVENT_IDX in d.driverFeatures)
  }

  ghost predicate Inv(d: Device) {
    && (FEATURES_OK !in d.status && DRIVER_OK !in d.status ==> AllEventIdx(d.queues, false))
    && (FEATURES_OK in d.status ==> Negotiated(d))
    && d.activations == (if DRIVER_OK in d.status then 1 else 0)
    && AllValid(d.queues)
  }

  lemma QueuesAfterReset(d: Device)
    requires AllValid(d.queues)
    ensures AllValid(Restarted(d).queues) && AllEventIdx(Restarted(d).queues, false)
  {
    forall i | 0 <= i < |d.queues|
      ensures Valid(Restarted(d).queues[i])
    {
      ApplyKeepsValid(d.queues[i], Reset);
    }
  }

  lemma AckKeepsInv(d: Device, st: Bits, hooks: Hooks)
    requires Inv(d)
    ensures Inv(AckStatus(d, st, hooks))
  {
    if st == {} {
      QueuesAfterReset(d);
    } else {
      assert forall b :: b in st ==> b in d.status || b in st - d.status;
      assert forall i :: 0 <= i < |d.queues| ==> Valid(d.queues[i]) ==> Valid(WithEventIdx(d.queues)[i]);
    }
  }

  lemma WriteKeepsInv(d: Device, a: Access)
    requires Inv(d)
    ensures Inv(Written(d, a))
  {
    if a.offset <= 0xff && |a.data| == 4 {
      if a.offset == 0x20 {
        assert StatusIs(d, {DRIVER}, {FEATURES_OK, FAILED}) ==> FEATURES_OK !in d.status;
      } else if a.offset == 0x70 {
        AckKeepsInv(d, BitsOf(a.data[0], 8), a.hooks);
      } else if QueueCall(a.offset, a.data).Some? && d.queueSelect < |d.queues| {
        ApplyKeepsValid(d.queues[d.queueSelect], QueueCall(a.offset, a.data).value);
      }
    }
  }

  lemma {:induction false} RunKeepsInv(d: Device, run: seq<Access>)
    requires Inv(d)
    ensures Inv(AfterWrites(d, run))
    decreases |run|
  {
    if run != [] {
      WriteKeepsInv(d, run[0]);
      RunKeepsInv(Written(d, run[0]), run[1..]);
    }
  }

  /** The write makes the device call `activate`. */
  predicate CallsActivate(d: Device, a: Access) {
    && a.offset == 0x70 && |a.data| == 4
    && d.status == {ACKNOWLEDGE, DRIVER, FEATURES_OK}
    && BitsOf(a.data[0], 8) - d.status == {DRIVER_OK}
  }

  /** After any writes to a fresh device: FEATURES_OK means that only offered features are accepted
      and that every queue's EVENT_IDX setting is the negotiated one; so it is whenever `activate`
      is called. Between resets at most one activation succeeds. */
  lemma NegotiationIsSound(d: Device, run: seq<Access>, a: Access)
    requires IsFresh(d)
    ensures var d' := AfterWrites(d, run);
            && (FEATURES_OK in d'.status ==> Negotiated(d'))
            && (CallsActivate(d', a) ==> Negotiated(d') && d'.activations == 0)
            && (Written(d', a).activations > d'.activations ==> CallsActivate(d', a) && a.hooks.activateOk)
            && d'.activations <= 1
  {
    RunKeepsInv(d, run);
  }

  lemma {:induction false} ZeroBits(v: nat, width: nat, bound: nat)
    requires v < bound && bound == Pow2(width)
    requires forall i :: 0 <= i < width ==> !Bit(v, i)
    ensures v == 0
    decreases width
  {
    if width > 0 {
      assert !Bit(v, 0);
      assert forall i :: 0 <= i < width - 1 ==> Bit(v / 2, i) == Bit(v, i + 1);
      ZeroBits(v / 2, width - 1, bound / 2);
    }
  }

  function Pow2(n: nat): nat {
    if n == 0 then 1 else 2 * Pow2(n - 1)
  }

  /** A write of 0 to the status register. */
  predicate AsksForReset(a: Access) { a.offset == 0x70 && |a.data| == 4 && a.data[0] == 0 }

  lemma OnlyZeroIsEmpty(b: u8)
    ensures BitsOf(b, 8) == {} ==> b == 0
  {
    if BitsOf(b, 8) == {} {
      forall i | 0 <= i < 8
        ensures !Bit(b, i)
      {
        assert i !in BitsOf(b, 8);
      }
      assert Pow2(8) == 256;
      ZeroBits(b, 8, 256);
    }
  }

  lemma ActivatedStep(d: Device, a: Access)
    requires DRIVER_OK in d.status && !AsksForReset(a)
    ensures var d' := Written(d, a);
            DRIVER_OK in d'.status && d'.queues == d.queues && d'.activations == d.activations
  {
    if a.offset == 0x70 && |a.data| == 4 {
      OnlyZeroIsEmpty(a.data[0]);
    }
  }

  /** Once DRIVER_OK is set it stays set, no write but a reset changes any register of any queue, and
      the device is not activated again. */
  lemma {:induction false} ActivatedDeviceIsFixed(d: Device, run: seq<Access>)
    requires DRIVER_OK in d.status && forall i :: 0 <= i < |run| ==> !AsksForReset(run[i])
    ensures var d' := AfterWrites(d, run);
            DRIVER_OK in d'.status && d'.queues == d.queues && d'.activations == d.activations
    decreases |run|
  {
    if run != [] {
      ActivatedStep(d, run[0]);
      ActivatedDeviceIsFixed(Written(d, run[0]), run[1..]);
    }
  }

  lemma FailedStep(d: Device, a: Access)
    requires FAILED in d.status && !AsksForReset(a)
    ensures Written(d, a).status == d.status
  {
    if a.offset == 0x70 && |a.data| == 4 {
      OnlyZeroIsEmpty(a.data[0]);
      assert d.status + {FAILED} == d.status;
    }
  }

  /** Once FAILED is set, only a write of 0 to the status register can change the status. */
  lemma {:induction false} FailedIsFinal(d: Device, run: seq<Access>)
    requires FAILED in d.status && forall i :: 0 <= i < |run| ==> !AsksForReset(run[i])
    ensures AfterWrites(d, run).status == d.status
    decreases |run|
  {
    if run != [] {
      FailedStep(d, run[0]);
      FailedIsFinal(Written(d, run[0]), run[1..]);
    }
  }

  // ---- Reset ----------------------------------------------------------------------------------------

  /** A queue as it was created: not ready, of the largest size, everything else zero. */
  predicate Pristine(q: Regs) {
    && !q.ready && q.size == q.maxSize && !q.eventIdx
    && q.nextAvail == 0 && q.nextUsed == 0 && q.numAdded == 0
    && q.descTable == 0 && q.availRing == 0 && q.usedRing == 0
  }

  /** `d'` is `d` after a reset: what the driver did is forgotten, what the device offers is kept. */
  ghost predicate IsReset(d: Device, d': Device) {
    && d'.status == {} && d'.driverFeatures == {} && d'.activations == 0 && d'.interruptStatus == {}
    && d'.deviceFeaturesSelect == 0 && d'.driverFeaturesSelect == 0 && d'.queueSelect == 0
    && d'.deviceFeatures == d.deviceFeatures && d'.configSpace == d.configSpace
    && |d'.queues| == |d.queues|
    && forall i :: 0 <= i < |d.queues| ==> Pristine(d'.queues[i]) && d'.queues[i].maxSize == d.queues[i].maxSize
  }

  lemma AckResets(d: Device, hooks: Hooks)
    ensures hooks.resetOk ==> IsReset(d, AckStatus(d, {}, hooks))
    ensures !hooks.resetOk ==> AckStatus(d, {}, hooks) == d
  {
  }

  lemma {:induction false} ZeroHasNoBits(i: nat)
    ensures !Bit(0, i)
    decreases i
  {
    if i > 0 {
      ZeroHasNoBits(i - 1);
    }
  }

  /** A write of 0 to the status register resets the device from every state, also a failed one, unless the
      device cannot be reset; then nothing changes. */
  lemma ZeroResets(d: Device, a: Access)
    requires AsksForReset(a)
    ensures a.hooks.resetOk ==> IsReset(d, Written(d, a))
    ensures !a.hooks.resetOk ==> Written(d, a) == d
  {
    forall i | 0 <= i < 8
      ensures !Bit(0, i)
    {
      ZeroHasNoBits(i);
    }
    assert BitsOf(0, 8) == {};
    AckResets(d, a.hooks);
  }

  // ---- What each write can change -----------------------------------------------------------------------

  /** The order in which a driver sets the status bits. */
  const ORDER: seq<nat> := [ACKNOWLEDGE, DRIVER, FEATURES_OK, DRIVER_OK]

  function FirstBits(k: nat): Bits
    requires k <= 4
  {
    set i | 0 <= i < k :: ORDER[i]
  }

  /** The written status adds the next bit in order to exactly the bits before it, and nothing forbids it. */
  predicate NextInOrder(d: Device, st: Bits, hooks: Hooks, k: nat)
    requires k < 4
  {
    && d.status == FirstBits(k) && st - d.status == {ORDER[k]}
    && (k == 2 ==> FeaturesOffered(d)) && (k == 3 ==> hooks.activateOk)
  }

  lemma Orders()
    ensures FirstBits(0) == {} && FirstBits(1) == {ACKNOWLEDGE} && FirstBits(2) == {ACKNOWLEDGE, DRIVER}
    ensures FirstBits(3) == {ACKNOWLEDGE, DRIVER, FEATURES_OK}
  {
    assert ORDER[0] == ACKNOWLEDGE && ORDER[1] == DRIVER && ORDER[2] == FEATURES_OK && ORDER[3] == DRIVER_OK;
  }

  /** Apart from failure and reset the status moves exactly along the order, and then to what is written. */
  lemma StatusMovesInOrder(d: Device, st: Bits, hooks: Hooks)
    requires st != {} && FAILED !in st
    ensures AckStatus(d, st, hooks).status ==
            if exists k :: 0 <= k < 4 && NextInOrder(d, st, hooks, k) then st else d.status
  {
    Orders();
    assert NextInOrder(d, st, hooks, 0) <==> d.status == {} && st - d.status == {ACKNOWLEDGE};
    assert NextInOrder(d, st, hooks, 1) <==> d.status == {ACKNOWLEDGE} && st - d.status == {DRIVER};
    assert NextInOrder(d, st, hooks, 2) <==>
      d.status == {ACKNOWLEDGE, DRIVER} && st - d.status == {FEATURES_OK} && FeaturesOffered(d);
    assert NextInOrder(d, st, hooks, 3) <==>
      d.status == {ACKNOWLEDGE, DRIVER, FEATURES_OK} && st - d.status == {DRIVER_OK} && hooks.activateOk;
  }

  /** A driver that gives up is noted in every state. */
  lemma FailureIsNoted(d: Device, st: Bits, hooks: Hooks)
    requires FAILED in st
    ensures AckStatus(d, st, hooks).status == d.status + {FAILED}
  {
    if FAILED !in d.status {
      assert FAILED in st - d.status;
    }
  }

  /** The registers of a queue take writes only between agreement on the features and their use, those of
      the features only before it; a failed driver writes neither. */
  lemma Gates(d: Device, offset: u64, data: seq<u8>, hooks: Hooks)
    requires |data| == 4
    ensures QueueCall(offset, data).Some? && RegisterWritten(d, offset, data, hooks) != d ==>
              FEATURES_OK in d.status && DRIVER_OK !in d.status && FAILED !in d.status
    ensures offset == 0x20 && RegisterWritten(d, offset, data, hooks) != d ==>
              DRIVER in d.status && FEATURES_OK !in d.status && FAILED !in d.status
    ensures offset == 0x64 && RegisterWritten(d, offset, data, hooks) != d ==> DRIVER_OK in d.status
  {
  }

  /** An interrupt is acknowledged bit by bit. */
  lemma InterruptsAcknowledged(d: Device, data: seq<u8>, hooks: Hooks, b: nat)
    requires |data| == 4 && DRIVER_OK in d.status
    ensures b in RegisterWritten(d, 0x64, data, hooks).interruptStatus <==>
              b in d.interruptStatus && !(b < 8 && Bit(data[0], b))
  {
  }

  /** A page of the features is replaced, its bits numbered from 32 times the page; no third page exists. */
  lemma PageReplaced(features: Bits, page: u32, v: u32, b: nat)
    requires b < 64 && forall x :: x in features ==> x < 64
    ensures b in WithFeaturesPage(features, page, BitsOf(v, 32)) <==>
            if 32 * page <= b < 32 * page + 32 then Bit(v, b - 32 * page) else b in features
  {
    if page == 1 && b >= 32 {
      assert b - 32 in BitsOf(v, 32) <==> Bit(v, b - 32);
    }
  }

  /** A write to the configuration space replaces the bytes it covers, as far as the space goes. */
  lemma ConfigBytes(space: seq<u8>, offset: nat, data: seq<u8>, i: nat)
    requires i < |space|
    ensures |WriteConfig(space, offset, data)| == |space|
    ensures WriteConfig(space, offset, data)[i] == if offset <= i < offset + |data| then data[i - offset] else space[i]
  {
  }

  predicate KnownRegister(offset: u64) {
    offset in {0x14, 0x20, 0x24, 0x30, 0x38, 0x44, 0x64, 0x70, 0x80, 0x84, 0x90, 0x94, 0xa0, 0xa4}
  }

  /** Everything else that is written is ignored: other registers, other widths, addresses beyond. */
  lemma OtherWritesIgnored(d: Device, a: Access)
    requires (a.offset <= 0xff && (|a.data| != 4 || !KnownRegister(a.offset))) || a.offset > 0xfff
    ensures Written(d, a) == d
  {
  }

  // ---- The device -----------------------------------------------------------------------------------

  class VirtioDevice {
    const deviceFeatures: Bits
    var driverFeatures: Bits
    var deviceFeaturesSelect: u32
    var driverFeaturesSelect: u32
    var status: Bits
    var queueSelect: u16
    const queues: seq<Queue>
    var configSpace: seq<u8>
    var interruptStatus: Bits
    var activations: nat

    /** The queues are separate objects, and there are fewer than 2^16 of them. */
    ghost predicate WellFormed() {
      |queues| < TWO16 && forall i, j :: 0 <= i < j < |queues| ==> queues[i] != queues[j]
    }

    ghost function QueueStates(): (r: seq<Regs>)
      reads queues
      ensures |r| == |queues|
    {
      seq(|queues|, i requires 0 <= i < |queues| reads queues => queues[i].State())
    }

    ghost function State(): Device
      reads this, queues
    {
      Device(deviceFeatures, driverFeatures, deviceFeaturesSelect, driverFeaturesSelect, status, queueSelect,
             QueueStates(), configSpace, interruptStatus, activations)
    }

    constructor (features: Bits, queues: seq<Queue>, configSpace: seq<u8>)
      requires |queues| < TWO16 && forall i, j :: 0 <= i < j < |queues| ==> queues[i] != queues[j]
      ensures WellFormed() && this.queues == queues
      ensures AllValid(QueueStates()) && AllEventIdx(QueueStates(), false) ==> IsFresh(State())
    {
      deviceFeatures, driverFeatures, deviceFeaturesSelect, driverFeaturesSelect := features, {}, 0, 0;
      status, queueSelect, this.queues, this.configSpace := {}, 0, queues, configSpace;
      interruptStatus, activations := {}, 0;
    }

    /** `check_device_status`: one comparison of masked words tells whether the bits `present` are all
        set and the other bits of `cleared` are all clear. */
    method CheckDeviceStatus(present: Bits, cleared: Bits) returns (ok: bool)
      ensures ok <==> present <= status && (cleared - present) !! status
      ensures ok <==> StatusIs(State(), present, cleared)
    {
      ok := status * (present + cleared) == present;
      if ok {
        assert forall b :: b in present ==> b in status * (present + cleared);
        assert forall b :: b in cleared - present && b in status ==> b in status * (present + cleared);
      }
    }

    /** `update_queue_field`: runs a setter on the selected queue if the status allows it. */
    method UpdateQueueField(c: Call)
      requires WellFormed()
      modifies queues
      ensures State() == UpdateQueue(old(State()), c)
    {
      var ok := CheckDeviceStatus({FEATURES_OK}, {DRIVER_OK, FAILED});
      if ok && queueSelect < |queues| {
        queues[queueSelect].Configure(c);
        assert QueueStates() == old(QueueStates())[queueSelect := Apply(old(QueueStates())[queueSelect], c)];
      } else {
        assert QueueStates() == old(QueueStates());
      }
    }

    /** Runs a setter on every queue. */
    method ConfigureAll(c: Call)
      requires WellFormed()
      modifies queues
      ensures QueueStates() == seq(|queues|, i requires 0 <= i < |queues| => Apply(old(QueueStates())[i], c))
    {
      for i := 0 to |queues|
        invariant forall j :: 0 <= j < i ==> queues[j].State() == Apply(old(queues[j].State()), c)
        invariant forall j :: i <= j < |queues| ==> queues[j].State() == old(queues[j].State())
      {
        queues[i].Configure(c);
      }
    }

    /** `ack_device_status`. */
    method AckDeviceStatus(st: Bits, hooks: Hooks)
      requires WellFormed()
      modifies this, queues
      ensures State() == AckStatus(old(State()), st, hooks)
      ensures st == {} && hooks.resetOk ==> IsReset(old(State()), State())
      ensures st == {} && !hooks.resetOk ==> State() == old(State())
    {
      AckResets(State(), hooks);
      var changed := st - status;
      if changed == {ACKNOWLEDGE} && status == {} {
        status := st;
      } else if changed == {DRIVER} && status == {ACKNOWLEDGE} {
        status := st;
      } else if changed == {FEATURES_OK} && status == {ACKNOWLEDGE, DRIVER} {
        if !(driverFeatures <= deviceFeatures) {
          return;
        }
        if EVENT_IDX in driverFeatures {
          ConfigureAll(SetEventIdx(true));
        }
        status := st;
      } else if changed == {DRIVER_OK} && status == {ACKNOWLEDGE, DRIVER, FEATURES_OK} {
        if hooks.activateOk {
          status := st;
          activations := activations + 1;
        }
      } else if FAILED in st {
        status := status + {FAILED};
      } else if st == {} {
        if hooks.resetOk {
          ConfigureAll(Reset);
          driverFeatures, deviceFeaturesSelect, driverFeaturesSelect := {}, 0, 0;
          status, queueSelect, interruptStatus, activations := {}, 0, {}, 0;
        }
      }
    }

    /** The registers of `write`. */
    method WriteRegister(offset: u64, data: seq<u8>, hooks: Hooks)
      requires WellFormed() && |data| == 4
      modifies this, queues
      ensures State() == RegisterWritten(old(State()), offset, data, hooks)
    {
      if offset == 0x14 {
        deviceFeaturesSelect := Word(data);
      } else if offset == 0x20 {
        var ok := CheckDeviceStatus({DRIVER}, {FEATURES_OK, FAILED});
        if ok {
          driverFeatures := WithFeaturesPage(driverFeatures, driverFeaturesSelect, BitsOf(Word(data), 32));
        }
      } else if offset == 0x24 {
        driverFeaturesSelect := Word(data);
      } else if offset == 0x30 {
        queueSelect := Half(data);
      } else if offset == 0x64 {
        var ok := CheckDeviceStatus({DRIVER_OK}, {});
        if ok {
          interruptStatus := interruptStatus - BitsOf(data[0], 8);
        }
      } else if offset == 0x70 {
        AckDeviceStatus(BitsOf(data[0], 8), hooks);
      } else if QueueCall(offset, data).Some? {
        UpdateQueueField(QueueCall(offset, data).value);
      }
    }

    /** `VirtioMmioDevice::write`. */
    method Write(a: Access)
      requires WellFormed()
      modifies this, queues
      ensures State() == Written(old(State()), a)
      ensures Inv(old(State())) ==> Inv(State())
      ensures AsksForReset(a) && a.hooks.resetOk ==> IsReset(old(State()), State())
    {
      if AsksForReset(a) {
        ZeroResets(State(), a);
      }
      if Inv(State()) {
        WriteKeepsInv(State(), a);
      }
      if a.offset <= 0xff && |a.data| == 4 {
        WriteRegister(a.offset, a.data, a.hooks);
      } else if 0x100 <= a.offset <= 0xfff {
        var ok := CheckDeviceStatus({DRIVER}, {FAILED});
        if ok {
          configSpace := WriteConfig(configSpace, a.offset - 0x100, a.data);
        }
      }
    }
  }
}
