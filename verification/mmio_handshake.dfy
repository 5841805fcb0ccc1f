/** The initialization that section 3.1.1 of VIRTIO 1.1 asks of a driver gets through, for any offered features
    and any acceptable queues; and what an activated device still lets a driver change. */
module MmioHandshake {
  import opened Words
  import GuestMemory
  import opened QueueState
  import opened MmioDevice

  /** What a driver wants to set a queue to. */
  datatype Setup = Setup(size: u16, descTable: u64, availRing: u64, usedRing: u64)

  predicate Acceptable(s: Setup, q: Regs) {
    && PowerOfTwo(s.size) && s.size <= q.maxSize
    && s.descTable % 16 == 0 && s.availRing % 2 == 0 && s.usedRing % 4 == 0
  }

  function Configured(q: Regs, s: Setup): Regs {
    q.(size := s.size, descTable := s.descTable, availRing := s.availRing, usedRing := s.usedRing, ready := true)
  }

  // ---- Register writes ------------------------------------------------------------------------------

  function Put32(offset: u64, v: u32, hooks: Hooks): Access { Access(offset, GuestMemory.Le32(v), hooks) }

  lemma Encoded(v: u32)
    ensures Word(GuestMemory.Le32(v)) == v
    ensures v < TWO16 ==> Half(GuestMemory.Le32(v)) == v
    ensures v < 256 ==> GuestMemory.Le32(v)[0] == v
  {
  }

  lemma Bits1()
    ensures BitsOf(1, 8) == {ACKNOWLEDGE}
  {
    assert Bit(1, 0) && !Bit(1, 1) && !Bit(1, 2) && !Bit(1, 3);
    assert !Bit(1, 4) && !Bit(1, 5) && !Bit(1, 6) && !Bit(1, 7);
  }

  lemma Bits3()
    ensures BitsOf(3, 8) == {ACKNOWLEDGE, DRIVER}
  {
    assert Bit(3, 0) && Bit(3, 1) && !Bit(3, 2) && !Bit(3, 3);
    assert !Bit(3, 4) && !Bit(3, 5) && !Bit(3, 6) && !Bit(3, 7);
  }

  lemma Bits11()
    ensures BitsOf(11, 8) == {ACKNOWLEDGE, DRIVER, FEATURES_OK}
  {
    assert Bit(11, 0) && Bit(11, 1) && !Bit(11, 2) && Bit(11, 3);
    assert !Bit(11, 4) && !Bit(11, 5) && !Bit(11, 6) && !Bit(11, 7);
  }

  lemma Bits15()
    ensures BitsOf(15, 8) == {ACKNOWLEDGE, DRIVER, DRIVER_OK, FEATURES_OK}
  {
    assert Bit(15, 0) && Bit(15, 1) && Bit(15, 2) && Bit(15, 3);
    assert !Bit(15, 4) && !Bit(15, 5) && !Bit(15, 6) && !Bit(15, 7);
  }

  lemma Bits128()
    ensures BitsOf(128, 8) == {7}
  {
    assert !Bit(128, 0) && !Bit(128, 1) && !Bit(128, 2) && !Bit(128, 3);
    assert !Bit(128, 4) && !Bit(128, 5) && !Bit(128, 6) && Bit(128, 7);
  }

  /** A driver that writes 128 gives up: the bit is added in every state, and nothing else changes. */
  lemma GivesUp(d: Device, h: Hooks)
    ensures Written(d, Put32(0x70, 128, h)) == d.(status := d.status + {7})
  {
    Encoded(128);
    Bits128();
    if 7 in d.status {
      assert d.status + {7} == d.status;
    } else {
      assert BitsOf(128, 8) - d.status == {7};
    }
  }

  lemma {:induction false} WritesSplit(d: Device, a: seq<Access>, b: seq<Access>)
    ensures AfterWrites(d, a + b) == AfterWrites(AfterWrites(d, a), b)
    decreases |a|
  {
    if a == [] {
      assert a + b == b;
    } else {
      assert (a + b)[1..] == a[1..] + b;
      WritesSplit(Written(d, a[0]), a[1..], b);
    }
  }

  // ---- Negotiation ----------------------------------------------------------------------------------

  /** The feature word that the driver writes in two halves. */
  function Features(lo: u32, hi: u32): Bits { BitsOf(lo, 32) + set b | b in BitsOf(hi, 32) :: b + 32 }

  /** Notification by event index is bit 29 of the low word. */
  lemma EventIdxBit(lo: u32, hi: u32)
    ensures EVENT_IDX in Features(lo, hi) <==> Bit(lo, 29)
  {
  }

  function Negotiation(lo: u32, hi: u32, h: Hooks): seq<Access> {
    [Put32(0x70, 1, h), Put32(0x70, 3, h), Put32(0x24, 0, h), Put32(0x20, lo, h), Put32(0x24, 1, h), Put32(0x20, hi, h),
     Put32(0x70, 11, h)]
  }

  lemma FeaturesWritten(features: Bits, lo: u32, hi: u32)
    requires features == {}
    ensures WithFeaturesPage(WithFeaturesPage(features, 0, BitsOf(lo, 32)), 1, BitsOf(hi, 32)) == Features(lo, hi)
  {
  }

  lemma Acknowledged(d: Device, h: Hooks)
    requires d.status == {}
    ensures Written(Written(d, Put32(0x70, 1, h)), Put32(0x70, 3, h)) == d.(status := {ACKNOWLEDGE, DRIVER})
  {
    Encoded(1);
    Encoded(3);
    Bits1();
    Bits3();
    assert BitsOf(1, 8) - {} == {ACKNOWLEDGE};
    assert BitsOf(3, 8) - {ACKNOWLEDGE} == {DRIVER};
  }

  lemma OneWritten(d: Device, a: Access)
    ensures AfterWrites(d, [a]) == Written(d, a)
  {
    assert [a][1..] == [];
  }

  lemma TwoWritten(d: Device, a: Access, b: Access)
    ensures AfterWrites(d, [a, b]) == Written(Written(d, a), b)
  {
    OneWritten(Written(d, a), b);
    assert [a, b][1..] == [b];
  }

  /** A page is selected and written while the driver may still choose features. */
  lemma PageWritten(d: Device, page: u32, v: u32, h: Hooks)
    requires d.status == {ACKNOWLEDGE, DRIVER}
    ensures AfterWrites(d, [Put32(0x24, page, h), Put32(0x20, v, h)])
         == d.(driverFeaturesSelect := page,
               driverFeatures := WithFeaturesPage(d.driverFeatures, page, BitsOf(v, 32)))
  {
    TwoWritten(d, Put32(0x24, page, h), Put32(0x20, v, h));
    Encoded(page);
    Encoded(v);
    assert d.status * ({DRIVER} + {FEATURES_OK, FAILED}) == {DRIVER};
  }

  lemma FeaturesAgreed(d: Device, h: Hooks)
    requires d.status == {ACKNOWLEDGE, DRIVER} && FeaturesOffered(d)
    ensures Written(d, Put32(0x70, 11, h))
         == d.(queues := if EVENT_IDX in d.driverFeatures then WithEventIdx(d.queues) else d.queues,
               status := {ACKNOWLEDGE, DRIVER, FEATURES_OK})
  {
    Encoded(11);
    Bits11();
    assert BitsOf(11, 8) - d.status == {FEATURES_OK};
  }

  /** Any choice among the offered features is agreed on, and EVENT_IDX reaches every queue. */
  lemma NegotiationSucceeds(d: Device, lo: u32, hi: u32, h: Hooks)
    requires d.status == {} && d.driverFeatures == {} && Features(lo, hi) <= d.deviceFeatures
    ensures AfterWrites(d, Negotiation(lo, hi, h))
         == d.(driverFeatures := Features(lo, hi), driverFeaturesSelect := 1,
               queues := if EVENT_IDX in Features(lo, hi) then WithEventIdx(d.queues) else d.queues,
               status := {ACKNOWLEDGE, DRIVER, FEATURES_OK})
  {
    var a, b, c := [Put32(0x70, 1, h), Put32(0x70, 3, h)], [Put32(0x24, 0, h), Put32(0x20, lo, h)],
                   [Put32(0x24, 1, h), Put32(0x20, hi, h)];
    var ok := Put32(0x70, 11, h);
    assert Negotiation(lo, hi, h) == ((a + b) + c) + [ok];
    WritesSplit(d, (a + b) + c, [ok]);
    WritesSplit(d, a + b, c);
    WritesSplit(d, a, b);
    TwoWritten(d, a[0], a[1]);
    Acknowledged(d, h);
    var d1 := d.(status := {ACKNOWLEDGE, DRIVER});
    PageWritten(d1, 0, lo, h);
    var d2 := d1.(driverFeaturesSelect := 0, driverFeatures := WithFeaturesPage({}, 0, BitsOf(lo, 32)));
    PageWritten(d2, 1, hi, h);
    FeaturesWritten({}, lo, hi);
    var d3 := d2.(driverFeaturesSelect := 1, driverFeatures := Features(lo, hi));
    FeaturesAgreed(d3, h);
    OneWritten(d3, ok);
  }

  // ---- Queues -----------------------------------------------------------------------------------------

  /** The device can be configured and queue `i` is selected. */
  ghost predicate Selected(d: Device, i: nat) {
    d.status == {ACKNOWLEDGE, DRIVER, FEATURES_OK} && d.queueSelect == i < |d.queues|
  }

  function WithQueue(d: Device, i: nat, q: Regs): Device
    requires i < |d.queues|
  {
    d.(queues := d.queues[i := q])
  }

  lemma CallReachesQueue(d: Device, i: nat, offset: u64, v: u32, h: Hooks, c: Call)
    requires Selected(d, i) && QueueCall(offset, GuestMemory.Le32(v)) == Some(c)
    requires offset == 0x38 || offset == 0x44 || 0x80 <= offset <= 0xa4
    ensures Written(d, Put32(offset, v, h)) == WithQueue(d, i, Apply(d.queues[i], c))
    ensures Selected(Written(d, Put32(offset, v, h)), i)
  {
    assert d.status * ({FEATURES_OK} + {DRIVER_OK, FAILED}) == {FEATURES_OK};
  }

  lemma LowHalf(h: u32, a: u64)
    ensures (h * TWO32 + a % TWO32) % 16 == a % 16
    ensures (h * TWO32 + a % TWO32) % 4 == a % 4 && (h * TWO32 + a % TWO32) % 2 == a % 2
  {
    var x, t := h * TWO32 + a % TWO32, h - a / TWO32;
    Euclid(a, TWO32);
    SameRemainder(x, a, 16, 0x1000_0000 * t);
    SameRemainder(x, a, 4, 0x4000_0000 * t);
    SameRemainder(x, a, 2, 0x8000_0000 * t);
  }

  /** An address is written in two halves, the low one first: an aligned one arrives as it was sent. */
  lemma HalvesMakeAddress(prev: u64, a: u64)
    ensures var x := WithHalves(prev, Some(a % TWO32), None);
            && x % 16 == a % 16 && x % 4 == a % 4 && x % 2 == a % 2
            && WithHalves(x, None, Some(a / TWO32)) == a
  {
    LowHalf(prev / TWO32, a);
    SecondHalf(prev / TWO32, a % TWO32);
  }

  lemma SecondHalf(h: u32, l: u32)
    ensures (h * TWO32 + l) % TWO32 == l && (h * TWO32 + l) / TWO32 == h
  {
  }

  function AddressWrites(offset: u64, a: u64, h: Hooks): seq<Access>
    requires offset + 4 < TWO64
  {
    [Put32(offset, a % TWO32, h), Put32(offset + 4, a / TWO32, h)]
  }

  lemma DescTableWritten(d: Device, i: nat, a: u64, h: Hooks)
    requires Selected(d, i) && a % 16 == 0
    ensures AfterWrites(d, AddressWrites(0x80, a, h)) == WithQueue(d, i, d.queues[i].(descTable := a))
  {
    var q := d.queues[i];
    Encoded(a % TWO32);
    Encoded(a / TWO32);
    HalvesMakeAddress(q.descTable, a);
    CallReachesQueue(d, i, 0x80, a % TWO32, h, SetDescTable(Some(a % TWO32), None));
    var d' := Written(d, Put32(0x80, a % TWO32, h));
    CallReachesQueue(d', i, 0x84, a / TWO32, h, SetDescTable(None, Some(a / TWO32)));
    TwoWritten(d, Put32(0x80, a % TWO32, h), Put32(0x84, a / TWO32, h));
    Overwritten(d.queues, i, d'.queues[i], q.(descTable := a));
  }

  lemma AvailRingWritten(d: Device, i: nat, a: u64, h: Hooks)
    requires Selected(d, i) && a % 2 == 0
    ensures AfterWrites(d, AddressWrites(0x90, a, h)) == WithQueue(d, i, d.queues[i].(availRing := a))
  {
    var q := d.queues[i];
    Encoded(a % TWO32);
    Encoded(a / TWO32);
    HalvesMakeAddress(q.availRing, a);
    CallReachesQueue(d, i, 0x90, a % TWO32, h, SetAvailRing(Some(a % TWO32), None));
    var d' := Written(d, Put32(0x90, a % TWO32, h));
    CallReachesQueue(d', i, 0x94, a / TWO32, h, SetAvailRing(None, Some(a / TWO32)));
    TwoWritten(d, Put32(0x90, a % TWO32, h), Put32(0x94, a / TWO32, h));
    Overwritten(d.queues, i, d'.queues[i], q.(availRing := a));
  }

  lemma UsedRingWritten(d: Device, i: nat, a: u64, h: Hooks)
    requires Selected(d, i) && a % 4 == 0
    ensures AfterWrites(d, AddressWrites(0xa0, a, h)) == WithQueue(d, i, d.queues[i].(usedRing := a))
  {
    var q := d.queues[i];
    Encoded(a % TWO32);
    Encoded(a / TWO32);
    HalvesMakeAddress(q.usedRing, a);
    CallReachesQueue(d, i, 0xa0, a % TWO32, h, SetUsedRing(Some(a % TWO32), None));
    var d' := Written(d, Put32(0xa0, a % TWO32, h));
    CallReachesQueue(d', i, 0xa4, a / TWO32, h, SetUsedRing(None, Some(a / TWO32)));
    TwoWritten(d, Put32(0xa0, a % TWO32, h), Put32(0xa4, a / TWO32, h));
    Overwritten(d.queues, i, d'.queues[i], q.(usedRing := a));
  }

  lemma Overwritten(qs: seq<Regs>, i: nat, q: Regs, q': Regs)
    requires i < |qs|
    ensures qs[i := q][i := q'] == qs[i := q'] && qs[i := q][i] == q
  {
  }

  lemma SizeWritten(d: Device, i: nat, n: u16, h: Hooks)
    requires Selected(d, i) && PowerOfTwo(n) && n <= d.queues[i].maxSize
    ensures Written(d, Put32(0x38, n, h)) == WithQueue(d, i, d.queues[i].(size := n))
  {
    Encoded(n);
    TrySetSizeAccepts(d.queues[i], n);
    CallReachesQueue(d, i, 0x38, n, h, SetSize(n));
  }

  lemma ReadyWritten(d: Device, i: nat, h: Hooks)
    requires Selected(d, i)
    ensures Written(d, Put32(0x44, 1, h)) == WithQueue(d, i, d.queues[i].(ready := true))
  {
    Encoded(1);
    CallReachesQueue(d, i, 0x44, 1, h, SetReady(true));
  }

  lemma QueueChosen(d: Device, i: u16, h: Hooks)
    ensures Written(d, Put32(0x30, i, h)) == d.(queueSelect := i)
  {
    Encoded(i);
  }

  function QueueWrites(i: u16, s: Setup, h: Hooks): seq<Access> {
    [Put32(0x30, i, h), Put32(0x38, s.size, h)] + AddressWrites(0x80, s.descTable, h)
    + AddressWrites(0x90, s.availRing, h) + AddressWrites(0xa0, s.usedRing, h) + [Put32(0x44, 1, h)]
  }

  /** The writes for one queue configure that queue, and no other. */
  lemma QueueSetUp(d: Device, i: u16, s: Setup, h: Hooks)
    requires d.status == {ACKNOWLEDGE, DRIVER, FEATURES_OK} && i < |d.queues| && Acceptable(s, d.queues[i])
    ensures AfterWrites(d, QueueWrites(i, s, h))
         == d.(queueSelect := i, queues := d.queues[i := Configured(d.queues[i], s)])
  {
    var a, b := [Put32(0x30, i, h), Put32(0x38, s.size, h)], AddressWrites(0x80, s.descTable, h);
    var c, e, ready := AddressWrites(0x90, s.availRing, h), AddressWrites(0xa0, s.usedRing, h), Put32(0x44, 1, h);
    WritesSplit(d, a + b + c + e, [ready]);
    WritesSplit(d, a + b + c, e);
    WritesSplit(d, a + b, c);
    WritesSplit(d, a, b);
    var q := d.queues[i];
    var q1 := q.(size := s.size);
    var q2 := q1.(descTable := s.descTable);
    var q3 := q2.(availRing := s.availRing);
    var q4 := q3.(usedRing := s.usedRing);
    var d0 := d.(queueSelect := i);
    TwoWritten(d, a[0], a[1]);
    QueueChosen(d, i, h);
    SizeWritten(d0, i, s.size, h);
    var d1 := WithQueue(d0, i, q1);
    DescTableWritten(d1, i, s.descTable, h);
    Overwritten(d.queues, i, q1, q2);
    var d2 := WithQueue(d0, i, q2);
    AvailRingWritten(d2, i, s.availRing, h);
    Overwritten(d.queues, i, q2, q3);
    var d3 := WithQueue(d0, i, q3);
    UsedRingWritten(d3, i, s.usedRing, h);
    Overwritten(d.queues, i, q3, q4);
    var d4 := WithQueue(d0, i, q4);
    OneWritten(d4, ready);
    ReadyWritten(d4, i, h);
    Overwritten(d.queues, i, q4, q4.(ready := true));
  }

  /** The writes for the queues from number `k` on. */
  function AllQueueWrites(k: nat, ss: seq<Setup>, h: Hooks): seq<Access>
    requires k + |ss| <= TWO16
    decreases |ss|
  {
    if ss == [] then [] else QueueWrites(k, ss[0], h) + AllQueueWrites(k + 1, ss[1..], h)
  }

  /** The queues from number `k` on are configured as `ss` says, the others are as they were. */
  ghost predicate SetUpFrom(qs: seq<Regs>, k: nat, ss: seq<Setup>, qs': seq<Regs>) {
    && |qs'| == |qs| == k + |ss|
    && (forall j :: 0 <= j < k ==> qs'[j] == qs[j])
    && (forall j :: k <= j < |qs| ==> qs'[j] == Configured(qs[j], ss[j - k]))
  }

  /** The queues from number `k` on can be configured as `ss` says. */
  ghost predicate AcceptableFrom(ss: seq<Setup>, qs: seq<Regs>, k: nat) {
    k + |ss| == |qs| && forall j {:trigger ss[j]} :: 0 <= j < |ss| ==> Acceptable(ss[j], qs[k + j])
  }

  lemma AcceptableStep(ss: seq<Setup>, qs: seq<Regs>, k: nat, q: Regs)
    requires ss != [] && AcceptableFrom(ss, qs, k)
    ensures AcceptableFrom(ss[1..], qs[k := q], k + 1)
  {
    forall j | 0 <= j < |ss[1..]|
      ensures Acceptable(ss[1..][j], qs[k := q][k + 1 + j])
    {
      assert ss[1..][j] == ss[j + 1];
    }
  }

  lemma SetUpFromStep(qs: seq<Regs>, k: nat, ss: seq<Setup>, qs1: seq<Regs>, qs': seq<Regs>)
    requires ss != [] && |qs| == k + |ss| && qs1 == qs[k := Configured(qs[k], ss[0])]
    requires SetUpFrom(qs1, k + 1, ss[1..], qs')
    ensures SetUpFrom(qs, k, ss, qs')
  {
    forall j | k < j < |qs|
      ensures qs'[j] == Configured(qs[j], ss[j - k])
    {
      assert ss[1..][j - (k + 1)] == ss[j - k];
    }
  }

  lemma {:induction false} AllQueuesSetUp(d: Device, k: nat, ss: seq<Setup>, h: Hooks)
    requires d.status == {ACKNOWLEDGE, DRIVER, FEATURES_OK} && |d.queues| <= TWO16
    requires AcceptableFrom(ss, d.queues, k)
    ensures var d' := AfterWrites(d, AllQueueWrites(k, ss, h));
            && SetUpFrom(d.queues, k, ss, d'.queues)
            && d'.status == d.status && d'.driverFeatures == d.driverFeatures && d'.activations == d.activations
    decreases |ss|
  {
    if ss != [] {
      WritesSplit(d, QueueWrites(k, ss[0], h), AllQueueWrites(k + 1, ss[1..], h));
      assert Acceptable(ss[0], d.queues[k + 0]);
      QueueSetUp(d, k, ss[0], h);
      var d1 := d.(queueSelect := k, queues := d.queues[k := Configured(d.queues[k], ss[0])]);
      AcceptableStep(ss, d.queues, k, Configured(d.queues[k], ss[0]));
      AllQueuesSetUp(d1, k + 1, ss[1..], h);
      SetUpFromStep(d.queues, k, ss, d1.queues, AfterWrites(d1, AllQueueWrites(k + 1, ss[1..], h)).queues);
    }
  }

  // ---- The whole handshake ------------------------------------------------------------------------------

  lemma Activated(d: Device, h: Hooks)
    requires d.status == {ACKNOWLEDGE, DRIVER, FEATURES_OK} && h.activateOk
    ensures Written(d, Put32(0x70, 15, h))
         == d.(status := {ACKNOWLEDGE, DRIVER, FEATURES_OK, DRIVER_OK}, activations := d.activations + 1)
  {
    Encoded(15);
    Bits15();
    assert BitsOf(15, 8) - d.status == {DRIVER_OK};
  }

  function Handshake(lo: u32, hi: u32, ss: seq<Setup>, h: Hooks): seq<Access>
    requires |ss| <= TWO16
  {
    Negotiation(lo, hi, h) + AllQueueWrites(0, ss, h) + [Put32(0x70, 15, h)]
  }

  lemma HandshakeParts(d: Device, lo: u32, hi: u32, ss: seq<Setup>, h: Hooks)
    requires |ss| <= TWO16
    ensures AfterWrites(d, Handshake(lo, hi, ss, h))
         == Written(AfterWrites(AfterWrites(d, Negotiation(lo, hi, h)), AllQueueWrites(0, ss, h)), Put32(0x70, 15, h))
  {
    var a, b, last := Negotiation(lo, hi, h), AllQueueWrites(0, ss, h), Put32(0x70, 15, h);
    WritesSplit(d, a + b, [last]);
    WritesSplit(d, a, b);
    OneWritten(AfterWrites(AfterWrites(d, a), b), last);
  }

  function WithEvents(qs: seq<Regs>, on: bool): seq<Regs> { if on then WithEventIdx(qs) else qs }

  lemma EventsAgreed(qs: seq<Regs>, on: bool, j: nat)
    requires AllEventIdx(qs, false) && j < |qs|
    ensures |WithEvents(qs, on)| == |qs| && WithEvents(qs, on)[j] == qs[j].(eventIdx := on)
  {
  }

  lemma StillAcceptable(ss: seq<Setup>, qs: seq<Regs>, on: bool)
    requires AcceptableFrom(ss, qs, 0) && AllEventIdx(qs, false)
    ensures AcceptableFrom(ss, WithEvents(qs, on), 0)
  {
    forall j | 0 <= j < |ss|
      ensures Acceptable(ss[j], WithEvents(qs, on)[0 + j])
    {
      EventsAgreed(qs, on, j);
    }
  }

  /** A driver that follows the standard's sequence gets a live device: any choice among the offered
      features, any acceptable queues and a working `activate` lead to one activation, with exactly
      the features and queue registers that the driver wrote. */
  lemma HandshakeSucceeds(d: Device, lo: u32, hi: u32, ss: seq<Setup>, h: Hooks)
    requires IsFresh(d) && d.driverFeatures == {} && Features(lo, hi) <= d.deviceFeatures && h.activateOk
    requires |d.queues| <= TWO16 && AcceptableFrom(ss, d.queues, 0)
    ensures var d' := AfterWrites(d, Handshake(lo, hi, ss, h));
            && d'.status == {ACKNOWLEDGE, DRIVER, FEATURES_OK, DRIVER_OK} && d'.activations == 1
            && d'.driverFeatures == Features(lo, hi)
            && SetUpFrom(WithEvents(d.queues, EVENT_IDX in Features(lo, hi)), 0, ss, d'.queues)
  {
    HandshakeParts(d, lo, hi, ss, h);
    NegotiationSucceeds(d, lo, hi, h);
    StillAcceptable(ss, d.queues, EVENT_IDX in Features(lo, hi));
    var d1 := AfterWrites(d, Negotiation(lo, hi, h));
    AllQueuesSetUp(d1, 0, ss, h);
    Activated(AfterWrites(d1, AllQueueWrites(0, ss, h)), h);
  }

  lemma ResetIsFresh(d: Device, d': Device)
    requires IsReset(d, d') && AllValid(d.queues)
    ensures IsFresh(d') && d'.driverFeatures == {}
  {
    forall i | 0 <= i < |d'.queues|
      ensures Valid(d'.queues[i])
    {
      assert Valid(d.queues[i]);
    }
  }

  lemma AcceptableAfterReset(d: Device, d': Device, ss: seq<Setup>)
    requires IsReset(d, d') && AcceptableFrom(ss, d.queues, 0)
    ensures AcceptableFrom(ss, d'.queues, 0)
  {
    forall j | 0 <= j < |ss|
      ensures Acceptable(ss[j], d'.queues[0 + j])
    {
      assert Acceptable(ss[j], d.queues[0 + j]);
    }
  }

  /** Whatever state a device is in, a reset and the standard's sequence bring it into use with what the
      driver then writes. */
  lemma ResetThenHandshake(d: Device, a: Access, lo: u32, hi: u32, ss: seq<Setup>, h: Hooks)
    requires AsksForReset(a) && a.hooks.resetOk && h.activateOk
    requires AllValid(d.queues) && Features(lo, hi) <= d.deviceFeatures
    requires |d.queues| <= TWO16 && AcceptableFrom(ss, d.queues, 0)
    ensures var d1 := Written(d, a);
            var d2 := AfterWrites(d1, Handshake(lo, hi, ss, h));
            && IsReset(d, d1)
            && d2.status == {ACKNOWLEDGE, DRIVER, FEATURES_OK, DRIVER_OK} && d2.activations == 1
            && d2.driverFeatures == Features(lo, hi)
            && SetUpFrom(WithEvents(d1.queues, EVENT_IDX in Features(lo, hi)), 0, ss, d2.queues)
  {
    var d1 := Written(d, a);
    ZeroResets(d, a);
    ResetIsFresh(d, d1);
    AcceptableAfterReset(d, d1, ss);
    HandshakeSucceeds(d1, lo, hi, ss, h);
  }

  // ---- After activation -----------------------------------------------------------------------------------

  predicate NoReset(run: seq<Access>) { forall i :: 0 <= i < |run| ==> !AsksForReset(run[i]) }

  /** No writes but a reset change the features that the driver has accepted. */
  ghost predicate FeaturesFrozen(d: Device) {
    forall run {:trigger AfterWrites(d, run)} ::
      NoReset(run) ==> AfterWrites(d, run).driverFeatures == d.driverFeatures
  }

  /** The feature register does not take writes in this status. */
  predicate FeaturesClosed(d: Device) { FEATURES_OK in d.status || DRIVER !in d.status || FAILED in d.status }

  lemma ClosedStep(d: Device, a: Access)
    requires DRIVER_OK in d.status && FeaturesClosed(d) && !AsksForReset(a)
    ensures var d' := Written(d, a);
            DRIVER_OK in d'.status && FeaturesClosed(d') && d'.driverFeatures == d.driverFeatures
  {
    if a.offset == 0x70 && |a.data| == 4 {
      OnlyZeroIsEmpty(a.data[0]);
    }
  }

  lemma {:induction false} ClosedRun(d: Device, run: seq<Access>)
    requires DRIVER_OK in d.status && FeaturesClosed(d) && NoReset(run)
    ensures AfterWrites(d, run).driverFeatures == d.driverFeatures
    decreases |run|
  {
    if run != [] {
      ClosedStep(d, run[0]);
      ClosedRun(Written(d, run[0]), run[1..]);
    }
  }

  /** Elsewhere the low page of the features can be written. */
  lemma OpenPage(d: Device, v: u32, h: Hooks)
    requires DRIVER in d.status && FEATURES_OK !in d.status && FAILED !in d.status
    ensures var d' := AfterWrites(d, [Put32(0x24, 0, h), Put32(0x20, v, h)]);
            && d'.driverFeatures == WithFeaturesPage(d.driverFeatures, 0, BitsOf(v, 32))
            && d'.deviceFeatures == d.deviceFeatures && d'.status == d.status
  {
    TwoWritten(d, Put32(0x24, 0, h), Put32(0x20, v, h));
    Encoded(0);
    Encoded(v);
  }

  lemma OpenFeaturesChange(d: Device, h: Hooks)
    requires DRIVER in d.status && FEATURES_OK !in d.status && FAILED !in d.status
    ensures !FeaturesFrozen(d)
  {
    var v := if 0 in d.driverFeatures then 0 else 1;
    var run := [Put32(0x24, 0, h), Put32(0x20, v, h)];
    OpenPage(d, v, h);
    assert Bit(1, 0) && !Bit(0, 0);
    assert 0 in BitsOf(v, 32) <==> v == 1;
    assert NoReset(run);
  }

  /** The features of a device that is in use are fixed exactly when the register is closed. */
  lemma FrozenIffClosed(d: Device)
    requires DRIVER_OK in d.status
    ensures FeaturesFrozen(d) <==> FeaturesClosed(d)
  {
    if FeaturesClosed(d) {
      forall run | NoReset(run)
        ensures AfterWrites(d, run).driverFeatures == d.driverFeatures
      {
        ClosedRun(d, run);
      }
    } else {
      OpenFeaturesChange(d, Hooks(true, true));
    }
  }

  /** An activation fixes the features until the next reset exactly when the status that is written to
      activate keeps FEATURES_OK, or drops DRIVER as well. */
  lemma ActivationFreezesFeatures(d: Device, a: Access)
    requires CallsActivate(d, a) && a.hooks.activateOk
    ensures FeaturesFrozen(Written(d, a)) <==>
              FEATURES_OK in BitsOf(a.data[0], 8) || DRIVER !in BitsOf(a.data[0], 8)
  {
    var st := BitsOf(a.data[0], 8);
    assert DRIVER_OK in st - d.status;
    assert FAILED in st ==> FAILED in st - d.status;
    FrozenIffClosed(Written(d, a));
  }

  lemma Bits6()
    ensures BitsOf(6, 8) == {DRIVER, DRIVER_OK}
  {
    assert !Bit(6, 0) && Bit(6, 1) && Bit(6, 2) && !Bit(6, 3);
    assert !Bit(6, 4) && !Bit(6, 5) && !Bit(6, 6) && !Bit(6, 7);
  }

  lemma ActivatedWithoutFeaturesOk(d: Device, h: Hooks)
    requires d.status == {ACKNOWLEDGE, DRIVER, FEATURES_OK} && h.activateOk
    ensures Written(d, Put32(0x70, 6, h)) == d.(status := {DRIVER, DRIVER_OK}, activations := d.activations + 1)
  {
    Encoded(6);
    Bits6();
    assert BitsOf(6, 8) - d.status == {DRIVER_OK};
  }

  /** Such a write: the status DRIVER and DRIVER_OK activates a device that offers nothing, and then a
      feature that was never offered is accepted. */
  lemma UnofferedFeatureAccepted(d: Device, h: Hooks)
    requires d.status == {ACKNOWLEDGE, DRIVER, FEATURES_OK} && d.deviceFeatures == {} && h.activateOk
    ensures var d1 := Written(d, Put32(0x70, 6, h));
            var d2 := AfterWrites(d1, [Put32(0x24, 0, h), Put32(0x20, 1, h)]);
            d1.activations == d.activations + 1 && DRIVER_OK in d2.status && !FeaturesOffered(d2)
  {
    ActivatedWithoutFeaturesOk(d, h);
    OpenPage(Written(d, Put32(0x70, 6, h)), 1, h);
    assert Bit(1, 0) && 0 in BitsOf(1, 32);
  }
}
