/** The rings as VIRTIO 1.2 lays them out (sections 2.7.6 and 2.7.8), byte by byte. */
module RingLayout {
  import opened Words
  import opened GuestMemory
  import opened Rings
  import opened VirtQueue

  function Heads(ring: seq<u16>): (bs: seq<u8>)
    ensures |bs| == 2 * |ring|
  {
    if ring == [] then [] else Le16(ring[0]) + Heads(ring[1..])
  }

  function Elems(ring: seq<UsedElem>): (bs: seq<u8>)
    ensures |bs| == 8 * |ring|
  {
    if ring == [] then [] else (Le32(ring[0].id) + Le32(ring[0].len)) + Elems(ring[1..])
  }

  /** Flags, index, the heads, and the field that holds the driver's event. */
  function AvailBytes(flags: u16, idx: u16, ring: seq<u16>, usedEvent: u16): seq<u8> {
    Le16(flags) + (Le16(idx) + (Heads(ring) + Le16(usedEvent)))
  }

  /** Flags, index, the elements, and the field that holds the device's event. */
  function UsedBytes(flags: u16, idx: u16, ring: seq<UsedElem>, availEvent: u16): seq<u8> {
    Le16(flags) + (Le16(idx) + (Elems(ring) + Le16(availEvent)))
  }

  lemma {:induction false} HeadStands(d: map<int, u8>, a: int, ring: seq<u16>, i: nat)
    requires Stands(d, a, Heads(ring)) && i < |ring|
    ensures Mapped(d, a + 2 * i, 2) && U16At(d, a + 2 * i) == ring[i]
    decreases |ring|
  {
    StandsSplit(d, a, Le16(ring[0]), Heads(ring[1..]));
    if i == 0 {
      LoadsU16(d, a, ring[0]);
    } else {
      HeadStands(d, a + 2, ring[1..], i - 1);
    }
  }

  lemma {:induction false} ElemStands(d: map<int, u8>, a: int, ring: seq<UsedElem>, i: nat)
    requires Stands(d, a, Elems(ring)) && i < |ring|
    ensures Mapped(d, a + 8 * i, 8) && ElemAt(d, a + 8 * i) == ring[i]
    decreases |ring|
  {
    StandsSplit(d, a, Le32(ring[0].id) + Le32(ring[0].len), Elems(ring[1..]));
    if i == 0 {
      StandsSplit(d, a, Le32(ring[0].id), Le32(ring[0].len));
      LoadsU32(d, a, ring[0].id);
      LoadsU32(d, a + 4, ring[0].len);
    } else {
      ElemStands(d, a + 8, ring[1..], i - 1);
    }
  }

  /** What the device sees of an available ring is what its bytes say. */
  lemma AvailRingDecodes(m: Mem, q: Layout, flags: u16, idx: u16, ring: seq<u16>, usedEvent: u16, v: View)
    requires Placed(m, q) && v == RingView(m, q) && |ring| == q.size
    requires Stands(m.data, q.availRing, AvailBytes(flags, idx, ring, usedEvent))
    ensures v.avail == ring && v.availIdx == idx && v.usedEvent == usedEvent
  {
    var a := q.availRing;
    StandsSplit(m.data, a, Le16(flags), Le16(idx) + (Heads(ring) + Le16(usedEvent)));
    StandsSplit(m.data, a + 2, Le16(idx), Heads(ring) + Le16(usedEvent));
    StandsSplit(m.data, a + 4, Heads(ring), Le16(usedEvent));
    LoadsU16(m.data, a + 2, idx);
    LoadsU16(m.data, a + 4 + 2 * q.size, usedEvent);
    forall i | 0 <= i < q.size
      ensures v.avail[i] == ring[i]
    {
      HeadStands(m.data, a + 4, ring, i);
    }
  }

  /** Likewise for a used ring. */
  lemma UsedRingDecodes(m: Mem, q: Layout, flags: u16, idx: u16, ring: seq<UsedElem>, availEvent: u16, v: View)
    requires Placed(m, q) && v == RingView(m, q) && |ring| == q.size
    requires Stands(m.data, q.usedRing, UsedBytes(flags, idx, ring, availEvent))
    ensures v.used == ring && v.usedIdx == idx && v.usedFlags == flags && v.availEvent == availEvent
  {
    var a := q.usedRing;
    StandsSplit(m.data, a, Le16(flags), Le16(idx) + (Elems(ring) + Le16(availEvent)));
    StandsSplit(m.data, a + 2, Le16(idx), Elems(ring) + Le16(availEvent));
    StandsSplit(m.data, a + 4, Elems(ring), Le16(availEvent));
    LoadsU16(m.data, a, flags);
    LoadsU16(m.data, a + 2, idx);
    LoadsU16(m.data, a + 4 + 8 * q.size, availEvent);
    forall i | 0 <= i < q.size
      ensures v.used[i] == ring[i]
    {
      ElemStands(m.data, a + 4, ring, i);
    }
  }
}
