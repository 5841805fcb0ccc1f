/** The device side of a split virtqueue: registers plus loads and stores in guest memory. */
module VirtQueue {
  import opened Words
  import opened GuestMemory
  import opened QueueState
  import opened Rings

  // ---- Where the rings live ---------------------------------------------------------------------

  datatype Layout = Layout(size: u16, availRing: u64, usedRing: u64)

  function AvailEnd(q: Layout): int { q.availRing + 6 + 2 * q.size }
  function UsedEnd(q: Layout): int { q.usedRing + 6 + 8 * q.size }

  /** Both rings are mapped, each in one region, and do not overlap. */
  predicate Placed(m: Mem, q: Layout) {
    && q.size > 0
    && InOneRegion(m, q.availRing, 6 + 2 * q.size) && AvailEnd(q) < TWO64
    && InOneRegion(m, q.usedRing, 6 + 8 * q.size) && UsedEnd(q) < TWO64
    && (AvailEnd(q) <= q.usedRing || UsedEnd(q) <= q.availRing)
  }

  /** `is_valid`: the queue is ready and the address just past each table and ring is mapped. */
  predicate EndsMapped(m: Mem, q: Regs) {
    && q.ready
    && q.descTable + 16 * q.size < TWO64 && q.descTable + 16 * q.size in m.data
    && q.availRing + 6 + 2 * q.size < TWO64 && q.availRing + 6 + 2 * q.size in m.data
    && q.usedRing + 6 + 8 * q.size < TWO64 && q.usedRing + 6 + 8 * q.size in m.data
  }

  function ElemAt(d: map<int, u8>, a: int): UsedElem
    requires Mapped(d, a, 8)
  {
    UsedElem(U32At(d, a), U32At(d, a + 4))
  }

  /** The rings as they stand in memory. */
  function RingView(m: Mem, q: Layout): (v: View)
    requires Placed(m, q)
    ensures |v.avail| == q.size && |v.used| == q.size
  {
    View(seq(q.size, i requires 0 <= i < q.size => U16At(m.data, q.availRing + 4 + 2 * i)),
         U16At(m.data, q.availRing + 2),
         U16At(m.data, q.availRing + 4 + 2 * q.size),
         seq(q.size, i requires 0 <= i < q.size => ElemAt(m.data, q.usedRing + 4 + 8 * i)),
         U16At(m.data, q.usedRing + 2),
         U16At(m.data, q.usedRing),
         U16At(m.data, q.usedRing + 4 + 8 * q.size))
  }

  /** The element that eight bytes encode. */
  function ElemOf(bs: seq<u8>): UsedElem
    requires |bs| == 8
  {
    UsedElem(FromLe32(bs[0], bs[1], bs[2], bs[3]), FromLe32(bs[4], bs[5], bs[6], bs[7]))
  }

  method EncodeElem(e: UsedElem) returns (bs: seq<u8>)
    ensures |bs| == 8 && ElemOf(bs) == e
  {
    var id, len := Le32(e.id), Le32(e.len);
    Le32RoundTrip(e.id);
    Le32RoundTrip(e.len);
    bs := [id[0], id[1], id[2], id[3], len[0], len[1], len[2], len[3]];
  }

  /** The index field of an available ring, or why it cannot be loaded. */
  function LoadedIdx(m: Mem, availRing: u64): Result<u16, Error> {
    if availRing + 2 >= TWO64 then Err(AddressOverflow)
    else if InOneRegion(m, availRing + 2, 2) then Ok(U16At(m.data, availRing + 2))
    else Err(GuestMemoryError)
  }

  lemma KeepsValidIfAny(q: Regs, c: Call)
    ensures Valid(q) ==> Valid(Apply(q, c))
  {
    if Valid(q) {
      ApplyKeepsValid(q, c);
    }
  }

  // ---- Each store changes one field of the view ---------------------------------------------------

  /** Memory outside the used ring is the same. */
  ghost predicate OnlyUsedRingChanged(m: Mem, m': Mem, q: Layout) {
    && m'.breaks == m.breaks && m'.data.Keys == m.data.Keys
    && forall i {:trigger m'.data[i]} :: i in m.data && !(q.usedRing <= i < UsedEnd(q)) ==> m'.data[i] == m.data[i]
  }

  lemma PutInUsedRing(m: Mem, q: Layout, a: int, bs: seq<u8>)
    requires q.usedRing <= a && a + |bs| <= UsedEnd(q)
    ensures OnlyUsedRingChanged(m, m.(data := Put(m.data, a, bs)), q)
  {
  }

  lemma AvailRingKept(m: Mem, m': Mem, q: Layout)
    requires Placed(m, q) && OnlyUsedRingChanged(m, m', q)
    ensures Placed(m', q)
    ensures var v, v' := RingView(m, q), RingView(m', q);
            v'.avail == v.avail && v'.availIdx == v.availIdx && v'.usedEvent == v.usedEvent
  {
    assert RingView(m', q).avail == RingView(m, q).avail;
  }

  function StoredWord(m: Mem, a: int, v: u16): Mem { m.(data := Put(m.data, a, Le16(v))) }

  /** The same bytes hold the same element. */
  lemma SameElem(d: map<int, u8>, d': map<int, u8>, a: int)
    requires Mapped(d, a, 8) && Mapped(d', a, 8) && forall i :: a <= i < a + 8 ==> d'[i] == d[i]
    ensures ElemAt(d', a) == ElemAt(d, a)
  {
  }

  /** A change outside the used elements leaves them as they are. */
  lemma UsedSlotsKept(m: Mem, m': Mem, q: Layout)
    requires Placed(m, q) && Placed(m', q)
    requires forall i {:trigger m'.data[i]} :: q.usedRing + 4 <= i < q.usedRing + 4 + 8 * q.size ==>
             m'.data[i] == m.data[i]
    ensures RingView(m', q).used == RingView(m, q).used
  {
    var v, v' := RingView(m, q), RingView(m', q);
    forall i | 0 <= i < q.size
      ensures v'.used[i] == v.used[i]
    {
      SameElem(m.data, m'.data, q.usedRing + 4 + 8 * i);
    }
  }

  lemma StoreUsedIdx(m: Mem, q: Layout, x: u16)
    requires Placed(m, q)
    ensures InOneRegion(m, q.usedRing + 2, 2) && Placed(StoredWord(m, q.usedRing + 2, x), q)
    ensures RingView(StoredWord(m, q.usedRing + 2, x), q) == RingView(m, q).(usedIdx := x)
  {
    StoredU16(m.data, q.usedRing + 2, x);
    AvailRingKept(m, StoredWord(m, q.usedRing + 2, x), q);
    UsedSlotsKept(m, StoredWord(m, q.usedRing + 2, x), q);
  }

  lemma StoreUsedFlags(m: Mem, q: Layout, x: u16)
    requires Placed(m, q)
    ensures InOneRegion(m, q.usedRing, 2) && Placed(StoredWord(m, q.usedRing, x), q)
    ensures RingView(StoredWord(m, q.usedRing, x), q) == RingView(m, q).(usedFlags := x)
  {
    StoredU16(m.data, q.usedRing, x);
    AvailRingKept(m, StoredWord(m, q.usedRing, x), q);
    UsedSlotsKept(m, StoredWord(m, q.usedRing, x), q);
  }

  lemma StoreAvailEvent(m: Mem, q: Layout, x: u16)
    requires Placed(m, q)
    ensures var a := q.usedRing + 4 + 8 * q.size;
            && InOneRegion(m, a, 2) && Placed(StoredWord(m, a, x), q)
            && RingView(StoredWord(m, a, x), q) == RingView(m, q).(availEvent := x)
  {
    var a := q.usedRing + 4 + 8 * q.size;
    StoredU16(m.data, a, x);
    AvailRingKept(m, StoredWord(m, a, x), q);
    UsedSlotsKept(m, StoredWord(m, a, x), q);
  }

  lemma UsedSlotReplaced(m: Mem, m': Mem, q: Layout, k: nat)
    requires Placed(m, q) && k < q.size
    requires m'.breaks == m.breaks && m'.data.Keys == m.data.Keys
    requires var a := q.usedRing + 4 + 8 * k;
             forall i {:trigger m'.data[i]} :: i in m.data && !(a <= i < a + 8) ==> m'.data[i] == m.data[i]
    ensures Placed(m', q)
    ensures RingView(m', q)
         == RingView(m, q).(used := RingView(m, q).used[k := ElemAt(m'.data, q.usedRing + 4 + 8 * k)])
  {
    AvailRingKept(m, m', q);
    var v, v' := RingView(m, q), RingView(m', q);
    forall i | 0 <= i < q.size && i != k
      ensures v'.used[i] == v.used[i]
    {
      SameElem(m.data, m'.data, q.usedRing + 4 + 8 * i);
    }
    assert v'.used == v.used[k := ElemAt(m'.data, q.usedRing + 4 + 8 * k)];
  }

  lemma StoreElem(m: Mem, q: Layout, k: nat, bs: seq<u8>)
    requires Placed(m, q) && k < q.size && |bs| == 8
    ensures var m' := Stored(m, q.usedRing + 4 + 8 * k, bs);
            && Accessible(m, q.usedRing + 4 + 8 * k, 8) && Placed(m', q)
            && RingView(m', q) == RingView(m, q).(used := RingView(m, q).used[k := ElemOf(bs)])
  {
    var a := q.usedRing + 4 + 8 * k;
    var m' := Stored(m, a, bs);
    UsedSlotReplaced(m, m', q, k);
    assert forall i :: a <= i < a + 8 ==> m'.data[i] == bs[i - a];
  }

  // ---- What the memory operations of the queue do to the view -------------------------------------

  /** The outcome of an atomic store. */
  ghost predicate StoreOutcome(m: Mem, m': Mem, a: int, x: u16, ok: bool) {
    ok == InOneRegion(m, a, 2) && m' == if ok then StoredWord(m, a, x) else m
  }

  lemma StoreInUsedRing(m: Mem, m': Mem, q: Layout, a: int, x: u16, ok: bool)
    requires StoreOutcome(m, m', a, x, ok)
    requires q.usedRing <= a && a + 2 <= UsedEnd(q)
    ensures OnlyUsedRingChanged(m, m', q)
  {
    PutInUsedRing(m, q, a, Le16(x));
  }

  lemma AvailEventOutcome(m: Mem, m': Mem, q: Layout, x: u16, ok: bool)
    requires StoreOutcome(m, m', q.usedRing + 4 + 8 * q.size, x, ok)
    ensures Placed(m, q) ==> ok && Placed(m', q) && RingView(m', q) == RingView(m, q).(availEvent := x)
  {
    if Placed(m, q) {
      StoreAvailEvent(m, q, x);
    }
  }

  lemma UsedIdxOutcome(m: Mem, m': Mem, q: Layout, x: u16, ok: bool)
    requires StoreOutcome(m, m', q.usedRing + 2, x, ok)
    ensures Placed(m, q) ==> ok && Placed(m', q) && RingView(m', q) == RingView(m, q).(usedIdx := x)
  {
    if Placed(m, q) {
      StoreUsedIdx(m, q, x);
    }
  }

  lemma WriteInUsedRing(m: Mem, q: Layout, a: int, bs: seq<u8>)
    requires q.usedRing <= a && a + |bs| <= UsedEnd(q)
    ensures OnlyUsedRingChanged(m, Written(m, a, bs), q)
  {
    PutInUsedRing(m, q, a, bs[..MappedPrefix(m.data, a, |bs|)]);
  }

  lemma WriteElemOutcome(m: Mem, q: Layout, k: nat, a: int, bs: seq<u8>)
    requires k < q.size && |bs| == 8 && a == q.usedRing + 4 + 8 * k
    ensures Placed(m, q) ==>
              && Accessible(m, a, |bs|) && Placed(Written(m, a, bs), q)
              && RingView(Written(m, a, bs), q) == RingView(m, q).(used := RingView(m, q).used[k := ElemOf(bs)])
  {
    if Placed(m, q) {
      StoreElem(m, q, k, bs);
      WrittenInFull(m, a, bs);
    }
  }

  // ---- The queue --------------------------------------------------------------------------------

  class Queue {
    var maxSize: u16
    var nextAvail: u16
    var nextUsed: u16
    var eventIdx: bool
    var numAdded: u16
    var size: u16
    var ready: bool
    var descTable: u64
    var availRing: u64
    var usedRing: u64

    function State(): Regs
      reads this
    {
      Regs(maxSize, nextAvail, nextUsed, eventIdx, numAdded, size, ready, descTable, availRing, usedRing)
    }

    /** Where the rings are; the counters do not matter here. */
    function Where(): Layout
      reads this
    {
      Layout(size, availRing, usedRing)
    }

    constructor (maxSize: u16)
      requires PowerOfTwo(maxSize) && maxSize <= MAX_QUEUE_SIZE
      ensures New(maxSize) == Ok(State())
      ensures Valid(State())
    {
      this.maxSize, size := maxSize, maxSize;
      nextAvail, nextUsed, numAdded := 0, 0, 0;
      eventIdx, ready := false, false;
      descTable, availRing, usedRing := 0, 0, 0;
      new;
      NewIsValid(maxSize);
    }

    /** `Queue::new`, with its error. */
    static method Create(maxSize: u16) returns (r: Result<Queue, Error>)
      ensures r.Ok? <==> PowerOfTwo(maxSize) && maxSize <= MAX_QUEUE_SIZE
      ensures r.Err? ==> r.error == InvalidMaxSize
      ensures r.Ok? ==> fresh(r.value) && New(maxSize) == Ok(r.value.State()) && Valid(r.value.State())
    {
      NewIsValid(maxSize);
      if maxSize == 0 || maxSize > MAX_QUEUE_SIZE || BitAnd(maxSize, maxSize - 1) != 0 {
        r := Err(InvalidMaxSize);
      } else {
        var q := new Queue(maxSize);
        r := Ok(q);
      }
    }

    // ---- Setters --------------------------------------------------------------------------------

    method TrySetSize(n: u16) returns (r: Result<(), Error>)
      modifies this`size
      ensures r.Ok? <==> PowerOfTwo(n) && n <= maxSize
      ensures r.Err? ==> r.error == InvalidSize
      ensures size == if r.Ok? then n else old(size)
    {
      TrySetSizeAccepts(State(), n);
      if n > maxSize || n == 0 || BitAnd(n, n - 1) != 0 {
        return Err(InvalidSize);
      }
      size := n;
      return Ok(());
    }

    method TrySetDescTableAddress(a: u64) returns (r: Result<(), Error>)
      modifies this`descTable
      ensures r.Ok? <==> a % 16 == 0
      ensures r.Err? ==> r.error == InvalidDescTableAlign
      ensures descTable == if r.Ok? then a else old(descTable)
    {
      if a % 16 != 0 {
        return Err(InvalidDescTableAlign);
      }
      descTable := a;
      return Ok(());
    }

    method TrySetAvailRingAddress(a: u64) returns (r: Result<(), Error>)
      modifies this`availRing
      ensures r.Ok? <==> a % 2 == 0
      ensures r.Err? ==> r.error == InvalidAvailRingAlign
      ensures availRing == if r.Ok? then a else old(availRing)
    {
      if a % 2 != 0 {
        return Err(InvalidAvailRingAlign);
      }
      availRing := a;
      return Ok(());
    }

    method TrySetUsedRingAddress(a: u64) returns (r: Result<(), Error>)
      modifies this`usedRing
      ensures r.Ok? <==> a % 4 == 0
      ensures r.Err? ==> r.error == InvalidUsedRingAlign
      ensures usedRing == if r.Ok? then a else old(usedRing)
    {
      if a % 4 != 0 {
        return Err(InvalidUsedRingAlign);
      }
      usedRing := a;
      return Ok(());
    }

    /** The setters and `reset`, as the transports call them. */
    method Configure(c: Call)
      modifies this
      ensures State() == Apply(old(State()), c)
      ensures Valid(old(State())) ==> Valid(State())
    {
      KeepsValidIfAny(State(), c);
      match c {
        case SetSize(n) => TrySetSizeAccepts(State(), n); var _ := TrySetSize(n);
        case SetReady(b) => ready := b;
        case SetDescTable(l, h) => var _ := TrySetDescTableAddress(WithHalves(descTable, l, h));
        case SetAvailRing(l, h) => var _ := TrySetAvailRingAddress(WithHalves(availRing, l, h));
        case SetUsedRing(l, h) => var _ := TrySetUsedRingAddress(WithHalves(usedRing, l, h));
        case SetEventIdx(b) => eventIdx := b;
        case SetNextAvail(n) => nextAvail := n;
        case SetNextUsed(n) => nextUsed := n;
        case ChainPopped => nextAvail := WrapAdd(nextAvail, 1);
        case ChainReturned => nextAvail := WrapSub(nextAvail, 1);
        case UsedAdded => nextUsed, numAdded := WrapAdd(nextUsed, 1), WrapAdd(numAdded, 1);
        case EventChecked => numAdded := 0;
        case Reset =>
          ready, size := false, maxSize;
          descTable, availRing, usedRing := 0, 0, 0;
          nextAvail, nextUsed, numAdded := 0, 0, 0;
          eventIdx := false;
      }
    }

    /** `TryFrom<QueueState>`: the setters in order on a new queue, stopping at the first error. */
    static method Restore(s: Saved) returns (r: Result<Queue, Error>)
      ensures r.Ok? <==> RestoreError(s).None?
      ensures r.Err? ==> Some(r.error) == RestoreError(s)
      ensures r.Ok? ==> fresh(r.value) && r.value.State() == Restored(s)
      ensures r.Ok? ==> Valid(r.value.State()) && Save(r.value.State()) == s
    {
      r := Create(s.maxSize);
      if r.Err? {
        return;
      }
      var q := r.value;
      q.nextAvail, q.nextUsed, q.eventIdx := s.nextAvail, s.nextUsed, s.eventIdx;
      var a := q.TrySetSize(s.size);
      if a.Err? {
        return Err(a.error);
      }
      q.ready := s.ready;
      a := q.TrySetDescTableAddress(s.descTable);
      if a.Err? {
        return Err(a.error);
      }
      a := q.TrySetAvailRingAddress(s.availRing);
      if a.Err? {
        return Err(a.error);
      }
      a := q.TrySetUsedRingAddress(s.usedRing);
      if a.Err? {
        return Err(a.error);
      }
      return Ok(q);
    }

    /** `is_valid`. */
    method IsValid(ram: GuestRam) returns (ok: bool)
      ensures !ready ==> !ok
      ensures ok == EndsMapped(ram.m, State())
    {
      var desc, avail, used := CheckedAdd(descTable, 16 * size), CheckedAdd(availRing, 6 + 2 * size),
                               CheckedAdd(usedRing, 6 + 8 * size);
      if !ready {
        ok := false;
      } else if desc.None? || desc.value !in ram.m.data {
        ok := false;
      } else if avail.None? || avail.value !in ram.m.data {
        ok := false;
      } else if used.None? || used.value !in ram.m.data {
        ok := false;
      } else {
        ok := true;
      }
    }

    // ---- Device operations ------------------------------------------------------------------------

    method SetAvailEvent(ram: GuestRam, x: u16) returns (r: Result<(), Error>)
      modifies ram
      ensures OnlyUsedRingChanged(old(ram.m), ram.m, Where())
      ensures r.Err? ==> ram.m == old(ram.m)
      ensures Placed(old(ram.m), Where()) ==>
                && r.Ok? && Placed(ram.m, Where())
                && RingView(ram.m, Where()) == RingView(old(ram.m), Where()).(availEvent := x)
    {
      var a := CheckedAdd(usedRing, 4 + 8 * size);
      if a.None? {
        return Err(AddressOverflow);
      }
      var ok := ram.StoreU16(a.value, x);
      StoreInUsedRing(old(ram.m), ram.m, Where(), a.value, x, ok);
      AvailEventOutcome(old(ram.m), ram.m, Where(), x, ok);
      return if ok then Ok(()) else Err(GuestMemoryError);
    }

    method SetUsedFlags(ram: GuestRam, x: u16) returns (r: Result<(), Error>)
      modifies ram
      ensures OnlyUsedRingChanged(old(ram.m), ram.m, Where())
      ensures r.Err? ==> ram.m == old(ram.m)
      ensures Placed(old(ram.m), Where()) ==>
                && r.Ok? && Placed(ram.m, Where())
                && RingView(ram.m, Where()) == RingView(old(ram.m), Where()).(usedFlags := x)
    {
      if Placed(ram.m, Where()) {
        StoreUsedFlags(ram.m, Where(), x);
      }
      var ok := ram.StoreU16(usedRing, x);
      return if ok then Ok(()) else Err(GuestMemoryError);
    }

    method SetNotification(ram: GuestRam, enable: bool) returns (r: Result<(), Error>)
      modifies ram
      ensures OnlyUsedRingChanged(old(ram.m), ram.m, Where())
      ensures r.Err? ==> ram.m == old(ram.m)
      ensures Placed(old(ram.m), Where()) ==>
                && r.Ok? && Placed(ram.m, Where())
                && RingView(ram.m, Where()) == Rings.SetNotification(RingView(old(ram.m), Where()), State(), enable)
    {
      if enable {
        if eventIdx {
          r := SetAvailEvent(ram, nextAvail);
        } else {
          r := SetUsedFlags(ram, 0);
        }
      } else if !eventIdx {
        r := SetUsedFlags(ram, NO_NOTIFY);
      } else {
        r := Ok(());
      }
    }

    method DisableNotification(ram: GuestRam) returns (r: Result<(), Error>)
      modifies ram
      ensures OnlyUsedRingChanged(old(ram.m), ram.m, Where())
      ensures Placed(old(ram.m), Where()) ==>
                && r.Ok? && Placed(ram.m, Where())
                && RingView(ram.m, Where()) == Rings.SetNotification(RingView(old(ram.m), Where()), State(), false)
    {
      r := SetNotification(ram, false);
    }

    method AvailIdx(ram: GuestRam) returns (r: Result<u16, Error>)
      ensures Placed(ram.m, Where()) ==> r == Ok(RingView(ram.m, Where()).availIdx)
      ensures r == LoadedIdx(ram.m, availRing)
    {
      var a := CheckedAdd(availRing, 2);
      if a.None? {
        return Err(AddressOverflow);
      }
      var x := ram.LoadU16(a.value);
      return if x.Some? then Ok(x.value) else Err(GuestMemoryError);
    }

    /** Stores the event, then looks at the available index again; true asks for another round. */
    method EnableNotification(ram: GuestRam) returns (r: Result<bool, Error>)
      modifies ram
      ensures OnlyUsedRingChanged(old(ram.m), ram.m, Where())
      ensures Placed(old(ram.m), Where()) ==>
                && Placed(ram.m, Where())
                && RingView(ram.m, Where()) == Rings.SetNotification(RingView(old(ram.m), Where()), State(), true)
                && r == Ok(RingView(ram.m, Where()).availIdx != nextAvail)
    {
      var s := SetNotification(ram, true);
      if s.Err? {
        return Err(s.error);
      }
      var idx := AvailIdx(ram);
      return if idx.Ok? then Ok(idx.value != nextAvail) else Err(idx.error);
    }

    /** The element write of `add_used`. */
    method WriteUsedElem(ram: GuestRam, e: UsedElem) returns (r: Result<(), Error>)
      requires size > 0
      modifies ram
      ensures OnlyUsedRingChanged(old(ram.m), ram.m, Where())
      ensures Placed(old(ram.m), Where()) ==>
                && r.Ok? && Placed(ram.m, Where())
                && RingView(ram.m, Where()) == WriteElem(RingView(old(ram.m), Where()), State(), e)
    {
      var k := Slot(nextUsed, State());
      var a := CheckedAdd(usedRing, 4 + 8 * k);
      if a.None? {
        return Err(AddressOverflow);
      }
      var bs := EncodeElem(e);
      ghost var m := ram.m;
      WriteInUsedRing(m, Where(), a.value, bs);
      WriteElemOutcome(m, Where(), k, a.value, bs);
      var ok := ram.WriteSlice(a.value, bs);
      return if ok then Ok(()) else Err(GuestMemoryError);
    }

    /** The index store of `add_used`; the counters move even when the store fails. */
    method PublishUsedIdx(ram: GuestRam) returns (r: Result<(), Error>)
      modifies this`nextUsed, this`numAdded, ram
      ensures OnlyUsedRingChanged(old(ram.m), ram.m, Where())
      ensures State() == Apply(old(State()), UsedAdded)
      ensures Placed(old(ram.m), Where()) ==>
                && r.Ok? && Placed(ram.m, Where())
                && RingView(ram.m, Where()) == PublishUsed(RingView(old(ram.m), Where()), old(State()))
    {
      nextUsed, numAdded := WrapAdd(nextUsed, 1), WrapAdd(numAdded, 1);
      var idx := CheckedAdd(usedRing, 2);
      if idx.None? {
        return Err(AddressOverflow);
      }
      var ok := ram.StoreU16(idx.value, nextUsed);
      StoreInUsedRing(old(ram.m), ram.m, Where(), idx.value, nextUsed, ok);
      UsedIdxOutcome(old(ram.m), ram.m, Where(), nextUsed, ok);
      return if ok then Ok(()) else Err(GuestMemoryError);
    }

    /** `add_used`. A failed element write moves no counter. */
    method AddUsed(ram: GuestRam, head: u16, len: u32) returns (r: Result<(), Error>)
      modifies this`nextUsed, this`numAdded, ram
      ensures head >= size ==> r == Err(InvalidDescriptorIndex) && ram.m == old(ram.m)
      ensures OnlyUsedRingChanged(old(ram.m), ram.m, Where())
      ensures State() == old(State()) || State() == Apply(old(State()), UsedAdded)
      ensures r.Ok? ==> State() == Apply(old(State()), UsedAdded)
      ensures Placed(old(ram.m), Where()) && head < size ==>
                && r.Ok? && Placed(ram.m, Where())
                && (RingView(ram.m, Where()), State())
                   == Rings.AddUsed(RingView(old(ram.m), Where()), old(State()), UsedElem(head, len))
    {
      if head >= size {
        return Err(InvalidDescriptorIndex);
      }
      r := WriteUsedElem(ram, UsedElem(head, len));
      if r.Ok? {
        r := PublishUsedIdx(ram);
      }
    }

    /** True when the driver must be told about the entries added since the last check. */
    method NeedsNotification(ram: GuestRam) returns (r: Result<bool, Error>)
      modifies this`numAdded
      ensures !eventIdx ==> r == Ok(true)
      ensures State() == if eventIdx && r.Ok? then Apply(old(State()), EventChecked) else old(State())
      ensures Placed(ram.m, Where()) ==>
                r == Ok(Rings.NeedsNotification(RingView(ram.m, Where()), old(State())))
    {
      if !eventIdx {
        return Ok(true);
      }
      var a := CheckedAdd(availRing, 4 + 2 * size);
      if a.None? {
        return Err(AddressOverflow);
      }
      var e := ram.LoadU16(a.value);
      if e.None? {
        return Err(GuestMemoryError);
      }
      var oldIdx := WrapSub(nextUsed, numAdded);
      numAdded := 0;
      return Ok(WrapSub(WrapSub(nextUsed, e.value), 1) < WrapSub(nextUsed, oldIdx));
    }

    /** `iter`: where an iterator over the available heads would stop, or why none is given. */
    method Iter(ram: GuestRam) returns (r: Result<u16, Error>)
      ensures !ready || availRing == 0 ==> r == Err(QueueNotReady)
      ensures ready && availRing != 0 && Placed(ram.m, Where()) ==>
                var v := RingView(ram.m, Where());
                r == if IterAccepts(v, State()) then Ok(v.availIdx) else Err(InvalidAvailRingIndex)
      ensures ready && availRing != 0 && LoadedIdx(ram.m, availRing).Err? ==> r == LoadedIdx(ram.m, availRing)
      ensures ready && availRing != 0 && LoadedIdx(ram.m, availRing).Ok? ==>
                r == Err(InvalidAvailRingIndex) || r == LoadedIdx(ram.m, availRing)
      ensures forall popped: nat, published: nat ::
                && nextAvail == Wrap(popped) && LoadedIdx(ram.m, availRing) == Ok(Wrap(published))
                && popped <= published < popped + TWO16 && ready && availRing != 0 ==>
                (r == Err(InvalidAvailRingIndex) <==> published - popped > size)
    {
      if !ready || availRing == 0 {
        return Err(QueueNotReady);
      }
      var idx := AvailIdx(ram);
      forall popped: nat, published: nat |
        && nextAvail == Wrap(popped) && LoadedIdx(ram.m, availRing) == Ok(Wrap(published))
        && popped <= published < popped + TWO16
        ensures WrapSub(idx.value, nextAvail) == published - popped
      {
        WrapDistance(published, popped);
      }
      if idx.Ok? && WrapSub(idx.value, nextAvail) > size {
        return Err(InvalidAvailRingIndex);
      }
      return idx;
    }

    /** `AvailIter::next`: the head at `nextAvail`, until the iterator's last index. */
    method NextHead(ram: GuestRam, lastIndex: u16) returns (head: Option<u16>)
      modifies this`nextAvail
      ensures size == 0 ==> head.None?
      ensures head.None? ==> State() == old(State())
      ensures head.Some? ==> old(nextAvail) != lastIndex && State() == Apply(old(State()), ChainPopped)
      ensures Placed(ram.m, Where()) ==>
                head == if old(nextAvail) == lastIndex then None
                        else Some(HeadAt(RingView(ram.m, Where()), old(State())))
    {
      if nextAvail == lastIndex || size == 0 {
        return None;
      }
      var a := CheckedAdd(availRing, 4 + 2 * Slot(nextAvail, State()));
      if a.None? {
        return None;
      }
      head := ram.LoadU16(a.value);
      if head.Some? {
        nextAvail := WrapAdd(nextAvail, 1);
      }
    }
  }
}
