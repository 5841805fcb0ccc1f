/** How the block device answers, told from what the driver can see: the features, the bytes of the segments,
    the place and length of the data. The file and the guest memory answer as `Io` and `Mem` say. */
module BlockAnswers {
  import opened Words
  import opened GuestMemory
  import opened ByteStream
  import opened BlockRequest
  import opened BlockEffects

  // ---- Segments on bytes ----------------------------------------------------------------------------

  /** A segment as section 5.2.6 of VIRTIO 1.1 lays it out. */
  function SegmentBytes(s: Segment): (bs: seq<u8>)
    ensures |bs| == 16
  {
    Le64(s.sector) + (Le32(s.count) + Le32(s.flags))
  }

  /** A segment is found at an address exactly when its bytes are there. */
  lemma SegmentDecodes(m: Mem, a: int, s: Segment)
    ensures ItemAt(m, a) == Seg(s) <==> Stands(m.data, a, SegmentBytes(s))
  {
    if Mapped(m.data, a, 16) {
      StandsSplit(m.data, a, Le64(s.sector), Le32(s.count) + Le32(s.flags));
      StandsSplit(m.data, a + 8, Le32(s.count), Le32(s.flags));
      LoadsU64(m.data, a, s.sector);
      LoadsU32(m.data, a + 8, s.count);
      LoadsU32(m.data, a + 12, s.flags);
    }
  }

  function Encoded(ss: seq<Segment>): (bs: seq<u8>)
    ensures |bs| == 16 * |ss|
  {
    if ss == [] then [] else SegmentBytes(ss[0]) + Encoded(ss[1..])
  }

  lemma EncodedFirst(m: Mem, a: int, ss: seq<Segment>, bs: seq<u8>, rest: seq<u8>)
    requires ss != [] && bs == Encoded(ss) && rest == Encoded(ss[1..]) && Stands(m.data, a, bs)
    ensures ItemAt(m, a) == Seg(ss[0]) && Stands(m.data, a + 16, rest)
  {
    StandsSplit(m.data, a, SegmentBytes(ss[0]), rest);
    SegmentDecodes(m, a, ss[0]);
  }

  lemma {:induction false} EncodedAt(m: Mem, a: int, ss: seq<Segment>, bs: seq<u8>, i: nat, at: int)
    requires bs == Encoded(ss) && Stands(m.data, a, bs) && i < |ss| && at == a + 16 * i
    ensures ItemAt(m, at) == Seg(ss[i])
    decreases i
  {
    var rest := Encoded(ss[1..]);
    EncodedFirst(m, a, ss, bs, rest);
    if i > 0 {
      EncodedAt(m, a + 16, ss[1..], rest, i - 1, at);
    }
  }

  lemma ItemNumber(m: Mem, s: Slice, n: nat, i: nat, at: int)
    requires s.len == 16 * n && s.addr + s.len < TWO64 && i < n && at == s.addr + 16 * i
    ensures |ItemsOf(m, s)| == n && ItemsOf(m, s)[i] == ItemAt(m, at)
  {
  }

  /** The device finds in a buffer the segments that the driver put there, in their order. */
  lemma SegmentsDecode(m: Mem, s: Slice, ss: seq<Segment>, bs: seq<u8>, i: nat)
    requires bs == Encoded(ss) && s.len == |bs| && s.addr + s.len < TWO64 && Stands(m.data, s.addr, bs)
    requires i < |ss|
    ensures |ItemsOf(m, s)| == |ss| && ItemsOf(m, s)[i] == Seg(ss[i])
  {
    var at := s.addr + 16 * i;
    ItemNumber(m, s, |ss|, i, at);
    EncodedAt(m, s.addr, ss, bs, i, at);
  }

  lemma OneBuffer(m: Mem, s: Slice)
    ensures Items(m, [s]) == ItemsOf(m, s)
  {
    assert Items(m, [s][1..]) == [];
  }

  lemma ItemsFirst(m: Mem, a: seq<Slice>, b: seq<Slice>)
    requires a != []
    ensures Items(m, a) == ItemsOf(m, a[0]) + Items(m, a[1..])
    ensures Items(m, a + b) == ItemsOf(m, a[0]) + Items(m, a[1..] + b)
  {
    assert (a + b)[1..] == a[1..] + b;
  }

  lemma Regroup(first: seq<Item>, more: seq<Item>, rest: seq<Item>)
    ensures first + (more + rest) == (first + more) + rest
  {
  }

  /** The segments of several buffers follow one another as the buffers do. */
  lemma {:induction false} ItemsInOrder(m: Mem, a: seq<Slice>, b: seq<Slice>, x: seq<Item>, y: seq<Item>, z: seq<Item>)
    requires x == Items(m, a) && y == Items(m, b) && z == Items(m, a + b)
    ensures z == x + y
    decreases |a|
  {
    if a == [] {
      assert a + b == b;
    } else {
      ItemsFirst(m, a, b);
      ItemsInOrder(m, a[1..], b, Items(m, a[1..]), y, Items(m, a[1..] + b));
      Regroup(ItemsOf(m, a[0]), Items(m, a[1..]), y);
    }
  }

  // ---- Discard and write zeroes -----------------------------------------------------------------------

  /** A discard may not set any flag, write zeroes only UNMAP, bit 0. */
  predicate BadFlags(s: Segment, kind: RequestType) {
    if kind.WriteZeroes? then s.flags != 0 && s.flags != 1 else s.flags != 0
  }

  /** The `k`-th write of zeroes does not get through: no hole was asked for or none was made, and the write
      fails. */
  predicate ZeroingFails(s: Segment, kind: RequestType, io: Io, k: nat) {
    kind.WriteZeroes? && !(s.flags == 1 && io.punchOk(k)) && io.zeroesCut(k).Some?
  }

  /** An item, the `k`-th, that is dealt with: a segment with good flags, within the device. */
  predicate Passes(item: Item, kind: RequestType, numSectors: nat, io: Io, k: nat) {
    && item.Seg? && !BadFlags(item.s, kind) && item.s.sector + item.s.count <= numSectors
    && !ZeroingFails(item.s, kind, io, k)
  }

  /** Why an item does not pass. */
  function Reason(item: Item, kind: RequestType, numSectors: nat): ExecError {
    if item.Stop? then item.e
    else if BadFlags(item.s, kind) then InvalidFlags
    else if item.s.sector + item.s.count > numSectors then InvalidAccess
    else DiscardWriteZeroesFailed
  }

  lemma HandleFirst(f: seq<u8>, items: seq<Item>, k: nat, kind: RequestType, numSectors: nat, io: Io)
    requires FileFits(f, numSectors) && (kind.Discard? || kind.WriteZeroes?)
    requires items != [] && Passes(items[0], kind, numSectors, io, k)
    ensures Good(items[0], kind, numSectors)
    ensures var f1 := Effect(f, items[0].s, kind, io, k).0;
            && Handle(f, items, k, kind, numSectors, io) == Handle(f1, items[1..], k + 1, kind, numSectors, io)
            && Completed(f, items, k, kind, numSectors, io) ==
               1 + Completed(f1, items[1..], k + 1, kind, numSectors, io)
  {
  }

  lemma HandleEnds(f: seq<u8>, items: seq<Item>, k: nat, kind: RequestType, numSectors: nat, io: Io)
    requires FileFits(f, numSectors) && (kind.Discard? || kind.WriteZeroes?)
    requires items != [] && !Passes(items[0], kind, numSectors, io, k)
    ensures Completed(f, items, k, kind, numSectors, io) == 0
    ensures Handle(f, items, k, kind, numSectors, io).1 == Some(Reason(items[0], kind, numSectors))
  {
  }

  /** The items before `n` pass, and the one at `n` does not. */
  ghost predicate PassUpTo(items: seq<Item>, n: nat, kind: RequestType, numSectors: nat, io: Io, k: nat)
    requires n <= |items|
  {
    && (forall j :: 0 <= j < n ==> Passes(items[j], kind, numSectors, io, k + j))
    && (n < |items| ==> !Passes(items[n], kind, numSectors, io, k + n))
  }

  lemma PassOneMore(items: seq<Item>, n: nat, kind: RequestType, numSectors: nat, io: Io, k: nat)
    requires items != [] && Passes(items[0], kind, numSectors, io, k)
    requires n < |items| && PassUpTo(items[1..], n, kind, numSectors, io, k + 1)
    ensures PassUpTo(items, n + 1, kind, numSectors, io, k)
  {
    forall j | 0 < j <= n
      ensures Passes(items[j], kind, numSectors, io, k + j)
    {
      assert items[1..][j - 1] == items[j] && k + 1 + (j - 1) == k + j;
    }
  }

  /** The request ends with the first item that does not pass, for its reason, and succeeds if all pass. */
  lemma {:induction false} HandledUpToFirst(
    f: seq<u8>, items: seq<Item>, k: nat, kind: RequestType, numSectors: nat, io: Io)
    requires FileFits(f, numSectors) && (kind.Discard? || kind.WriteZeroes?)
    ensures var n := Completed(f, items, k, kind, numSectors, io);
            && PassUpTo(items, n, kind, numSectors, io, k)
            && Handle(f, items, k, kind, numSectors, io).1 ==
               (if n < |items| then Some(Reason(items[n], kind, numSectors)) else None)
    decreases |items|
  {
    if items == [] {
    } else if Passes(items[0], kind, numSectors, io, k) {
      HandleFirst(f, items, k, kind, numSectors, io);
      var f1 := Effect(f, items[0].s, kind, io, k).0;
      HandledUpToFirst(f1, items[1..], k + 1, kind, numSectors, io);
      PassOneMore(items, Completed(f1, items[1..], k + 1, kind, numSectors, io), kind, numSectors, io, k);
    } else {
      HandleEnds(f, items, k, kind, numSectors, io);
    }
  }

  // ---- Whole requests ---------------------------------------------------------------------------------

  /** Section 5.2.3 of VIRTIO 1.1: bits 9, 13 and 14 offer flush, discard and write zeroes. */
  predicate Offered(features: set<nat>, kind: RequestType) {
    match kind
    case Flush => 9 in features
    case Discard => 13 in features
    case WriteZeroes => 14 in features
    case _ => true
  }

  /** Bit 5 makes a device read-only. */
  predicate Forbidden(features: set<nat>, kind: RequestType) { 5 in features && !kind.In? }

  lemma FeaturesGate(features: set<nat>, kind: RequestType)
    ensures RequestError(features, kind) ==
            (if Forbidden(features, kind) then Some(ReadOnly)
             else if Offered(features, kind) then None
             else Some(UnsupportedRequest(Code(kind))))
  {
  }

  /** The bytes of a transfer are whole sectors of the device; the last sector is one of them. */
  predicate InDevice(dev: Config, req: Request) {
    Total(req.data) % 512 == 0 && 512 * req.sector + Total(req.data) <= 512 * dev.numSectors
  }

  lemma TransfersInDevice(dev: Config, req: Request, f: seq<u8>)
    requires FileFits(f, dev.numSectors)
    ensures var total := Total(req.data);
            total % 512 == 0 ==>
              (AccessOk(total / 512, req.sector, dev.numSectors) <==> 512 * req.sector + total <= 512 * dev.numSectors)
  {
  }

  /** All buffers are in guest memory and the file gives no error. */
  predicate Transfers(m: Mem, req: Request, io: Io) {
    AllAccessible(m, req.data) && !Interrupted(io.fault, |req.data|)
  }

  /** The requests that succeed. */
  ghost predicate Succeeds(dev: Config, m: Mem, req: Request, io: Io) {
    && io.seekOk && !Forbidden(dev.features, req.kind) && Offered(dev.features, req.kind)
    && match req.kind
       case In => InDevice(dev, req) && Total(req.data) < TWO32 && Transfers(m, req, io)
       case Out => InDevice(dev, req) && Transfers(m, req, io)
       case Flush => io.syncOk
       case GetDeviceId => dev.id.Some? && Total(req.data) == 20 && Transfers(m, req, io)
       case Unsupported(_) => false
       case _ =>
         var items := Items(m, req.data);
         PassUpTo(items, |items|, req.kind, dev.numSectors, io, 0)
  }

  /** The requests that the device does not support: an unknown type, one without its feature, or a segment
      with bad flags after segments that pass. */
  ghost predicate NotSupported(dev: Config, m: Mem, req: Request, io: Io) {
    && io.seekOk && !Forbidden(dev.features, req.kind)
    && (!Offered(dev.features, req.kind) ||
        match req.kind
        case GetDeviceId => dev.id.None?
        case Unsupported(_) => true
        case Discard => BadFlagsFirst(Items(m, req.data), req.kind, dev.numSectors, io)
        case WriteZeroes => BadFlagsFirst(Items(m, req.data), req.kind, dev.numSectors, io)
        case _ => false)
  }

  ghost predicate BadFlagsFirst(items: seq<Item>, kind: RequestType, numSectors: nat, io: Io) {
    exists n :: 0 <= n < |items| && PassUpTo(items, n, kind, numSectors, io, 0)
                && items[n].Seg? && BadFlags(items[n].s, kind)
  }

  /** The items that stop a request are errors of its data, not of its kind. */
  predicate StopsPlainly(item: Item) { item.Stop? ==> StatusOf(item.e) == 1 }

  lemma {:induction false} ItemsStopPlainly(m: Mem, data: seq<Slice>)
    ensures forall item :: item in Items(m, data) ==> StopsPlainly(item)
    decreases |data|
  {
    if data != [] {
      ItemsStopPlainly(m, data[1..]);
    }
  }

  lemma OneFirst(items: seq<Item>, n: nat, n': nat, kind: RequestType, numSectors: nat, io: Io)
    requires n <= |items| && PassUpTo(items, n, kind, numSectors, io, 0)
    requires n' <= |items| && PassUpTo(items, n', kind, numSectors, io, 0)
    ensures n == n'
  {
  }

  lemma SegmentsAnswer(
    f: seq<u8>, items: seq<Item>, kind: RequestType, numSectors: nat, io: Io, e: Option<ExecError>)
    requires FileFits(f, numSectors) && (kind.Discard? || kind.WriteZeroes?)
    requires e == Handle(f, items, 0, kind, numSectors, io).1 && forall item :: item in items ==> StopsPlainly(item)
    ensures e.None? <==> PassUpTo(items, |items|, kind, numSectors, io, 0)
    ensures e.Some? ==> StatusOf(e.value) == if BadFlagsFirst(items, kind, numSectors, io) then 2 else 1
  {
    HandledUpToFirst(f, items, 0, kind, numSectors, io);
    var n := Completed(f, items, 0, kind, numSectors, io);
    if PassUpTo(items, |items|, kind, numSectors, io, 0) {
      OneFirst(items, n, |items|, kind, numSectors, io);
    }
    if BadFlagsFirst(items, kind, numSectors, io) {
      var n' :| 0 <= n' < |items| && PassUpTo(items, n', kind, numSectors, io, 0)
                && items[n'].Seg? && BadFlags(items[n'].s, kind);
      OneFirst(items, n, n', kind, numSectors, io);
    }
    if n < |items| {
      assert StopsPlainly(items[n]);
    }
  }

  /** The status byte: 0 for exactly the requests that succeed, 2 for exactly those that are not supported. */
  ghost function Answer(dev: Config, m: Mem, req: Request, io: Io): u8 {
    if Succeeds(dev, m, req, io) then 0 else if NotSupported(dev, m, req, io) then 2 else 1
  }

  lemma StatusTells(
    dev: Config, f: seq<u8>, m: Mem, req: Request, io: Io, r: Result<nat, ExecError>, moved: nat, f': seq<u8>, m': Mem)
    requires FileFits(f, dev.numSectors) && Served(dev, f, m, req, io, r, moved, f', m')
    ensures r.Ok? <==> Succeeds(dev, m, req, io)
    ensures (if r.Ok? then 0 else StatusOf(r.error)) == Answer(dev, m, req, io)
  {
    FeaturesGate(dev.features, req.kind);
    TransfersInDevice(dev, req, f);
    if (req.kind.Discard? || req.kind.WriteZeroes?) && Refusal(dev, req, io).None? {
      ItemsStopPlainly(m, req.data);
      SegmentsAnswer(f, Items(m, req.data), req.kind, dev.numSectors, io, ErrorOf(r));
    }
  }
}
