/** What a block request does to the backing file and to guest memory. */
module BlockEffects {
  import opened Words
  import opened GuestMemory
  import opened ByteStream
  import opened Chain
  import opened BlockRequest

  const SECTOR_SIZE: int := 512
  const ID_BYTES: int := 20
  const SEGMENT_LEN: int := 16

  // Feature bits of a block device.
  const F_RO: nat := 5
  const F_FLUSH: nat := 9
  const F_DISCARD: nat := 13
  const F_WRITE_ZEROES: nat := 14

  datatype ExecError =
    | DiscardWriteZeroesFailed
    | FlushFailed
    | BadMemory
    | InvalidAccess
    | InvalidFlags
    | InvalidDataLength
    | AddressOverflow
    | ReadFailed(bytes: nat)
    | ReadOnly
    | WriteFailed
    | SeekFailed
    | UnsupportedRequest(t: u32)

  datatype ProcessError = BadStatusAddress | LengthOverflow

  /** The status byte that reports an error. */
  function StatusOf(e: ExecError): u8 {
    if e.InvalidFlags? || e.UnsupportedRequest? then 2 else 1
  }

  /** A transfer that stops in buffer number `at` after at most `moved` bytes of it; `counted` says
      whether the error tells how many. */
  datatype Fault = Fault(at: nat, moved: nat, counted: bool)

  /** The answers of the file system during one request: seek and sync, a fault in the data
      transfer, the `k`-th `punch_hole`, and how far the `k`-th `write_all_zeroes_at` gets. */
  datatype Io = Io(
    seekOk: bool,
    syncOk: bool,
    fault: Option<Fault>,
    punchOk: nat -> bool,
    zeroesCut: nat -> Option<nat>)

  // ---- Ranges of the file ---------------------------------------------------------------------------

  /** `f` with `bs` written at `off`. */
  function FileWrite(f: seq<u8>, off: nat, bs: seq<u8>): (r: seq<u8>)
    requires off + |bs| <= |f|
    ensures |r| == |f|
    ensures forall i :: 0 <= i < |f| && !(off <= i < off + |bs|) ==> r[i] == f[i]
    ensures r[off..off + |bs|] == bs
  {
    f[..off] + bs + f[off + |bs|..]
  }

  function Zeroes(n: nat): (r: seq<u8>)
    ensures |r| == n
  {
    seq(n, _ => 0)
  }

  /** The file offset that the code computes: a shift that drops the bits it loses. */
  function Shifted(sector: u64): u64 { (sector * SECTOR_SIZE) % TWO64 }

  /** The check of `check_access`. */
  predicate AccessOk(count: nat, sector: u64, numSectors: nat) {
    sector + count < TWO64 && sector + count <= numSectors
  }

  /** What passes the check lies in the file at exactly `512 * sector`: no bit was lost. */
  lemma AccessIsInFile(count: nat, sector: u64, numSectors: nat, fileLen: nat)
    requires AccessOk(count, sector, numSectors)
    requires SECTOR_SIZE * numSectors <= fileLen < TWO64
    ensures Shifted(sector) == SECTOR_SIZE * sector
    ensures Shifted(sector) + SECTOR_SIZE * count <= SECTOR_SIZE * numSectors <= fileLen
  {
  }

  lemma TransferIsInFile(total: nat, sector: u64, numSectors: nat, fileLen: nat)
    requires total % SECTOR_SIZE == 0 && AccessOk(total / SECTOR_SIZE, sector, numSectors)
    requires SECTOR_SIZE * numSectors <= fileLen < TWO64
    ensures Shifted(sector) == SECTOR_SIZE * sector
    ensures Shifted(sector) + total <= SECTOR_SIZE * numSectors
  {
    AccessIsInFile(total / SECTOR_SIZE, sector, numSectors, fileLen);
  }

  // ---- Whole transfers ------------------------------------------------------------------------------

  predicate AllAccessible(m: Mem, data: seq<Slice>) {
    forall i :: 0 <= i < |data| ==> Accessible(m, data[i].addr, data[i].len)
  }

  lemma {:induction false} AccessibleIsMapped(m: Mem, data: seq<Slice>)
    requires AllAccessible(m, data)
    ensures AllMapped(m.data, Addrs(data))
    decreases |data|
  {
    if data != [] {
      AccessibleIsMapped(m, data[1..]);
    }
  }

  // ---- Discard and write zeroes -----------------------------------------------------------------------

  datatype Segment = Segment(sector: u64, count: u32, flags: u32)

  function SegmentAt(m: Mem, a: int): Segment
    requires Accessible(m, a, 16)
  {
    Segment(U64At(m.data, a), U32At(m.data, a + 8), U32At(m.data, a + 12))
  }

  /** A segment to handle, or the reason why there is none in its place. */
  datatype Item = Seg(s: Segment) | Stop(e: ExecError)

  function ItemAt(m: Mem, a: int): Item {
    if Accessible(m, a, 16) then Seg(SegmentAt(m, a)) else Stop(BadMemory)
  }

  function SegmentItems(m: Mem, a: int, n: nat): (r: seq<Item>)
    ensures |r| == n
  {
    seq(n, i => ItemAt(m, a + SEGMENT_LEN * i))
  }

  /** The segments of one data descriptor. */
  function ItemsOf(m: Mem, s: Slice): seq<Item> {
    if s.len % SEGMENT_LEN != 0 then [Stop(InvalidDataLength)]
    else if s.addr + s.len >= TWO64 then [Stop(AddressOverflow)]
    else SegmentItems(m, s.addr, s.len / SEGMENT_LEN)
  }

  /** The segments of all data descriptors, in order. */
  function Items(m: Mem, data: seq<Slice>): seq<Item> {
    if data == [] then [] else ItemsOf(m, data[0]) + Items(m, data[1..])
  }

  /** Why a segment is refused, if it is. */
  function SegmentError(s: Segment, kind: RequestType, numSectors: nat): Option<ExecError> {
    if (if kind.WriteZeroes? then s.flags / 2 != 0 else s.flags != 0) then Some(InvalidFlags)
    else if !AccessOk(s.count, s.sector, numSectors) then Some(InvalidAccess)
    else None
  }

  function Zeroed(f: seq<u8>, s: Segment, n: nat): (r: seq<u8>)
    requires SECTOR_SIZE * s.sector + n <= |f|
    ensures |r| == |f|
  {
    FileWrite(f, SECTOR_SIZE * s.sector, Zeroes(n))
  }

  function Bytes(s: Segment): nat { SECTOR_SIZE * s.count }

  /** The file after the `k`-th segment, which has been accepted, and the error if it failed. */
  function Effect(f: seq<u8>, s: Segment, kind: RequestType, io: Io, k: nat): (r: (seq<u8>, Option<ExecError>))
    requires SECTOR_SIZE * s.sector + Bytes(s) <= |f|
    ensures |r.0| == |f|
  {
    if kind.Discard? then (if io.punchOk(k) then Zeroed(f, s, Bytes(s)) else f, None)
    else if s.flags % 2 == 1 && io.punchOk(k) then (Zeroed(f, s, Bytes(s)), None)
    else if io.zeroesCut(k).None? then (Zeroed(f, s, Bytes(s)), None)
    else (Zeroed(f, s, Min(io.zeroesCut(k).value, Bytes(s))), Some(DiscardWriteZeroesFailed))
  }

  predicate FileFits(f: seq<u8>, numSectors: nat) { SECTOR_SIZE * numSectors <= |f| < TWO64 }

  /** Handles the items from number `k` on, in order, up to the first error. */
  function Handle(f: seq<u8>, items: seq<Item>, k: nat, kind: RequestType, numSectors: nat, io: Io)
    : (r: (seq<u8>, Option<ExecError>))
    requires FileFits(f, numSectors)
    ensures |r.0| == |f|
    decreases |items|
  {
    if items == [] then (f, None)
    else if items[0].Stop? then (f, Some(items[0].e))
    else if SegmentError(items[0].s, kind, numSectors).Some? then (f, SegmentError(items[0].s, kind, numSectors))
    else
      var (f', e) := Effect(f, items[0].s, kind, io, k);
      if e.Some? then (f', e) else Handle(f', items[1..], k + 1, kind, numSectors, io)
  }

  /** How many items are handled completely before the first error. */
  function Completed(f: seq<u8>, items: seq<Item>, k: nat, kind: RequestType, numSectors: nat, io: Io): (n: nat)
    requires FileFits(f, numSectors)
    ensures n <= |items|
    decreases |items|
  {
    if items == [] || !Good(items[0], kind, numSectors) then 0
    else
      var (f', e) := Effect(f, items[0].s, kind, io, k);
      if e.Some? then 0 else 1 + Completed(f', items[1..], k + 1, kind, numSectors, io)
  }

  /** A segment that is there and is accepted. */
  predicate Good(item: Item, kind: RequestType, numSectors: nat) {
    item.Seg? && SegmentError(item.s, kind, numSectors).None?
  }

  /** Byte `i` of the file belongs to the segment. */
  predicate InItem(item: Item, i: nat) {
    item.Seg? && SECTOR_SIZE * item.s.sector <= i < SECTOR_SIZE * (item.s.sector + item.s.count)
  }

  /** The `k`-th segment is zeroed: only a discard leaves that to `punch_hole`. */
  predicate Takes(kind: RequestType, io: Io, k: nat) { kind.Discard? ==> io.punchOk(k) }

  /** Byte `i` belongs to a segment that is zeroed; the first item has number `k`. */
  ghost predicate InSome(items: seq<Item>, k: nat, kind: RequestType, io: Io, i: nat) {
    exists j :: 0 <= j < |items| && InItem(items[j], i) && Takes(kind, io, k + j)
  }

  lemma InSomeStep(items: seq<Item>, k: nat, kind: RequestType, io: Io, i: nat)
    requires items != []
    ensures InSome(items, k, kind, io, i) <==>
            (InItem(items[0], i) && Takes(kind, io, k)) || InSome(items[1..], k + 1, kind, io, i)
  {
    if InSome(items, k, kind, io, i) {
      var j :| 0 <= j < |items| && InItem(items[j], i) && Takes(kind, io, k + j);
      if j > 0 {
        assert items[1..][j - 1] == items[j] && k + 1 + (j - 1) == k + j;
      }
    }
    if InSome(items[1..], k + 1, kind, io, i) {
      var j :| 0 <= j < |items[1..]| && InItem(items[1..][j], i) && Takes(kind, io, k + 1 + j);
      assert items[j + 1] == items[1..][j] && k + (j + 1) == k + 1 + j;
    }
  }

  lemma EffectBytes(f: seq<u8>, s: Segment, kind: RequestType, io: Io, k: nat, i: nat)
    requires SECTOR_SIZE * s.sector + Bytes(s) <= |f| && i < |f|
    ensures var (f', e) := Effect(f, s, kind, io, k);
            && (f'[i] == f[i] || (InItem(Seg(s), i) && f'[i] == 0))
            && (e.None? ==> f'[i] == if InItem(Seg(s), i) && Takes(kind, io, k) then 0 else f[i])
  {
  }

  /** Completed segments are acceptable, so they lie in the sectors of the device. */
  lemma {:induction false} CompletedAreGood(
    f: seq<u8>, items: seq<Item>, k: nat, kind: RequestType, numSectors: nat, io: Io)
    requires FileFits(f, numSectors)
    ensures var n := Completed(f, items, k, kind, numSectors, io);
            && (Handle(f, items, k, kind, numSectors, io).1.None? <==> n == |items|)
            && (forall j :: 0 <= j < n ==> Good(items[j], kind, numSectors))
    decreases |items|
  {
    if items != [] && Good(items[0], kind, numSectors) {
      var (f1, e1) := Effect(f, items[0].s, kind, io, k);
      if e1.None? {
        CompletedAreGood(f1, items[1..], k + 1, kind, numSectors, io);
        assert forall j :: 0 < j < |items| ==> items[j] == items[1..][j - 1];
      }
    }
  }

  /** What becomes of byte `i` with value `b` when the first `n` items are completed: `b'`. A byte in
      a completed segment reads zero; any other byte is unchanged, unless it lies in the segment that
      was accepted but failed, and is zero. */
  ghost predicate Accounted(
    b: u8, b': u8, items: seq<Item>, n: nat, k: nat, kind: RequestType, numSectors: nat, io: Io, i: nat)
    requires n <= |items|
  {
    if InSome(items[..n], k, kind, io, i) then b' == 0
    else b' == b || (n < |items| && Good(items[n], kind, numSectors) && InItem(items[n], i) && b' == 0)
  }

  lemma AccountedStep(
    b0: u8, b1: u8, b2: u8, items: seq<Item>, n: nat, k: nat, kind: RequestType, numSectors: nat, io: Io, i: nat)
    requires n < |items|
    requires b1 == if InItem(items[0], i) && Takes(kind, io, k) then 0 else b0
    requires Accounted(b1, b2, items[1..], n, k + 1, kind, numSectors, io, i)
    ensures Accounted(b0, b2, items, n + 1, k, kind, numSectors, io, i)
  {
    InSomeStep(items[..n + 1], k, kind, io, i);
    assert items[..n + 1][1..] == items[1..][..n];
  }

  /** The file after a discard or write-zeroes request, byte by byte: write zeroes clears every
      completed segment, whatever its UNMAP flag and the answers of `punch_hole`. */
  lemma {:induction false} HandledBytes(
    f: seq<u8>, items: seq<Item>, k: nat, kind: RequestType, numSectors: nat, io: Io, i: nat)
    requires FileFits(f, numSectors) && i < |f|
    ensures Accounted(f[i], Handle(f, items, k, kind, numSectors, io).0[i], items,
                      Completed(f, items, k, kind, numSectors, io), k, kind, numSectors, io, i)
    decreases |items|
  {
    if items != [] && Good(items[0], kind, numSectors) {
      var s := items[0].s;
      EffectBytes(f, s, kind, io, k, i);
      var (f1, e1) := Effect(f, s, kind, io, k);
      if e1.None? {
        HandledBytes(f1, items[1..], k + 1, kind, numSectors, io, i);
        AccountedStep(f[i], f1[i], Handle(f1, items[1..], k + 1, kind, numSectors, io).0[i], items,
                      Completed(f1, items[1..], k + 1, kind, numSectors, io), k, kind, numSectors, io, i);
      }
    }
  }

  /** A discard or write-zeroes request changes no byte outside the sectors of the device. */
  lemma HandledInSectors(
    f: seq<u8>, items: seq<Item>, k: nat, kind: RequestType, numSectors: nat, io: Io, i: nat)
    requires FileFits(f, numSectors) && SECTOR_SIZE * numSectors <= i < |f|
    ensures Handle(f, items, k, kind, numSectors, io).0[i] == f[i]
  {
    HandledBytes(f, items, k, kind, numSectors, io, i);
    CompletedAreGood(f, items, k, kind, numSectors, io);
  }

  // ---- What a request does ------------------------------------------------------------------------------

  /** A fault stops the transfer before all of its `n` buffers are through. */
  predicate Interrupted(fault: Option<Fault>, n: nat) { fault.Some? && fault.value.at < n }

  /** The bytes `src` go to the buffers, `moved` of them: all, unless a buffer is not in guest memory or
      a fault intervenes. An error counts no byte that was not moved, and all unless the fault hides some. */
  ghost predicate ReadOutcome(
    m0: Mem, data: seq<Slice>, src: seq<u8>, fault: Option<Fault>, r: Result<nat, ExecError>, moved: nat, m: Mem)
  {
    && m.breaks == m0.breaks && Filled(m0.data, Addrs(data), src, moved, m.data)
    && (r.Ok? <==> AllAccessible(m0, data) && !Interrupted(fault, |data|))
    && (r.Ok? ==> r.value == moved == |src|)
    && (r.Err? ==> r.error.ReadFailed? && r.error.bytes <= moved)
    && (r.Err? && (fault.Some? ==> fault.value.counted) ==> r.error.bytes == moved)
  }

  /** The same for the bytes of the file from `off` on. */
  ghost predicate RangeReadOutcome(
    f: seq<u8>, off: nat, m0: Mem, data: seq<Slice>, fault: Option<Fault>, r: Result<nat, ExecError>, moved: nat,
    m: Mem)
  {
    && off + |Addrs(data)| <= |f|
    && ReadOutcome(m0, data, f[off..off + |Addrs(data)|], fault, r, moved, m)
  }

  /** The bytes of the buffers go to the file at `off`, likewise. */
  ghost predicate WriteOutcome(
    f0: seq<u8>, off: nat, m: Mem, data: seq<Slice>, fault: Option<Fault>, r: Result<nat, ExecError>, moved: nat,
    f: seq<u8>)
  {
    && Drained(f0, off, m.data, Addrs(data), moved, f)
    && (r.Ok? <==> AllAccessible(m, data) && !Interrupted(fault, |data|))
    && (r.Ok? ==> r.value == 0 && moved == |Addrs(data)|)
    && (r.Err? ==> r.error == WriteFailed)
  }

  /** What the device was set up with. */
  datatype Config = Config(features: set<nat>, numSectors: nat, id: Option<seq<u8>>)

  /** `check_request`: a read-only device serves reads only; other requests need their feature. */
  function RequestError(features: set<nat>, kind: RequestType): Option<ExecError> {
    if F_RO in features && !kind.In? then Some(ReadOnly)
    else if kind.Flush? && F_FLUSH !in features then Some(UnsupportedRequest(4))
    else if kind.Discard? && F_DISCARD !in features then Some(UnsupportedRequest(11))
    else if kind.WriteZeroes? && F_WRITE_ZEROES !in features then Some(UnsupportedRequest(13))
    else None
  }

  /** Why a request is refused before it touches file or memory, if it is. */
  function Refusal(dev: Config, req: Request, io: Io): Option<ExecError> {
    var total := Total(req.data);
    if !io.seekOk then Some(SeekFailed)
    else if RequestError(dev.features, req.kind).Some? then RequestError(dev.features, req.kind)
    else match req.kind
      case In =>
        if total % SECTOR_SIZE != 0 then Some(InvalidDataLength)
        else if !AccessOk(total / SECTOR_SIZE, req.sector, dev.numSectors) then Some(InvalidAccess)
        else if total >= TWO32 then Some(InvalidDataLength)
        else None
      case Out =>
        if total % SECTOR_SIZE != 0 then Some(InvalidDataLength)
        else if !AccessOk(total / SECTOR_SIZE, req.sector, dev.numSectors) then Some(InvalidAccess)
        else None
      case Flush => if io.syncOk then None else Some(FlushFailed)
      case GetDeviceId =>
        if dev.id.None? then Some(UnsupportedRequest(8))
        else if total != ID_BYTES then Some(InvalidDataLength)
        else None
      case Unsupported(t) => Some(UnsupportedRequest(t))
      case _ => None
  }

  lemma RefusalUncounted(dev: Config, req: Request, io: Io)
    ensures Refusal(dev, req, io).Some? ==> !Refusal(dev, req, io).value.ReadFailed?
    ensures Refusal(dev, req, io).None? && (req.kind.In? || req.kind.GetDeviceId?) ==> Total(req.data) + 1 < TWO32
  {
  }

  /** A refused request changes nothing; any other has its effect. */
  ghost predicate Served(
    dev: Config, f0: seq<u8>, m0: Mem, req: Request, io: Io, r: Result<nat, ExecError>, moved: nat, f: seq<u8>, m: Mem)
    requires FileFits(f0, dev.numSectors)
  {
    if Refusal(dev, req, io).Some? then r == Err(Refusal(dev, req, io).value) && f == f0 && m == m0
    else Executed(f0, m0, req, io, dev.numSectors, dev.id, r, moved, f, m)
  }

  /** Where in the file a transfer starts. */
  function Start(req: Request): nat { SECTOR_SIZE * req.sector }

  /** The effect of a request that passed every check, on file and memory; `moved` counts the bytes
      transferred. */
  ghost predicate Executed(
    f0: seq<u8>, m0: Mem, req: Request, io: Io, numSectors: nat, id: Option<seq<u8>>,
    r: Result<nat, ExecError>, moved: nat, f: seq<u8>, m: Mem)
    requires FileFits(f0, numSectors)
  {
    match req.kind
    case In =>
      && f == f0 && Start(req) + |Addrs(req.data)| <= SECTOR_SIZE * numSectors
      && RangeReadOutcome(f0, Start(req), m0, req.data, io.fault, r, moved, m)
    case Out =>
      && m == m0 && Start(req) + |Addrs(req.data)| <= SECTOR_SIZE * numSectors
      && WriteOutcome(f0, Start(req), m0, req.data, io.fault, r, moved, f)
    case GetDeviceId => id.Some? && f == f0 && ReadOutcome(m0, req.data, id.value, io.fault, r, moved, m)
    case Flush => f == f0 && m == m0 && r == Ok(0)
    case Unsupported(_) => false
    case _ =>
      && m == m0 && (r.Ok? ==> r.value == 0)
      && (f, ErrorOf(r)) == Handle(f0, Items(m0, req.data), 0, req.kind, numSectors, io)
  }

  lemma FilledWhole(d0: map<int, u8>, addrs: seq<int>, src: seq<u8>, d: map<int, u8>)
    requires Filled(d0, addrs, src, |addrs|, d)
    ensures |addrs| == |src| && d == Scatter(d0, addrs, src)
  {
    assert addrs[..|addrs|] == addrs && src[..|src|] == src;
  }

  lemma DrainedWhole(f0: seq<u8>, off: nat, d: map<int, u8>, addrs: seq<int>, f: seq<u8>)
    requires Drained(f0, off, d, addrs, |addrs|, f)
    ensures AllMapped(d, addrs) && off + |addrs| <= |f0| && f == FileWrite(f0, off, Gather(d, addrs))
  {
    assert addrs[..|addrs|] == addrs;
  }

  /** A successful transfer has copied `src`, in order, to the addresses of the buffers. */
  lemma ReadSucceeds(
    m0: Mem, data: seq<Slice>, addrs: seq<int>, src: seq<u8>, fault: Option<Fault>, r: Result<nat, ExecError>,
    moved: nat, m: Mem)
    requires addrs == Addrs(data) && ReadOutcome(m0, data, src, fault, r, moved, m) && r.Ok?
    ensures r.value == |addrs| == |src| && AllMapped(m0.data, addrs)
    ensures m.breaks == m0.breaks && m.data == Scatter(m0.data, addrs, src)
  {
    AccessibleIsMapped(m0, data);
    FilledWhole(m0.data, addrs, src, m.data);
  }

  /** A successful transfer has stored the bytes at the addresses of the buffers, in order, at `off`. */
  lemma WriteSucceeds(
    f: seq<u8>, off: nat, m: Mem, data: seq<Slice>, addrs: seq<int>, fault: Option<Fault>, r: Result<nat, ExecError>,
    moved: nat, f': seq<u8>)
    requires addrs == Addrs(data) && WriteOutcome(f, off, m, data, fault, r, moved, f') && r.Ok?
    ensures r.value == 0 && off + |addrs| <= |f| && AllMapped(m.data, addrs)
    ensures f' == FileWrite(f, off, Gather(m.data, addrs))
  {
    DrainedWhole(f, off, m.data, addrs, f');
  }

  lemma InOutcome(
    f: seq<u8>, m0: Mem, req: Request, io: Io, numSectors: nat, id: Option<seq<u8>>,
    r: Result<nat, ExecError>, moved: nat, f': seq<u8>, m: Mem, addrs: seq<int>, src: seq<u8>)
    requires FileFits(f, numSectors) && Executed(f, m0, req, io, numSectors, id, r, moved, f', m) && req.kind.In?
    requires addrs == Addrs(req.data) && Start(req) + |addrs| <= |f| && src == f[Start(req)..Start(req) + |addrs|]
    ensures f' == f && ReadOutcome(m0, req.data, src, io.fault, r, moved, m)
  {
  }

  /** A successful read request has copied its range `src` of the file, in order, into its buffers. */
  lemma InSucceeds(
    f: seq<u8>, m0: Mem, req: Request, io: Io, numSectors: nat, id: Option<seq<u8>>,
    r: Result<nat, ExecError>, moved: nat, f': seq<u8>, m: Mem, addrs: seq<int>, src: seq<u8>)
    requires FileFits(f, numSectors) && Executed(f, m0, req, io, numSectors, id, r, moved, f', m)
    requires req.kind.In? && r.Ok?
    requires addrs == Addrs(req.data) && Start(req) + |addrs| <= |f| && src == f[Start(req)..Start(req) + |addrs|]
    ensures f' == f && r.value == |addrs| && AllMapped(m0.data, addrs)
    ensures m.breaks == m0.breaks && m.data == Scatter(m0.data, addrs, src)
  {
    InOutcome(f, m0, req, io, numSectors, id, r, moved, f', m, addrs, src);
    ReadSucceeds(m0, req.data, addrs, src, io.fault, r, moved, m);
  }

  /** A successful device-id request has copied the 20 bytes of the id, in order, into its buffers. */
  lemma IdSucceeds(
    f: seq<u8>, m0: Mem, req: Request, io: Io, numSectors: nat, id: seq<u8>,
    r: Result<nat, ExecError>, moved: nat, f': seq<u8>, m: Mem, addrs: seq<int>)
    requires FileFits(f, numSectors) && Executed(f, m0, req, io, numSectors, Some(id), r, moved, f', m)
    requires req.kind.GetDeviceId? && r.Ok? && addrs == Addrs(req.data) && |id| == 20
    ensures f' == f && r.value == |addrs| == 20
    ensures m.breaks == m0.breaks && m.data == Scatter(m0.data, addrs, id)
  {
    ReadSucceeds(m0, req.data, addrs, id, io.fault, r, moved, m);
  }

  /** A successful write request has stored its buffers, in order, at its sector. */
  lemma OutSucceeds(
    f: seq<u8>, m: Mem, req: Request, io: Io, numSectors: nat, id: Option<seq<u8>>,
    r: Result<nat, ExecError>, moved: nat, f': seq<u8>, m': Mem, addrs: seq<int>)
    requires FileFits(f, numSectors) && Executed(f, m, req, io, numSectors, id, r, moved, f', m')
    requires req.kind.Out? && r.Ok? && addrs == Addrs(req.data)
    ensures m' == m && r.value == 0 && Start(req) + |addrs| <= |f| && AllMapped(m.data, addrs)
    ensures f' == FileWrite(f, Start(req), Gather(m.data, addrs))
  {
    WriteSucceeds(f, Start(req), m, req.data, addrs, io.fault, r, moved, f');
  }

  /** Whatever a request does, it keeps the length of the file and every byte beyond the sectors of
      the device; only a write, a discard and a write-zeroes request change the file at all. */
  lemma ExecutedInSectors(
    f: seq<u8>, m: Mem, req: Request, io: Io, numSectors: nat, id: Option<seq<u8>>,
    r: Result<nat, ExecError>, moved: nat, f': seq<u8>, m': Mem)
    requires FileFits(f, numSectors) && Executed(f, m, req, io, numSectors, id, r, moved, f', m')
    ensures |f'| == |f| && forall i :: SECTOR_SIZE * numSectors <= i < |f| ==> f'[i] == f[i]
    ensures f' != f ==> req.kind.Out? || req.kind.Discard? || req.kind.WriteZeroes?
    ensures m'.data.Keys == m.data.Keys && m'.breaks == m.breaks
    ensures r.Ok? ==> r.value <= Total(req.data)
  {
    TotalIsLength(req.data);
    if req.kind.Discard? || req.kind.WriteZeroes? {
      forall i | SECTOR_SIZE * numSectors <= i < |f| ensures f'[i] == f[i] {
        HandledInSectors(f, Items(m, req.data), 0, req.kind, numSectors, io, i);
      }
    }
  }

  /** The number of bytes that a result says were written to the guest. */
  function Reported(r: Result<nat, ExecError>): nat {
    if r.Ok? then r.value else if r.error.ReadFailed? then r.error.bytes else 0
  }

  function UsedLength(r: Result<nat, ExecError>): Result<u32, ProcessError> {
    if Reported(r) + 1 < TWO32 then Ok(Reported(r) + 1) else Err(LengthOverflow)
  }

  predicate StopsUncounted(item: Item) { item.Stop? ==> !item.e.ReadFailed? }

  lemma {:induction false} ItemsStopUncounted(m: Mem, data: seq<Slice>)
    ensures forall item :: item in Items(m, data) ==> StopsUncounted(item)
    decreases |data|
  {
    if data != [] {
      ItemsStopUncounted(m, data[1..]);
    }
  }

  lemma {:induction false} HandledUncounted(
    f: seq<u8>, items: seq<Item>, k: nat, kind: RequestType, numSectors: nat, io: Io)
    requires FileFits(f, numSectors) && forall item :: item in items ==> StopsUncounted(item)
    ensures var e := Handle(f, items, k, kind, numSectors, io).1; e.Some? ==> !e.value.ReadFailed?
    decreases |items|
  {
    if items != [] {
      assert StopsUncounted(items[0]);
      if Good(items[0], kind, numSectors) {
        HandledUncounted(Effect(f, items[0].s, kind, io, k).0, items[1..], k + 1, kind, numSectors, io);
      }
    }
  }

  /** The length reported for a request counts bytes that were moved to the guest, and no others. */
  lemma ReportedIsMoved(
    f: seq<u8>, m: Mem, req: Request, io: Io, numSectors: nat, id: Option<seq<u8>>,
    r: Result<nat, ExecError>, moved: nat, f': seq<u8>, m': Mem)
    requires FileFits(f, numSectors) && Executed(f, m, req, io, numSectors, id, r, moved, f', m')
    ensures if req.kind.In? || req.kind.GetDeviceId? then Reported(r) <= moved <= Total(req.data)
            else Reported(r) == 0
  {
    TotalIsLength(req.data);
    if req.kind.Discard? || req.kind.WriteZeroes? {
      ItemsStopUncounted(m, req.data);
      HandledUncounted(f, Items(m, req.data), 0, req.kind, numSectors, io);
    }
  }

  /** The used length of any request fits in a `u32`: 1 for a write, the length and 1 for a read. */
  lemma UsedLengthFits(
    dev: Config, f: seq<u8>, m: Mem, req: Request, io: Io, r: Result<nat, ExecError>, moved: nat, f': seq<u8>, m': Mem)
    requires FileFits(f, dev.numSectors) && Served(dev, f, m, req, io, r, moved, f', m')
    ensures Reported(r) + 1 < TWO32 && m'.data.Keys == m.data.Keys
    ensures req.kind.Out? ==> Reported(r) == 0
    ensures req.kind.In? && r.Ok? ==> r.value == Total(req.data)
  {
    RefusalUncounted(dev, req, io);
    if Refusal(dev, req, io).None? {
      ExecutedInSectors(f, m, req, io, dev.numSectors, dev.id, r, moved, f', m');
      ReportedIsMoved(f, m, req, io, dev.numSectors, dev.id, r, moved, f', m');
      TotalIsLength(req.data);
    }
  }

  /** A parsed read request is never too long for the used ring. */
  lemma ParsedReadFits(dev: Config, m: Mem, c: Walk, io: Io)
    requires ParseError(m, Descriptors(m, c)).None? && Parsed(m, Descriptors(m, c)).kind.In?
    ensures var req := Parsed(m, Descriptors(m, c));
            Refusal(dev, req, io) == Some(InvalidDataLength) ==> Total(req.data) % SECTOR_SIZE != 0
  {
    ParsedLengthFits(m, c);
  }

  function ErrorOf(r: Result<nat, ExecError>): Option<ExecError> { if r.Ok? then None else Some(r.error) }

  // ---- One buffer at a time --------------------------------------------------------------------------

  /** The first `moved` bytes of `src` have been stored at the addresses of a stream. */
  ghost predicate Filled(d0: map<int, u8>, addrs: seq<int>, src: seq<u8>, moved: nat, d: map<int, u8>) {
    moved <= |addrs| == |src| && d == Scatter(d0, addrs[..moved], src[..moved])
  }

  /** The first `i` buffers are full: `moved` bytes. */
  ghost predicate Reading(
    m0: Mem, data: seq<Slice>, addrs: seq<int>, src: seq<u8>, fault: Option<Fault>, i: nat, moved: nat, m: Mem)
  {
    && Cursor(data, addrs, i, moved) && AllAccessible(m0, data[..i]) && !Interrupted(fault, i)
    && m.breaks == m0.breaks && Filled(m0.data, addrs, src, moved, m.data)
  }

  lemma ReadStarts(m: Mem, data: seq<Slice>, addrs: seq<int>, src: seq<u8>, fault: Option<Fault>)
    requires addrs == Addrs(data) && |src| == |addrs|
    ensures Reading(m, data, addrs, src, fault, 0, 0, m)
  {
    CursorStart(data, addrs);
    assert Scatter(m.data, addrs[..0], src[..0]) == m.data;
  }

  lemma ReadGoesOn(
    m0: Mem, data: seq<Slice>, addrs: seq<int>, src: seq<u8>, fault: Option<Fault>, i: nat, at: nat, moved: nat, m: Mem)
    requires Cursor(data, addrs, i, at) && i < |data| && moved == at + data[i].len
    requires AllAccessible(m0, data[..i]) && !Interrupted(fault, i)
    requires Accessible(m0, data[i].addr, data[i].len) && CutAt(fault, i).None?
    requires m.breaks == m0.breaks && Filled(m0.data, addrs, src, moved, m.data)
    ensures Reading(m0, data, addrs, src, fault, i + 1, moved, m)
  {
    CursorNext(data, addrs, i, at, moved);
    AccessibleStep(m0, data, i);
  }

  lemma ReadEnds(m0: Mem, data: seq<Slice>, addrs: seq<int>, src: seq<u8>, fault: Option<Fault>, moved: nat, m: Mem)
    requires Reading(m0, data, addrs, src, fault, |data|, moved, m)
    ensures ReadOutcome(m0, data, src, fault, Ok(moved), moved, m)
  {
    CursorEnd(data, addrs, moved);
    assert data[..|data|] == data;
  }

  lemma ReadStops(
    m0: Mem, data: seq<Slice>, addrs: seq<int>, src: seq<u8>, fault: Option<Fault>, i: nat, known: nat,
    moved: nat, m: Mem)
    requires addrs == Addrs(data) && i < |data|
    requires !(Accessible(m0, data[i].addr, data[i].len) && CutAt(fault, i).None?)
    requires m.breaks == m0.breaks && Filled(m0.data, addrs, src, moved, m.data)
    requires known <= moved && ((fault.Some? ==> fault.value.counted) ==> known == moved)
    ensures ReadOutcome(m0, data, src, fault, Err(ReadFailed(known)), moved, m)
  {
  }

  lemma RangeOutcome(
    f: seq<u8>, off: nat, src: seq<u8>, m0: Mem, data: seq<Slice>, fault: Option<Fault>, r: Result<nat, ExecError>,
    moved: nat, m: Mem)
    requires off + |Addrs(data)| <= |f| && src == f[off..off + |Addrs(data)|]
    requires ReadOutcome(m0, data, src, fault, r, moved, m)
    ensures RangeReadOutcome(f, off, m0, data, fault, r, moved, m)
  {
  }

  lemma WrittenByte(m: Mem, a: int, bs: seq<u8>)
    requires |bs| == 1
    ensures Accessible(m, a, 1) <==> a in m.data
    ensures Written(m, a, bs) == if a in m.data then m.(data := Put(m.data, a, bs)) else m
  {
    if a in m.data {
      WrittenInFull(m, a, bs);
    } else {
      assert Put(m.data, a, bs[..0]) == m.data;
    }
  }

  lemma SameKeysSameAccess(m: Mem, m': Mem, a: int, n: int)
    requires m'.data.Keys == m.data.Keys
    ensures Accessible(m', a, n) == Accessible(m, a, n)
  {
  }

  lemma FrontOfSlice(src: seq<u8>, at: nat, len: nat, n: nat)
    requires at + len <= |src| && n <= len
    ensures src[at..at + len][..n] == src[at..at + n]
  {
  }

  /** One more buffer, `s` at position `moved` of the stream, takes `n` bytes. */
  lemma FillStep(
    d0: map<int, u8>, addrs: seq<int>, src: seq<u8>, s: Slice, moved: nat, n: nat, t: nat, d1: map<int, u8>,
    d2: map<int, u8>)
    requires n <= s.len && t == moved + n && moved + s.len <= |src|
    requires t <= |addrs| && addrs[moved..t] == Range(s.addr, n)
    requires Filled(d0, addrs, src, moved, d1)
    requires d2 == Put(d1, s.addr, src[moved..moved + s.len][..n])
    ensures Filled(d0, addrs, src, t, d2)
  {
    FrontOfSlice(src, moved, s.len, n);
    ScatterMore(d0, addrs, src, moved, s.addr, n, t);
  }

  /** One accepted or refused segment. */
  function Handled(f: seq<u8>, s: Segment, kind: RequestType, numSectors: nat, io: Io, k: nat)
    : (r: (seq<u8>, Option<ExecError>))
    requires FileFits(f, numSectors)
  {
    if SegmentError(s, kind, numSectors).Some? then (f, SegmentError(s, kind, numSectors))
    else Effect(f, s, kind, io, k)
  }

  /** The first `moved` bytes of a stream have been written to the file `f0` at `off`. */
  ghost predicate Drained(f0: seq<u8>, off: nat, d: map<int, u8>, addrs: seq<int>, moved: nat, f: seq<u8>) {
    && off + |addrs| <= |f0| && moved <= |addrs| && AllMapped(d, addrs[..moved])
    && f == FileWrite(f0, off, Gather(d, addrs[..moved]))
  }

  lemma AccessibleStep(m: Mem, data: seq<Slice>, i: nat)
    requires i < |data| && AllAccessible(m, data[..i]) && Accessible(m, data[i].addr, data[i].len)
    ensures AllAccessible(m, data[..i + 1])
  {
  }

  /** How far a fault lets the `i`-th buffer go. */
  function CutAt(fault: Option<Fault>, i: nat): Option<nat> {
    if fault.Some? && fault.value.at == i then Some(fault.value.moved) else None
  }

  lemma DrainStep(
    f: seq<u8>, off: nat, d: map<int, u8>, addrs: seq<int>, s: Slice, moved: nat, n: nat, t: nat, f1: seq<u8>,
    f2: seq<u8>)
    requires Mapped(d, s.addr, n) && t == moved + n <= |addrs| && addrs[moved..t] == Range(s.addr, n)
    requires Drained(f, off, d, addrs, moved, f1)
    requires off + moved + n <= |f1| && f2 == FileWrite(f1, off + moved, BytesAt(d, s.addr, n))
    ensures Drained(f, off, d, addrs, t, f2)
  {
    GatherMore(d, addrs, moved, s.addr, n, t);
    FileWriteMore(f, off, Gather(d, addrs[..moved]), BytesAt(d, s.addr, n));
  }

  lemma FileWriteMore(f: seq<u8>, off: nat, a: seq<u8>, b: seq<u8>)
    requires off + |a| + |b| <= |f|
    ensures FileWrite(FileWrite(f, off, a), off + |a|, b) == FileWrite(f, off, a + b)
  {
  }
}
