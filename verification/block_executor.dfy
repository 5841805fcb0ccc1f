/** Executing block requests against a backing file. */
module BlockExecutor {
  import opened Words
  import opened GuestMemory
  import opened ByteStream
  import opened BlockRequest
  import opened BlockEffects
  import BlockAnswers

  class StdIoBackend {
    var file: seq<u8>
    var pos: nat
    const numSectors: nat
    const features: set<nat>
    var deviceId: Option<seq<u8>>

    /** The sectors that the guest sees are in the file; a device id has 20 bytes. */
    predicate Valid()
      reads this
    {
      FileFits(file, numSectors) && (deviceId.Some? ==> |deviceId.value| == ID_BYTES)
    }

    constructor (file: seq<u8>, features: set<nat>)
      requires |file| < TWO64
      ensures Valid() && this.file == file && this.features == features && numSectors == |file| / SECTOR_SIZE
      ensures deviceId.None?
    {
      this.file, pos, this.features, deviceId := file, |file|, features, None;
      numSectors := |file| / SECTOR_SIZE;
    }

    /** `new`: the size of the file is found by a seek, which may fail. */
    static method Create(file: seq<u8>, features: set<nat>, seekOk: bool) returns (r: Result<StdIoBackend, ExecError>)
      requires |file| < TWO64
      ensures r.Ok? <==> seekOk
      ensures r.Err? ==> r.error == SeekFailed
      ensures r.Ok? ==> fresh(r.value) && r.value.Valid() && r.value.file == file && r.value.features == features
      ensures r.Ok? ==> SECTOR_SIZE * r.value.numSectors <= |file| < SECTOR_SIZE * (r.value.numSectors + 1)
    {
      if !seekOk {
        return Err(SeekFailed);
      }
      var b := new StdIoBackend(file, features);
      r := Ok(b);
    }

    method WithDeviceId(id: seq<u8>)
      requires Valid() && |id| == ID_BYTES
      modifies this`deviceId
      ensures Valid() && deviceId == Some(id)
    {
      deviceId := Some(id);
    }

    method CheckAccess(count: nat, sector: u64) returns (ok: bool)
      ensures ok == AccessOk(count, sector, numSectors)
    {
      if sector + count >= TWO64 {
        return false;
      }
      return sector + count <= numSectors;
    }

    function Setup(): Config
      reads this
    {
      Config(features, numSectors, deviceId)
    }

    /** `write_all_volatile_to`: one buffer to the file, at its cursor. */
    method DrainBuffer(ram: GuestRam, s: Slice, cut: Option<nat>) returns (ok: bool, n: nat)
      requires pos + s.len <= |file|
      modifies this`file, this`pos
      ensures ok <==> Accessible(ram.m, s.addr, s.len) && cut.None?
      ensures n <= s.len && (ok ==> n == s.len) && Mapped(ram.m.data, s.addr, n)
      ensures pos == old(pos) + n && file == FileWrite(old(file), old(pos), BytesAt(ram.m.data, s.addr, n))
    {
      n := MappedPrefix(ram.m.data, s.addr, s.len);
      if cut.Some? {
        n := Min(n, cut.value);
      }
      file := FileWrite(file, pos, BytesAt(ram.m.data, s.addr, n));
      pos := pos + n;
      ok := Accessible(ram.m, s.addr, s.len) && cut.None?;
    }

    /** One turn of the loop of a write request, after `moved` bytes. */
    method DrainNext(ram: GuestRam, data: seq<Slice>, i: nat, cut: Option<nat>, ghost addrs: seq<int>,
                     ghost f0: seq<u8>, ghost off: nat, ghost moved: nat) returns (ok: bool, ghost moved': nat)
      requires Cursor(data, addrs, i, moved) && i < |data| && pos == off + moved
      requires Drained(f0, off, ram.m.data, addrs, moved, file)
      modifies this`file, this`pos
      ensures ok <==> Accessible(ram.m, data[i].addr, data[i].len) && cut.None?
      ensures pos == off + moved' && (ok ==> Cursor(data, addrs, i + 1, moved'))
      ensures Drained(f0, off, ram.m.data, addrs, moved', file)
    {
      CursorNext(data, addrs, i, moved, moved + data[i].len);
      ghost var before, d := file, ram.m.data;
      var n;
      ok, n := DrainBuffer(ram, data[i], cut);
      moved' := moved + n;
      CursorSlice(data, addrs, i, moved, n, moved');
      DrainStep(f0, off, d, addrs, data[i], moved, n, moved', before, file);
    }

    /** The loop of a write request: `moved` bytes reach the file, all of them unless it fails. */
    method DrainBuffers(ram: GuestRam, data: seq<Slice>, fault: Option<Fault>) returns (ok: bool, ghost moved: nat)
      requires pos + |Addrs(data)| <= |file|
      modifies this`file, this`pos
      ensures ok <==> AllAccessible(ram.m, data) && !Interrupted(fault, |data|)
      ensures ok ==> moved == |Addrs(data)|
      ensures Drained(old(file), old(pos), ram.m.data, Addrs(data), moved, file)
    {
      ghost var f0, off, addrs := file, pos, Addrs(data);
      moved := 0;
      CursorStart(data, addrs);
      for i := 0 to |data|
        invariant Cursor(data, addrs, i, moved) && pos == off + moved
        invariant AllAccessible(ram.m, data[..i]) && !Interrupted(fault, i)
        invariant Drained(f0, off, ram.m.data, addrs, moved, file)
      {
        ok, moved := DrainNext(ram, data, i, CutAt(fault, i), addrs, f0, off, moved);
        if !ok {
          return;
        }
        AccessibleStep(ram.m, data, i);
      }
      CursorEnd(data, addrs, moved);
      assert data[..|data|] == data;
      ok := true;
    }

    /** `read_exact_volatile_from`: the bytes `src` to one buffer. */
    method FillBuffer(ram: GuestRam, s: Slice, src: seq<u8>, cut: Option<nat>) returns (ok: bool, n: nat)
      requires |src| == s.len
      modifies ram
      ensures ok <==> Accessible(old(ram.m), s.addr, s.len) && cut.None?
      ensures n <= s.len && (ok ==> n == s.len)
      ensures ram.m == old(ram.m).(data := Put(old(ram.m.data), s.addr, src[..n]))
    {
      ok := Accessible(ram.m, s.addr, s.len) && cut.None?;
      n := MappedPrefix(ram.m.data, s.addr, s.len);
      if cut.Some? {
        n := Min(n, cut.value);
      }
      ram.m := ram.m.(data := Put(ram.m.data, s.addr, src[..n]));
    }

    /** One turn of the loop of a read and of a device-id request, after `at` bytes. */
    method FillNext(ram: GuestRam, data: seq<Slice>, src: seq<u8>, i: nat, cut: Option<nat>, ghost addrs: seq<int>,
                    ghost m0: Mem, at: nat)
      returns (ok: bool, t: nat)
      requires Cursor(data, addrs, i, at) && i < |data|
      requires ram.m.breaks == m0.breaks && Filled(m0.data, addrs, src, at, ram.m.data)
      modifies ram
      ensures ok <==> Accessible(m0, data[i].addr, data[i].len) && cut.None?
      ensures at <= t && (ok ==> t == at + data[i].len)
      ensures ram.m.breaks == m0.breaks && Filled(m0.data, addrs, src, t, ram.m.data)
    {
      CursorNext(data, addrs, i, at, at + data[i].len);
      SameKeysSameAccess(m0, ram.m, data[i].addr, data[i].len);
      ghost var before := ram.m.data;
      var n;
      ok, n := FillBuffer(ram, data[i], src[at..at + data[i].len], cut);
      t := at + n;
      CursorSlice(data, addrs, i, at, n, t);
      FillStep(m0.data, addrs, src, data[i], at, n, t, before, ram.m.data);
    }

    /** The loop of a read and of a device-id request. */
    method FillBuffers(ram: GuestRam, data: seq<Slice>, src: seq<u8>, fault: Option<Fault>)
      returns (r: Result<nat, ExecError>, moved: nat)
      requires |src| == |Addrs(data)|
      modifies ram
      ensures ReadOutcome(old(ram.m), data, src, fault, r, moved, ram.m)
    {
      ghost var m0, addrs := ram.m, Addrs(data);
      moved := 0;
      ReadStarts(m0, data, addrs, src, fault);
      for i := 0 to |data|
        invariant Reading(m0, data, addrs, src, fault, i, moved, ram.m)
      {
        var at := moved;
        var ok;
        ok, moved := FillNext(ram, data, src, i, CutAt(fault, i), addrs, m0, at);
        var known := if fault.Some? && fault.value.at == i && !fault.value.counted then at else moved;
        if !ok {
          ReadStops(m0, data, addrs, src, fault, i, known, moved, ram.m);
          return Err(ReadFailed(known)), moved;
        }
        ReadGoesOn(m0, data, addrs, src, fault, i, at, moved, ram.m);
      }
      ReadEnds(m0, data, addrs, src, fault, moved, ram.m);
      r := Ok(moved);
    }

    /** The loop of a read request, once the range is known to lie in the file. */
    method FillFromFile(ram: GuestRam, data: seq<Slice>, fault: Option<Fault>)
      returns (r: Result<nat, ExecError>, moved: nat)
      requires pos + |Addrs(data)| <= |file|
      modifies this`pos, ram
      ensures RangeReadOutcome(file, old(pos), old(ram.m), data, fault, r, moved, ram.m)
    {
      TotalIsLength(data);
      ghost var f, off, m0 := file, pos, ram.m;
      var src := file[pos..pos + Total(data)];
      r, moved := FillBuffers(ram, data, src, fault);
      RangeOutcome(f, off, src, m0, data, fault, r, moved, ram.m);
      pos := pos + moved;
    }

    /** `handle_discard_write_zeroes` for the `k`-th segment. */
    method HandleDiscardWriteZeroes(s: Segment, kind: RequestType, io: Io, k: nat) returns (e: Option<ExecError>)
      requires Valid() && (kind.Discard? || kind.WriteZeroes?)
      modifies this`file
      ensures Valid()
      ensures (file, e) == Handled(old(file), s, kind, numSectors, io, k)
    {
      if (if kind.WriteZeroes? then s.flags / 2 != 0 else s.flags != 0) {
        return Some(InvalidFlags);
      }
      var offset, length := Shifted(s.sector), s.count * SECTOR_SIZE;
      var ok := CheckAccess(s.count, s.sector);
      if !ok {
        return Some(InvalidAccess);
      }
      AccessIsInFile(s.count, s.sector, numSectors, |file|);
      if kind.Discard? {
        if io.punchOk(k) {
          file := FileWrite(file, offset, Zeroes(length));
        }
      } else if s.flags % 2 == 1 && io.punchOk(k) {
        file := FileWrite(file, offset, Zeroes(length));
      } else {
        var cut := io.zeroesCut(k);
        file := FileWrite(file, offset, Zeroes(if cut.Some? then Min(cut.value, length) else length));
        if cut.Some? {
          return Some(DiscardWriteZeroesFailed);
        }
      }
      return None;
    }

    /** The inner loop of a discard or write-zeroes request: the segments of one data descriptor, the
        first of which has number `k`; `later` are the segments of the descriptors that follow. */
    method ZeroBuffer(ram: GuestRam, d: Slice, kind: RequestType, io: Io, k: nat, ghost later: seq<Item>)
      returns (e: Option<ExecError>, k': nat)
      requires Valid() && (kind.Discard? || kind.WriteZeroes?)
      requires d.len % SEGMENT_LEN == 0 && d.addr + d.len < TWO64
      modifies this`file
      ensures Valid()
      ensures Handle(old(file), ItemsOf(ram.m, d) + later, k, kind, numSectors, io)
           == if e.Some? then (file, e) else Handle(file, later, k', kind, numSectors, io)
    {
      ghost var segs := ItemsOf(ram.m, d);
      ghost var all := Handle(file, segs + later, k, kind, numSectors, io);
      var available, addr := d.len, d.addr;
      k' := k;
      ghost var j := 0;
      assert segs[0..] == segs;
      while available >= SEGMENT_LEN
        invariant Valid() && 0 <= j <= |segs|
        invariant available == SEGMENT_LEN * (|segs| - j) && addr == d.addr + SEGMENT_LEN * j
        invariant all == Handle(file, segs[j..] + later, k', kind, numSectors, io)
      {
        assert (segs[j..] + later)[0] == segs[j] == ItemAt(ram.m, addr);
        assert (segs[j..] + later)[1..] == segs[j + 1..] + later;
        if !Accessible(ram.m, addr, 16) {
          return Some(BadMemory), k';
        }
        e := HandleDiscardWriteZeroes(SegmentAt(ram.m, addr), kind, io, k');
        if e.Some? {
          return;
        }
        addr, available, k', j := addr + SEGMENT_LEN, available - SEGMENT_LEN, k' + 1, j + 1;
      }
      assert segs[j..] + later == later;
      e := None;
    }

    /** The outer loop of a discard or write-zeroes request. */
    method ZeroSegments(ram: GuestRam, data: seq<Slice>, kind: RequestType, io: Io) returns (e: Option<ExecError>)
      requires Valid() && (kind.Discard? || kind.WriteZeroes?)
      modifies this`file
      ensures Valid()
      ensures (file, e) == Handle(old(file), Items(ram.m, data), 0, kind, numSectors, io)
    {
      ghost var all := Handle(file, Items(ram.m, data), 0, kind, numSectors, io);
      var k := 0;
      assert data[0..] == data;
      for i := 0 to |data|
        invariant Valid()
        invariant all == Handle(file, Items(ram.m, data[i..]), k, kind, numSectors, io)
      {
        assert data[i..][1..] == data[i + 1..];
        if data[i].len % SEGMENT_LEN != 0 {
          return Some(InvalidDataLength);
        }
        if data[i].addr + data[i].len >= TWO64 {
          return Some(AddressOverflow);
        }
        e, k := ZeroBuffer(ram, data[i], kind, io, k, Items(ram.m, data[i + 1..]));
        if e.Some? {
          return;
        }
      }
      assert data[|data|..] == [];
      e := None;
    }

    method ExecuteIn(ram: GuestRam, req: Request, io: Io) returns (r: Result<nat, ExecError>, ghost moved: nat)
      requires Valid() && pos == Shifted(req.sector) && req.kind.In? && Total(req.data) % SECTOR_SIZE == 0
      requires io.seekOk && RequestError(features, In).None?
      modifies this`pos, ram
      ensures Served(Setup(), file, old(ram.m), req, io, r, moved, file, ram.m)
    {
      var total := Total(req.data);
      moved := 0;
      var ok := CheckAccess(total / SECTOR_SIZE, req.sector);
      if !ok {
        return Err(InvalidAccess), 0;
      }
      if total >= TWO32 {
        return Err(InvalidDataLength), 0;
      }
      TransferIsInFile(total, req.sector, numSectors, |file|);
      TotalIsLength(req.data);
      r, moved := FillFromFile(ram, req.data, io.fault);
    }

    method ExecuteOut(ram: GuestRam, req: Request, io: Io) returns (r: Result<nat, ExecError>, ghost moved: nat)
      requires Valid() && pos == Shifted(req.sector) && req.kind.Out? && Total(req.data) % SECTOR_SIZE == 0
      requires io.seekOk && RequestError(features, Out).None?
      modifies this`pos, this`file
      ensures Valid()
      ensures Served(Setup(), old(file), ram.m, req, io, r, moved, file, ram.m)
    {
      var total := Total(req.data);
      moved := 0;
      var ok := CheckAccess(total / SECTOR_SIZE, req.sector);
      if !ok {
        return Err(InvalidAccess), 0;
      }
      TransferIsInFile(total, req.sector, numSectors, |file|);
      TotalIsLength(req.data);
      ok, moved := DrainBuffers(ram, req.data, io.fault);
      r := if ok then Ok(0) else Err(WriteFailed);
    }

    method ExecuteGetDeviceId(ram: GuestRam, req: Request, io: Io)
      returns (r: Result<nat, ExecError>, ghost moved: nat)
      requires Valid() && req.kind.GetDeviceId? && io.seekOk && RequestError(features, GetDeviceId).None?
      modifies ram
      ensures Served(Setup(), file, old(ram.m), req, io, r, moved, file, ram.m)
    {
      moved := 0;
      if deviceId.None? {
        return Err(UnsupportedRequest(8)), 0;
      }
      if Total(req.data) != ID_BYTES {
        return Err(InvalidDataLength), 0;
      }
      TotalIsLength(req.data);
      r, moved := FillBuffers(ram, req.data, deviceId.value, io.fault);
    }

    /** `execute`. */
    method Execute(ram: GuestRam, req: Request, io: Io) returns (r: Result<nat, ExecError>, ghost moved: nat)
      requires Valid()
      modifies this`pos, this`file, ram
      ensures Valid()
      ensures Served(Setup(), old(file), old(ram.m), req, io, r, moved, file, ram.m)
    {
      moved := 0;
      var offset := Shifted(req.sector);
      if !io.seekOk {
        return Err(SeekFailed), 0;
      }
      pos := offset;
      var refused := RequestError(features, req.kind);
      if refused.Some? {
        return Err(refused.value), 0;
      }
      if (req.kind.In? || req.kind.Out?) && Total(req.data) % SECTOR_SIZE != 0 {
        return Err(InvalidDataLength), 0;
      }
      match req.kind
      case In => r, moved := ExecuteIn(ram, req, io);
      case Out => r, moved := ExecuteOut(ram, req, io);
      case Flush => r := if io.syncOk then Ok(0) else Err(FlushFailed);
      case GetDeviceId => r, moved := ExecuteGetDeviceId(ram, req, io);
      case Unsupported(t) => r := Err(UnsupportedRequest(t));
      case _ =>
        var e := ZeroSegments(ram, req.data, req.kind, io);
        r := if e.Some? then Err(e.value) else Ok(0);
    }

    /** `process_request`: the status byte says how `x`, the execution, ended; the used length is one
        more than the bytes that reached the guest, and never too large for it. */
    method ProcessRequest(ram: GuestRam, req: Request, io: Io)
      returns (r: Result<u32, ProcessError>, ghost x: Result<nat, ExecError>, ghost moved: nat, ghost m1: Mem)
      requires Valid()
      modifies this`pos, this`file, ram
      ensures Valid()
      ensures Served(Setup(), old(file), old(ram.m), req, io, x, moved, file, m1)
      ensures r == if req.statusAddr in old(ram.m).data then Ok(Reported(x) + 1) else Err(BadStatusAddress)
      ensures r.Err? ==> ram.m == m1
      ensures r.Ok? ==> ram.m == m1.(data := Put(m1.data, req.statusAddr, [if x.Ok? then 0 else StatusOf(x.error)]))
      ensures r.Ok? ==> ram.m.data[req.statusAddr] == BlockAnswers.Answer(Setup(), old(ram.m), req, io)
      ensures r.Ok? && req.kind.Out? ==> r.value == 1
      ensures r.Ok? && req.kind.In? && x.Ok? ==> r.value == Total(req.data) + 1
    {
      ghost var f, m0 := file, ram.m;
      var result;
      result, moved := Execute(ram, req, io);
      x, m1 := result, ram.m;
      UsedLengthFits(Setup(), f, m0, req, io, x, moved, file, m1);
      BlockAnswers.StatusTells(Setup(), f, m0, req, io, x, moved, file, m1);
      var status := [if result.Ok? then 0 else StatusOf(result.error)];
      WrittenByte(ram.m, req.statusAddr, status);
      var ok := ram.WriteSlice(req.statusAddr, status);
      if !ok {
        return Err(BadStatusAddress), x, moved, m1;
      }
      r := UsedLength(result);
    }
  }
}
