/** Runs of block requests: what a file keeps. */
module BlockRuns {
  import opened Words
  import opened GuestMemory
  import opened ByteStream
  import opened BlockRequest
  import opened BlockEffects

  /** A request that was served, with the memory it found and what it left behind. Between two
      requests the driver may change memory as it likes. */
  datatype Event = Event(
    req: Request, io: Io, m: Mem, r: Result<nat, ExecError>, moved: nat, file: seq<u8>, m': Mem)

  ghost predicate Happened(dev: Config, f: seq<u8>, e: Event) {
    FileFits(f, dev.numSectors) && Served(dev, f, e.m, e.req, e.io, e.r, e.moved, e.file, e.m')
  }

  ghost predicate IsRun(dev: Config, f: seq<u8>, es: seq<Event>)
    decreases |es|
  {
    es == [] || (Happened(dev, f, es[0]) && IsRun(dev, es[0].file, es[1..]))
  }

  function FileAfter(f: seq<u8>, es: seq<Event>): seq<u8> { if es == [] then f else es[|es| - 1].file }

  /** Byte `i` of the file is in the range that a request may write or clear. */
  ghost predicate Touches(e: Event, i: nat) {
    match e.req.kind
    case Out => SECTOR_SIZE * e.req.sector <= i < SECTOR_SIZE * e.req.sector + Total(e.req.data)
    case Discard => InAny(Items(e.m, e.req.data), i)
    case WriteZeroes => InAny(Items(e.m, e.req.data), i)
    case _ => false
  }

  ghost predicate InAny(items: seq<Item>, i: nat) {
    exists j :: 0 <= j < |items| && InItem(items[j], i)
  }

  lemma HandledOutside(f: seq<u8>, items: seq<Item>, kind: RequestType, numSectors: nat, io: Io, i: nat)
    requires FileFits(f, numSectors) && i < |f| && !InAny(items, i)
    ensures Handle(f, items, 0, kind, numSectors, io).0[i] == f[i]
  {
    HandledBytes(f, items, 0, kind, numSectors, io, i);
    var n := Completed(f, items, 0, kind, numSectors, io);
    assert forall j :: 0 <= j < n ==> items[..n][j] == items[j];
  }

  /** A request changes no byte that it does not touch, whether it succeeds or fails. */
  lemma EventKeepsByte(dev: Config, f: seq<u8>, e: Event, i: nat)
    requires Happened(dev, f, e) && i < |f| && !Touches(e, i)
    ensures |e.file| == |f| && e.file[i] == f[i]
  {
    if Refusal(dev, e.req, e.io).None? {
      ExecutedInSectors(f, e.m, e.req, e.io, dev.numSectors, dev.id, e.r, e.moved, e.file, e.m');
      TotalIsLength(e.req.data);
      if e.req.kind.Discard? || e.req.kind.WriteZeroes? {
        HandledOutside(f, Items(e.m, e.req.data), e.req.kind, dev.numSectors, e.io, i);
      }
    }
  }

  lemma EventKeepsLength(dev: Config, f: seq<u8>, e: Event)
    requires Happened(dev, f, e)
    ensures |e.file| == |f| && FileFits(e.file, dev.numSectors)
  {
    if Refusal(dev, e.req, e.io).None? {
      ExecutedInSectors(f, e.m, e.req, e.io, dev.numSectors, dev.id, e.r, e.moved, e.file, e.m');
    }
  }

  lemma {:induction false} RunKeepsLength(dev: Config, f: seq<u8>, es: seq<Event>)
    requires FileFits(f, dev.numSectors) && IsRun(dev, f, es)
    ensures |FileAfter(f, es)| == |f|
    decreases |es|
  {
    if es != [] {
      EventKeepsLength(dev, f, es[0]);
      RunKeepsLength(dev, es[0].file, es[1..]);
    }
  }

  /** Over a run, a byte that no request touches keeps its value. */
  lemma {:induction false} RunKeepsByte(dev: Config, f: seq<u8>, es: seq<Event>, i: nat)
    requires FileFits(f, dev.numSectors) && IsRun(dev, f, es) && i < |f|
    requires forall e :: e in es ==> !Touches(e, i)
    ensures |FileAfter(f, es)| == |f| && FileAfter(f, es)[i] == f[i]
    decreases |es|
  {
    if es != [] {
      EventKeepsLength(dev, f, es[0]);
      EventKeepsByte(dev, f, es[0], i);
      RunKeepsByte(dev, es[0].file, es[1..], i);
    }
  }

  /** A read-only device: no run of requests changes the file. */
  lemma {:induction false} ReadOnlyRun(dev: Config, f: seq<u8>, es: seq<Event>)
    requires F_RO in dev.features && FileFits(f, dev.numSectors) && IsRun(dev, f, es)
    ensures FileAfter(f, es) == f
    decreases |es|
  {
    if es != [] {
      assert es[0].file == f;
      ReadOnlyRun(dev, f, es[1..]);
    }
  }

  /** No run changes a byte behind the last sector of the device. */
  lemma {:induction false} RunKeepsRemainder(dev: Config, f: seq<u8>, es: seq<Event>, i: nat)
    requires FileFits(f, dev.numSectors) && IsRun(dev, f, es) && SECTOR_SIZE * dev.numSectors <= i < |f|
    ensures |FileAfter(f, es)| == |f| && FileAfter(f, es)[i] == f[i]
    decreases |es|
  {
    if es != [] {
      var e := es[0];
      EventKeepsLength(dev, f, e);
      if Refusal(dev, e.req, e.io).None? {
        ExecutedInSectors(f, e.m, e.req, e.io, dev.numSectors, dev.id, e.r, e.moved, e.file, e.m');
      }
      RunKeepsRemainder(dev, e.file, es[1..], i);
    }
  }

  /** A range of the file that no request of a run touches stays as it is. */
  lemma RunKeepsRange(dev: Config, f: seq<u8>, es: seq<Event>, off: nat, n: nat)
    requires FileFits(f, dev.numSectors) && IsRun(dev, f, es) && off + n <= |f|
    requires forall e, i :: e in es && off <= i < off + n ==> !Touches(e, i)
    ensures |FileAfter(f, es)| == |f| && FileAfter(f, es)[off..off + n] == f[off..off + n]
  {
    var f' := FileAfter(f, es);
    RunKeepsLength(dev, f, es);
    forall i | off <= i < off + n
      ensures f'[i] == f[i]
    {
      RunKeepsByte(dev, f, es, i);
    }
    SameRange(f, f', off, n);
  }

  lemma SameRange(f: seq<u8>, f': seq<u8>, off: nat, n: nat)
    requires |f'| == |f| && off + n <= |f| && forall i :: off <= i < off + n ==> f'[i] == f[i]
    ensures f'[off..off + n] == f[off..off + n]
  {
  }

  /** A successful write leaves the bytes of its buffers in the file, at its sector. */
  lemma WritesOut(dev: Config, f: seq<u8>, w: Event, addrs: seq<int>, off: nat, n: nat)
    requires Happened(dev, f, w) && w.req.kind.Out? && w.r.Ok?
    requires addrs == Addrs(w.req.data) && off == Start(w.req) && n == Total(w.req.data)
    ensures |addrs| == n && AllMapped(w.m.data, addrs) && FileFits(w.file, dev.numSectors) && off + n <= |w.file|
    ensures w.file[off..off + n] == Gather(w.m.data, addrs)
  {
    TotalIsLength(w.req.data);
    EventKeepsLength(dev, f, w);
    OutSucceeds(f, w.m, w.req, w.io, dev.numSectors, dev.id, w.r, w.moved, w.file, w.m', addrs);
  }

  /** A successful read leaves its range `src` of the file in its buffers. */
  lemma ReadsIn(dev: Config, f: seq<u8>, rd: Event, addrs: seq<int>, src: seq<u8>)
    requires Happened(dev, f, rd) && rd.req.kind.In? && rd.r.Ok?
    requires addrs == Addrs(rd.req.data) && Distinct(addrs)
    requires Start(rd.req) + |addrs| <= |f| && src == f[Start(rd.req)..Start(rd.req) + |addrs|]
    ensures AllMapped(rd.m'.data, addrs) && Gather(rd.m'.data, addrs) == src
  {
    InSucceeds(f, rd.m, rd.req, rd.io, dev.numSectors, dev.id, rd.r, rd.moved, rd.file, rd.m', addrs, src);
    GatherScattered(rd.m.data, addrs, src);
  }

  /** A write that succeeds, any run of requests that stays off its range, and a read of the range that
      succeeds: the reader's buffers hold what the writer's held, however both are cut into buffers. */
  lemma ReadsWhatWasWritten(dev: Config, f: seq<u8>, w: Event, es: seq<Event>, rd: Event)
    requires Happened(dev, f, w) && w.req.kind.Out? && w.r.Ok?
    requires IsRun(dev, w.file, es) && Happened(dev, FileAfter(w.file, es), rd) && rd.req.kind.In? && rd.r.Ok?
    requires rd.req.sector == w.req.sector && Total(rd.req.data) == Total(w.req.data)
    requires Distinct(Addrs(rd.req.data))
    requires forall e, i :: e in es && Start(w.req) <= i < Start(w.req) + Total(w.req.data) ==> !Touches(e, i)
    ensures AllMapped(w.m.data, Addrs(w.req.data)) && AllMapped(rd.m'.data, Addrs(rd.req.data))
    ensures Gather(rd.m'.data, Addrs(rd.req.data)) == Gather(w.m.data, Addrs(w.req.data))
  {
    var off, n, f' := Start(w.req), Total(w.req.data), FileAfter(w.file, es);
    WritesOut(dev, f, w, Addrs(w.req.data), off, n);
    RunKeepsRange(dev, w.file, es, off, n);
    TotalIsLength(rd.req.data);
    ReadsIn(dev, f', rd, Addrs(rd.req.data), f'[off..off + n]);
  }
}
