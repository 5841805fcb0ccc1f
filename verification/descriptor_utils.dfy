/** Readers and writers over the buffers of a descriptor chain. */
module DescriptorUtils {
  import opened Words
  import opened GuestMemory
  import opened ByteStream
  import opened Chain

  datatype Error = DescriptorChainOverflow | FindMemoryRegion | GuestMemoryError | SplitOutOfBounds(offset: nat)

  /** `s` with the elements from `at` on replaced by `t`. */
  function Spliced<T>(s: seq<T>, at: nat, t: seq<T>): (r: seq<T>)
    requires at + |t| <= |s|
    ensures |r| == |s|
  {
    s[..at] + t + s[at + |t|..]
  }

  /** The first `n` bytes of `data` have been copied over `before`. */
  ghost predicate Copied(before: seq<u8>, data: seq<u8>, n: nat, now: seq<u8>) {
    n <= |data| && n <= |before| && now == Spliced(before, 0, data[..n])
  }

  lemma CopiedMore(before: seq<u8>, data: seq<u8>, n: nat, c: nat, t: nat, now: seq<u8>, now': seq<u8>)
    requires Copied(before, data, n, now) && t == n + c <= |before| && t <= |data|
    requires now' == Spliced(now, n, data[n..t])
    ensures Copied(before, data, t, now')
  {
  }

  /** The two parts of a list of buffers that is cut `rem` bytes into the buffer `at`. */
  function FrontPart(bufs: seq<Slice>, at: nat, rem: nat): seq<Slice>
    requires at < |bufs| && rem < bufs[at].len
  {
    if rem > 0 then bufs[..at] + [Slice(bufs[at].addr, rem)] else bufs[..at]
  }

  function BackPart(bufs: seq<Slice>, at: nat, rem: nat): seq<Slice>
    requires at < |bufs| && rem < bufs[at].len
  {
    if rem > 0 then [Slice(bufs[at].addr + rem, bufs[at].len - rem)] + bufs[at + 1..] else bufs[at..]
  }

  lemma FrontAddrs(bufs: seq<Slice>, at: nat, rem: nat)
    requires at < |bufs| && rem < bufs[at].len
    ensures Addrs(FrontPart(bufs, at, rem)) == Addrs(bufs[..at]) + Range(bufs[at].addr, rem)
  {
    AddrsSplit(bufs[..at], [Slice(bufs[at].addr, rem)]);
    assert [Slice(bufs[at].addr, rem)][1..] == [];
  }

  lemma BackAddrs(bufs: seq<Slice>, at: nat, rem: nat)
    requires at < |bufs| && rem < bufs[at].len
    ensures Addrs(BackPart(bufs, at, rem)) == Range(bufs[at].addr + rem, bufs[at].len - rem) + Addrs(bufs[at + 1..])
  {
    assert BackPart(bufs, at, rem)[1..] == bufs[at + 1..];
  }

  lemma CutConcat(all: seq<int>, f: seq<int>, tail: seq<int>, r: seq<int>, b: seq<int>, r1: seq<int>, r2: seq<int>,
                  n: nat)
    requires all == f + tail && tail == r + b && r == r1 + r2 && n == |f| + |r1|
    ensures n <= |all| && all[..n] == f + r1 && all[n..] == r2 + b
  {
  }

  lemma AddrsCut(bufs: seq<Slice>, at: nat, rem: nat, n: nat)
    requires at < |bufs| && rem < bufs[at].len && n == |Addrs(bufs[..at])| + rem
    ensures n <= |Addrs(bufs)|
    ensures Addrs(bufs)[..n] == Addrs(bufs[..at]) + Range(bufs[at].addr, rem)
    ensures Addrs(bufs)[n..] == Range(bufs[at].addr + rem, bufs[at].len - rem) + Addrs(bufs[at + 1..])
  {
    var s := bufs[at];
    AddrsUpToAll(bufs, at);
    AddrsFrom(bufs, at);
    RangeSplit(s.addr, s.len, rem);
    CutConcat(Addrs(bufs), Addrs(bufs[..at]), Addrs(bufs[at..]), Range(s.addr, s.len), Addrs(bufs[at + 1..]),
              Range(s.addr, rem), Range(s.addr + rem, s.len - rem), n);
  }

  lemma SplitInside(bufs: seq<Slice>, at: nat, rem: nat, n: nat)
    requires at < |bufs| && rem < bufs[at].len && n == |Addrs(bufs[..at])| + rem
    ensures n <= |Addrs(bufs)|
    ensures Addrs(FrontPart(bufs, at, rem)) == Addrs(bufs)[..n]
    ensures Addrs(BackPart(bufs, at, rem)) == Addrs(bufs)[n..]
  {
    AddrsCut(bufs, at, rem, n);
    FrontAddrs(bufs, at, rem);
    BackAddrs(bufs, at, rem);
  }

  /** The shortest prefix of the buffers with `count` bytes, or all of them. */
  ghost predicate Prefix(bufs: seq<Slice>, count: nat, k: nat) {
    && k <= |bufs| && (|Addrs(bufs[..k])| >= count || k == |bufs|)
    && forall j :: 0 <= j < k ==> |Addrs(bufs[..j])| < count
  }

  /** What is documented of the buffers handed to the callback of `consume`, that they hold at most
      `count` bytes, holds exactly when a buffer ends at that byte or the stream is no longer. */
  lemma PrefixWithinCount(bufs: seq<Slice>, count: nat, k: nat)
    requires Prefix(bufs, count, k)
    ensures |Addrs(bufs[..k])| <= count <==>
              |Addrs(bufs)| <= count || exists j :: 0 <= j <= |bufs| && |Addrs(bufs[..j])| == count
  {
    assert bufs[..|bufs|] == bufs;
    forall j | k <= j <= |bufs|
      ensures |Addrs(bufs[..k])| <= |Addrs(bufs[..j])|
    {
      PrefixGrows(bufs, k, j);
    }
  }

  lemma PrefixGrows(bufs: seq<Slice>, k: nat, j: nat)
    requires k <= j <= |bufs|
    ensures |Addrs(bufs[..k])| <= |Addrs(bufs[..j])|
  {
    AddrsUpToAll(bufs[..j], k);
    assert bufs[..j][..k] == bufs[..k];
  }

  /** It does not hold of one buffer of two bytes when one byte is consumed. */
  lemma PrefixCanExceedCount(bufs: seq<Slice>, k: nat)
    requires bufs == [Slice(0, 2)] && Prefix(bufs, 1, k)
    ensures k == 1 && |Addrs(bufs[..k])| == 2
  {
    assert bufs[..0] == [] && bufs[..1] == bufs;
    AddrsOfOne(Slice(0, 2));
  }

  /** `DescriptorChainConsumer`: the buffers that are left, and how many bytes are gone. */
  class Consumer {
    var buffers: seq<Slice>
    var consumed: u64

    constructor (buffers: seq<Slice>)
      ensures this.buffers == buffers && consumed == 0
    {
      this.buffers, consumed := buffers, 0;
    }

    /** The bytes that are left, as addresses. */
    ghost function Left(): seq<int>
      reads this
    {
      Addrs(buffers)
    }

    /** What the construction from a chain establishes: counting cannot overflow a `usize`. */
    ghost predicate Valid()
      reads this
    {
      consumed + |Left()| < TWO64
    }

    method AvailableBytes() returns (n: nat)
      ensures n == |Left()|
    {
      TotalIsLength(buffers);
      n := Total(buffers);
    }

    /** The buffers `consume` hands to its callback: the shortest prefix with `count` bytes. */
    method SelectPrefix(count: nat) returns (k: nat)
      ensures Prefix(buffers, count, k)
    {
      var buflen := 0;
      k := 0;
      ghost var addrs, at: nat := Addrs(buffers), 0;
      CursorStart(buffers, addrs);
      while k < |buffers| && buflen < count
        invariant Cursor(buffers, addrs, k, at) && buflen == Min(count, at)
        invariant forall j :: 0 <= j < k ==> |Addrs(buffers[..j])| < count
      {
        CursorNext(buffers, addrs, k, at, at + buffers[k].len);
        var rem := count - buflen;
        at := at + buffers[k].len;
        buflen := buflen + if rem < buffers[k].len then rem else buffers[k].len;
        k := k + 1;
      }
    }

    /** Drops `n` bytes from the front, splitting the buffer they end in. */
    method DropFront(n: nat)
      requires n <= |Left()| && consumed + n < TWO64
      modifies this
      ensures Left() == old(Left())[n..] && consumed == old(consumed) + n
    {
      consumed := consumed + n;
      var rem: nat := n;
      while buffers != []
        invariant rem <= |Left()| && Left()[rem..] == old(Left())[n..]
        invariant buffers == [] ==> rem == 0
        invariant consumed == old(consumed) + n
        decreases |buffers|
      {
        var vs := buffers[0];
        buffers := buffers[1..];
        if rem < vs.len {
          RangeSplit(vs.addr, vs.len, rem);
          ghost var rest := buffers;
          buffers := [Slice(vs.addr + rem, vs.len - rem)] + buffers;
          assert buffers[1..] == rest;
          break;
        }
        rem := rem - vs.len;
      }
    }

    /** `split_at`: this consumer keeps the first `offset` bytes, the result gets the rest. */
    method SplitAt(offset: nat) returns (r: Result<Consumer, Error>)
      modifies this
      ensures r.Ok? <==> offset <= |old(Left())|
      ensures r.Ok? ==> fresh(r.value) && r.value.consumed == 0 && consumed == old(consumed)
      ensures r.Ok? ==> Left() == old(Left())[..offset] && r.value.Left() == old(Left())[offset..]
      ensures r.Err? ==> r.error == SplitOutOfBounds(offset) && buffers == old(buffers) && consumed == old(consumed)
      ensures old(Valid()) ==> Valid() && (r.Ok? ==> r.value.Valid())
    {
      var bufs := buffers;
      var rem: nat := offset;
      var at := 0;
      ghost var addrs, past: nat := Addrs(bufs), 0;
      CursorStart(bufs, addrs);
      while at < |bufs| && rem >= bufs[at].len
        invariant Cursor(bufs, addrs, at, past) && past + rem == offset
        invariant buffers == bufs && consumed == old(consumed)
      {
        CursorNext(bufs, addrs, at, past, past + bufs[at].len);
        past := past + bufs[at].len;
        rem := rem - bufs[at].len;
        at := at + 1;
      }
      if at < |bufs| {
        SplitInside(bufs, at, rem, offset);
        buffers := FrontPart(bufs, at, rem);
        var c := new Consumer(BackPart(bufs, at, rem));
        r := Ok(c);
      } else {
        CursorEnd(bufs, addrs, past);
        if rem == 0 {
          var c := new Consumer([]);
          r := Ok(c);
        } else {
          r := Err(SplitOutOfBounds(offset));
        }
      }
    }

    /** `Reader::read`: fills `buf` from the front of the stream, as far as both reach. Only a count
        that leaves `usize` is an error, and a stream made from a chain has none. */
    method Read(ram: GuestRam, buf: array<u8>) returns (r: Result<nat, Error>)
      requires AllMapped(ram.m.data, Left())
      modifies this, buf
      ensures AllMapped(ram.m.data, Left())
      ensures var n := Min(buf.Length, |old(Left())|);
              && buf[..] == Spliced(old(buf[..]), 0, Gather(ram.m.data, old(Left()))[..n])
              && (r.Ok? ==> r.value == n && Left() == old(Left())[n..] && consumed == old(consumed) + n)
              && (r.Err? <==> old(consumed) + n >= TWO64)
              && (r.Err? ==> r.error == DescriptorChainOverflow && buffers == old(buffers) && consumed == old(consumed))
      ensures old(Valid()) ==> r.Ok? && Valid()
    {
      var k := SelectPrefix(buf.Length);
      AddrsUpToAll(buffers, k);
      GatherSplit(ram.m.data, Addrs(buffers[..k]), Addrs(buffers[k..]));
      var n := FillFrom(ram, buffers[..k], buf);
      assert Gather(ram.m.data, Left())[..n] == Gather(ram.m.data, Addrs(buffers[..k]))[..n];
      if consumed + n >= TWO64 {
        return Err(DescriptorChainOverflow);
      }
      DropFront(n);
      r := Ok(n);
    }

    /** `Writer::write`: stores the front of `bs` at the front of the stream, as far as both reach. */
    method Write(ram: GuestRam, bs: seq<u8>) returns (r: Result<nat, Error>)
      modifies this, ram
      ensures var n := Min(|bs|, |old(Left())|);
              && ram.m == old(ram.m).(data := Scatter(old(ram.m.data), old(Left())[..n], bs[..n]))
              && (r.Ok? ==> r.value == n && Left() == old(Left())[n..] && consumed == old(consumed) + n)
              && (r.Err? <==> old(consumed) + n >= TWO64)
              && (r.Err? ==> r.error == DescriptorChainOverflow && buffers == old(buffers) && consumed == old(consumed))
      ensures old(Valid()) ==> r.Ok? && Valid()
    {
      var k := SelectPrefix(|bs|);
      AddrsUpToAll(buffers, k);
      var n := SpreadOver(ram, buffers[..k], bs);
      assert Addrs(buffers[..k])[..n] == Left()[..n];
      if consumed + n >= TWO64 {
        return Err(DescriptorChainOverflow);
      }
      DropFront(n);
      r := Ok(n);
    }
  }

  lemma StreamBytes(d: map<int, u8>, bufs: seq<Slice>, addrs: seq<int>, i: nat, at: nat, n: nat, c: nat, t: nat)
    requires AllMapped(d, addrs) && Cursor(bufs, addrs, i, at) && i < |bufs| && c <= bufs[i].len
    requires (c > 0 ==> n == at) && n <= |addrs| && t == n + c
    ensures t <= |addrs| && Mapped(d, bufs[i].addr, c)
    ensures BytesAt(d, bufs[i].addr, c) == Gather(d, addrs)[n..t]
  {
    if c > 0 {
      CursorSlice(bufs, addrs, i, at, c, t);
      SliceBytes(d, addrs, n, bufs[i].addr, c, t);
    }
  }

  /** One turn of the callback of `Reader::read`, at buffer `i`, which starts at `at`. */
  method FillFromSlice(ram: GuestRam, bufs: seq<Slice>, i: nat, buf: array<u8>, n: nat, ghost addrs: seq<int>,
                       ghost at: nat, ghost data: seq<u8>, ghost before: seq<u8>)
    returns (n': nat)
    requires AllMapped(ram.m.data, addrs) && data == Gather(ram.m.data, addrs)
    requires Cursor(bufs, addrs, i, at) && i < |bufs|
    requires |before| == buf.Length && n == Min(buf.Length, at) && Copied(before, data, n, buf[..])
    modifies buf
    ensures n' == Min(buf.Length, at + bufs[i].len) && Copied(before, data, n', buf[..])
  {
    ghost var d, now := ram.m.data, buf[..];
    var copyLen := Min(buf.Length - n, bufs[i].len);
    n' := n + copyLen;
    StreamBytes(d, bufs, addrs, i, at, n, copyLen, n');
    CopyIn(ram, bufs[i].addr, buf, n, copyLen);
    CopiedMore(before, data, n, copyLen, n', now, buf[..]);
  }

  /** The callback of `Reader::read`: copies buffer after buffer until `buf` is full. */
  method FillFrom(ram: GuestRam, bufs: seq<Slice>, buf: array<u8>) returns (n: nat)
    requires AllMapped(ram.m.data, Addrs(bufs))
    modifies buf
    ensures n == Min(buf.Length, |Addrs(bufs)|)
    ensures buf[..] == Spliced(old(buf[..]), 0, Gather(ram.m.data, Addrs(bufs))[..n])
  {
    ghost var before, addrs, at: nat := buf[..], Addrs(bufs), 0;
    ghost var data := Gather(ram.m.data, addrs);
    n := 0;
    CursorStart(bufs, addrs);
    for i := 0 to |bufs|
      invariant Cursor(bufs, addrs, i, at) && n == Min(buf.Length, at)
      invariant Copied(before, data, n, buf[..])
    {
      n := FillFromSlice(ram, bufs, i, buf, n, addrs, at, data, before);
      CursorNext(bufs, addrs, i, at, at + bufs[i].len);
      at := at + bufs[i].len;
    }
    CursorEnd(bufs, addrs, at);
  }

  /** The first `n` bytes of `bs` have been stored at the addresses of a stream. */
  ghost predicate Spread(m0: Mem, addrs: seq<int>, bs: seq<u8>, n: nat, m: Mem) {
    && n <= |addrs| && n <= |bs|
    && m == m0.(data := Scatter(m0.data, addrs[..n], bs[..n]))
  }

  lemma SpreadMore(m0: Mem, addrs: seq<int>, bs: seq<u8>, n: nat, a: int, c: nat, t: nat, m1: Mem, m2: Mem)
    requires Spread(m0, addrs, bs, n, m1) && t == n + c <= |addrs| && t <= |bs|
    requires c > 0 ==> addrs[n..t] == Range(a, c)
    requires m2 == m1.(data := Put(m1.data, a, bs[n..t]))
    ensures Spread(m0, addrs, bs, t, m2)
  {
    ScatterMore(m0.data, addrs, bs, n, a, c, t);
  }

  /** One turn of the callback of `Writer::write`, at buffer `i`, which starts at `at`. */
  method SpreadOverSlice(ram: GuestRam, bufs: seq<Slice>, i: nat, bs: seq<u8>, n: nat, ghost addrs: seq<int>,
                         ghost at: nat, ghost m0: Mem)
    returns (n': nat)
    requires Cursor(bufs, addrs, i, at) && i < |bufs|
    requires n == Min(|bs|, at) && Spread(m0, addrs, bs, n, ram.m)
    modifies ram
    ensures n' == Min(|bs|, at + bufs[i].len) && Spread(m0, addrs, bs, n', ram.m)
  {
    ghost var m := ram.m;
    var copyLen := Min(|bs| - n, bufs[i].len);
    n' := n + copyLen;
    if copyLen > 0 {
      CursorSlice(bufs, addrs, i, at, copyLen, n');
    }
    ram.m := ram.m.(data := Put(ram.m.data, bufs[i].addr, bs[n..n']));
    SpreadMore(m0, addrs, bs, n, bufs[i].addr, copyLen, n', m, ram.m);
  }

  /** The callback of `Writer::write`: copies to buffer after buffer until `bs` is used up. */
  method SpreadOver(ram: GuestRam, bufs: seq<Slice>, bs: seq<u8>) returns (n: nat)
    modifies ram
    ensures n == Min(|bs|, |Addrs(bufs)|)
    ensures ram.m == old(ram.m).(data := Scatter(old(ram.m.data), Addrs(bufs)[..n], bs[..n]))
  {
    ghost var m0, addrs, at: nat := ram.m, Addrs(bufs), 0;
    n := 0;
    CursorStart(bufs, addrs);
    NothingSpread(m0, addrs, bs);
    for i := 0 to |bufs|
      invariant Cursor(bufs, addrs, i, at) && n == Min(|bs|, at)
      invariant Spread(m0, addrs, bs, n, ram.m)
    {
      n := SpreadOverSlice(ram, bufs, i, bs, n, addrs, at, m0);
      CursorNext(bufs, addrs, i, at, at + bufs[i].len);
      at := at + bufs[i].len;
    }
    CursorEnd(bufs, addrs, at);
  }

  lemma NothingSpread(m: Mem, addrs: seq<int>, bs: seq<u8>)
    ensures Spread(m, addrs, bs, 0, m)
  {
    assert Scatter(m.data, addrs[..0], bs[..0]) == m.data;
  }

  /** `copy_nonoverlapping` into the caller's buffer. */
  method CopyIn(ram: GuestRam, a: int, buf: array<u8>, at: nat, n: nat)
    requires at + n <= buf.Length && Mapped(ram.m.data, a, n)
    modifies buf
    ensures buf[..] == Spliced(old(buf[..]), at, BytesAt(ram.m.data, a, n))
  {
    forall j | 0 <= j < n {
      buf[at + j] := ram.m.data[a + j];
    }
  }

  // ---- Opening a chain ----------------------------------------------------------------------------------

  function SliceOf(d: Descriptor): Slice { Slice(d.addr, d.len) }

  function SlicesOf(ds: seq<Descriptor>): (bufs: seq<Slice>)
    ensures |bufs| == |ds|
  {
    seq(|ds|, i requires 0 <= i < |ds| => SliceOf(ds[i]))
  }

  lemma {:induction false} SlicesTotal(ds: seq<Descriptor>)
    ensures Total(SlicesOf(ds)) == SumLen(ds)
    decreases |ds|
  {
    if ds != [] {
      SlicesTotal(ds[1..]);
      assert SlicesOf(ds)[1..] == SlicesOf(ds[1..]);
    }
  }

  predicate Reachable(m: Mem, ds: seq<Descriptor>) {
    forall i :: 0 <= i < |ds| ==> InOneRegion(m, ds[i].addr, ds[i].len)
  }

  lemma {:induction false} SlicesAreMapped(m: Mem, ds: seq<Descriptor>)
    requires Reachable(m, ds)
    ensures AllMapped(m.data, Addrs(SlicesOf(ds))) && |Addrs(SlicesOf(ds))| == SumLen(ds)
    decreases |ds|
  {
    if ds != [] {
      SlicesAreMapped(m, ds[1..]);
      assert SlicesOf(ds)[1..] == SlicesOf(ds[1..]);
    }
  }

  lemma SumLenPush(ds: seq<Descriptor>, d: Descriptor)
    ensures SumLen(ds + [d]) == SumLen(ds) + d.len
  {
    SumLenSplit(ds, [d]);
    assert [d][1..] == [];
  }

  lemma SumLenPrefix(ds: seq<Descriptor>, k: nat)
    requires k <= |ds|
    ensures SumLen(ds[..k]) <= SumLen(ds)
  {
    assert ds == ds[..k] + ds[k..];
    SumLenSplit(ds[..k], ds[k..]);
  }

  lemma SeqUpTo<T>(s: seq<T>, k: nat)
    requires k < |s|
    ensures s[..k + 1] == s[..k] + [s[k]]
    ensures s[k] == s[k..][0] && s[k..][1..] == s[k + 1..]
  {
  }

  /** The first `k` descriptors have been opened. */
  ghost predicate Opening(m: Mem, ds: seq<Descriptor>, k: nat, bufs: seq<Slice>, total: nat) {
    k <= |ds| && bufs == SlicesOf(ds[..k]) && total == SumLen(ds[..k]) && Reachable(m, ds[..k])
  }

  lemma OpeningStep(
    m: Mem, ds: seq<Descriptor>, k: nat, bufs: seq<Slice>, total: nat, d: Descriptor, rest: seq<Descriptor>)
    requires Opening(m, ds, k, bufs, total) && ds[k..] == [d] + rest
    ensures k < |ds| && d == ds[k] && rest == ds[k + 1..] && total + d.len <= SumLen(ds)
    ensures InOneRegion(m, d.addr, d.len) ==> Opening(m, ds, k + 1, bufs + [SliceOf(d)], total + d.len)
    ensures !InOneRegion(m, d.addr, d.len) ==> !Reachable(m, ds)
  {
    SeqUpTo(ds, k);
    assert rest == ds[k..][1..];
    SumLenPush(ds[..k], d);
    SumLenPrefix(ds, k + 1);
  }

  /** The buffer of a descriptor of the chain with the wanted write flag. */
  ghost predicate BufferOfKind(ds: seq<Descriptor>, writable: bool, s: Slice) {
    exists d :: d in ds && d.WriteOnly() == writable && s.addr == d.addr && s.len == d.len
  }

  /** The buffers of all descriptors with the wanted write flag, and no others. */
  ghost predicate BuffersOfKind(ds: seq<Descriptor>, writable: bool, bufs: seq<Slice>) {
    forall s :: s in bufs <==> BufferOfKind(ds, writable, s)
  }

  lemma SelectedBuffers(ds: seq<Descriptor>, writable: bool)
    ensures BuffersOfKind(ds, writable, SlicesOf(Select(ds, writable)))
  {
    var sel := Select(ds, writable);
    SelectByFlag(ds, writable);
    forall s: Slice
      ensures s in SlicesOf(sel) <==> BufferOfKind(ds, writable, s)
    {
      if s in SlicesOf(sel) {
        var i :| 0 <= i < |sel| && SlicesOf(sel)[i] == s;
        assert sel[i] in sel;
      }
      if BufferOfKind(ds, writable, s) {
        var d :| d in ds && d.WriteOnly() == writable && s.addr == d.addr && s.len == d.len;
        var i :| 0 <= i < |sel| && sel[i] == d;
        assert SlicesOf(sel)[i] == s;
      }
    }
  }

  /** `Reader::new` (readable descriptors) and `Writer::new` (writable ones): a stream over all of
      them, or an error if one is not within a single region of memory. The sum of the lengths
      never overflows. */
  method Open(chain: DescriptorChain, writable: bool) returns (r: Result<Consumer, Error>)
    modifies chain
    ensures var ds := Select(Descriptors(chain.ram.m, old(chain.State())), writable);
            && (r.Ok? <==> Reachable(chain.ram.m, ds))
            && (r.Ok? ==> fresh(r.value) && r.value.buffers == SlicesOf(ds) && r.value.consumed == 0 && r.value.Valid())
            && (r.Ok? ==> AllMapped(chain.ram.m.data, r.value.Left()))
            && (r.Err? ==> r.error == FindMemoryRegion || r.error == GuestMemoryError)
    ensures r.Ok? ==> BuffersOfKind(Descriptors(chain.ram.m, old(chain.State())), writable, r.value.buffers)
  {
    ghost var m := chain.ram.m;
    SelectedBuffers(Descriptors(m, chain.State()), writable);
    ghost var ds := Select(Descriptors(m, chain.State()), writable);
    DescriptorsAreBounded(m, chain.State());
    SelectIsShorter(Descriptors(m, chain.State()), writable);
    var bufs := [];
    var total: nat := 0;
    ghost var k := 0;
    assert ds[0..] == ds;
    while true
      invariant Opening(m, ds, k, bufs, total) && ds[k..] == Select(Descriptors(m, chain.State()), writable)
      decreases |ds| - k
    {
      var d := NextOfKind(chain, writable);
      if d.None? {
        break;
      }
      OpeningStep(m, ds, k, bufs, total, d.value, Select(Descriptors(m, chain.State()), writable));
      if total + d.value.len >= TWO64 {
        return Err(DescriptorChainOverflow);
      }
      if d.value.addr !in chain.ram.m.data {
        return Err(FindMemoryRegion);
      }
      if !InOneRegion(chain.ram.m, d.value.addr, d.value.len) {
        return Err(GuestMemoryError);
      }
      total, bufs, k := total + d.value.len, bufs + [SliceOf(d.value)], k + 1;
    }
    assert ds[..k] == ds;
    SlicesAreMapped(m, ds);
    var c := new Consumer(bufs);
    r := Ok(c);
  }

  // ---- Any chunking writes and reads the same stream ------------------------------------------------------

  function Flat(chunks: seq<seq<u8>>): seq<u8> {
    if chunks == [] then [] else chunks[0] + Flat(chunks[1..])
  }

  function Sum(sizes: seq<nat>): nat {
    if sizes == [] then 0 else sizes[0] + Sum(sizes[1..])
  }

  /** Memory after a run of `Write` calls with the given chunks, each as its contract says. */
  function WriteAll(d: map<int, u8>, addrs: seq<int>, chunks: seq<seq<u8>>): (r: map<int, u8>)
    ensures r.Keys == d.Keys
    decreases |chunks|
  {
    if chunks == [] then d
    else
      var n := Min(|chunks[0]|, |addrs|);
      WriteAll(Scatter(d, addrs[..n], chunks[0][..n]), addrs[n..], chunks[1..])
  }

  /** The bytes that a run of `Read` calls with buffers of the given sizes returns. */
  function ReadAll(d: map<int, u8>, addrs: seq<int>, sizes: seq<nat>): seq<u8>
    requires AllMapped(d, addrs)
    decreases |sizes|
  {
    if sizes == [] then []
    else
      var n := Min(sizes[0], |addrs|);
      Gather(d, addrs)[..n] + ReadAll(d, addrs[n..], sizes[1..])
  }

  /** Two writes in a row, each as far as the stream reaches, are one write of both. */
  lemma TwoWrites(d: map<int, u8>, addrs: seq<int>, a: seq<u8>, b: seq<u8>, n: nat, k: nat, t: nat)
    requires n == Min(|a|, |addrs|) && k == Min(|b|, |addrs| - n) && t == Min(|a + b|, |addrs|)
    ensures Scatter(Scatter(d, addrs[..n], a[..n]), addrs[n..][..k], b[..k]) == Scatter(d, addrs[..t], (a + b)[..t])
  {
    ScatterSplit(d, addrs[..n], a[..n], addrs[n..][..k], b[..k]);
    assert addrs[..n] + addrs[n..][..k] == addrs[..t];
    assert a[..n] + b[..k] == (a + b)[..t];
  }

  /** Writing in chunks is writing their concatenation, as far as the stream reaches. */
  lemma {:induction false} ChunkedWrite(d: map<int, u8>, addrs: seq<int>, chunks: seq<seq<u8>>)
    ensures var n := Min(|Flat(chunks)|, |addrs|);
            WriteAll(d, addrs, chunks) == Scatter(d, addrs[..n], Flat(chunks)[..n])
    decreases |chunks|
  {
    if chunks != [] {
      var n := Min(|chunks[0]|, |addrs|);
      var rest := Flat(chunks[1..]);
      ChunkedWrite(Scatter(d, addrs[..n], chunks[0][..n]), addrs[n..], chunks[1..]);
      TwoWrites(d, addrs, chunks[0], rest, n, Min(|rest|, |addrs| - n), Min(|chunks[0] + rest|, |addrs|));
    }
  }

  lemma {:induction false} ChunkedRead(d: map<int, u8>, addrs: seq<int>, sizes: seq<nat>)
    requires AllMapped(d, addrs)
    ensures ReadAll(d, addrs, sizes) == Gather(d, addrs)[..Min(Sum(sizes), |addrs|)]
    decreases |sizes|
  {
    if sizes != [] {
      var n := Min(sizes[0], |addrs|);
      assert addrs == addrs[..n] + addrs[n..];
      GatherSplit(d, addrs[..n], addrs[n..]);
      ChunkedRead(d, addrs[n..], sizes[1..]);
    }
  }

  lemma ReadToTheEnd(d: map<int, u8>, addrs: seq<int>, sizes: seq<nat>)
    requires AllMapped(d, addrs) && Sum(sizes) >= |addrs|
    ensures ReadAll(d, addrs, sizes) == Gather(d, addrs)
  {
    ChunkedRead(d, addrs, sizes);
    assert Min(Sum(sizes), |addrs|) == |Gather(d, addrs)|;
  }

  /** `bs` and `d'` are what chunked writes and reads of a stream over distinct addresses come to: the
      bytes written, the old bytes behind them, and memory elsewhere as it was. */
  ghost predicate PassedThrough(
    d: map<int, u8>, addrs: seq<int>, chunks: seq<seq<u8>>, sizes: seq<nat>, d': map<int, u8>, bs: seq<u8>)
  {
    var n := Min(|Flat(chunks)|, |addrs|);
    && AllMapped(d, addrs) && d'.Keys == d.Keys
    && bs == (Flat(chunks)[..n] + Gather(d, addrs)[n..])[..Min(Sum(sizes), |addrs|)]
    && (forall a {:trigger d'[a]} :: a in d && a !in addrs ==> d'[a] == d[a])
  }

  /** Written in any chunks and read back in any chunks, a stream over disjoint buffers returns the
      bytes written (and the old bytes after them); memory outside the buffers is unchanged. */
  lemma StreamPasses(d: map<int, u8>, addrs: seq<int>, chunks: seq<seq<u8>>, sizes: seq<nat>)
    requires AllMapped(d, addrs) && Distinct(addrs)
    ensures var d' := WriteAll(d, addrs, chunks);
            PassedThrough(d, addrs, chunks, sizes, d', ReadAll(d', addrs, sizes))
  {
    var d' := WriteAll(d, addrs, chunks);
    var n := Min(|Flat(chunks)|, |addrs|);
    ChunkedWrite(d, addrs, chunks);
    ChunkedRead(d', addrs, sizes);
    GatherAfterPrefix(d, addrs, n, Flat(chunks)[..n]);
  }

  /** Reading one half of a split stream and then the other is reading the whole. */
  lemma SplitThenRead(d: map<int, u8>, addrs: seq<int>, offset: nat, sizes1: seq<nat>, sizes2: seq<nat>)
    requires AllMapped(d, addrs) && offset <= |addrs|
    requires Sum(sizes1) >= offset && Sum(sizes2) >= |addrs| - offset
    ensures AllMapped(d, addrs[..offset]) && AllMapped(d, addrs[offset..])
    ensures ReadAll(d, addrs[..offset], sizes1) + ReadAll(d, addrs[offset..], sizes2) == Gather(d, addrs)
  {
    assert addrs == addrs[..offset] + addrs[offset..];
    GatherSplit(d, addrs[..offset], addrs[offset..]);
    ReadToTheEnd(d, addrs[..offset], sizes1);
    ReadToTheEnd(d, addrs[offset..], sizes2);
  }

  // ---- The objects do it ----------------------------------------------------------------------------------

  /** Writes chunk after chunk. */
  method WriteEach(w: Consumer, ram: GuestRam, chunks: seq<seq<u8>>)
    requires w.Valid()
    modifies w, ram
    ensures w.Valid() && w.consumed + |w.Left()| == old(w.consumed + |w.Left()|)
    ensures ram.m.breaks == old(ram.m.breaks)
    ensures ram.m.data == WriteAll(old(ram.m.data), old(w.Left()), chunks)
  {
    ghost var all := WriteAll(ram.m.data, w.Left(), chunks);
    ghost var sum := w.consumed + |w.Left()|;
    assert chunks[0..] == chunks;
    for i := 0 to |chunks|
      invariant w.Valid() && w.consumed + |w.Left()| == sum && ram.m.breaks == old(ram.m.breaks)
      invariant all == WriteAll(ram.m.data, w.Left(), chunks[i..])
    {
      assert chunks[i..][1..] == chunks[i + 1..];
      var n := w.Write(ram, chunks[i]);
    }
  }

  /** Reads into a new buffer of each of the sizes; the bytes that arrive, in order. */
  method ReadEach(rd: Consumer, ram: GuestRam, sizes: seq<nat>) returns (bs: seq<u8>)
    requires rd.Valid() && AllMapped(ram.m.data, rd.Left())
    modifies rd
    ensures rd.Valid() && AllMapped(ram.m.data, rd.Left())
    ensures rd.consumed + |rd.Left()| == old(rd.consumed + |rd.Left()|)
    ensures bs == ReadAll(ram.m.data, old(rd.Left()), sizes)
  {
    ghost var d := ram.m.data;
    ghost var all := ReadAll(d, rd.Left(), sizes);
    ghost var sum := rd.consumed + |rd.Left()|;
    bs := [];
    assert sizes[0..] == sizes;
    for i := 0 to |sizes|
      invariant rd.Valid() && AllMapped(d, rd.Left()) && rd.consumed + |rd.Left()| == sum
      invariant ReadSoFar(all, bs, d, rd.Left(), sizes[i..])
    {
      ghost var addrs := rd.Left();
      var part := ReadOne(rd, ram, sizes[i]);
      ReadOneMore(all, bs, d, addrs, sizes[i..], part, rd.Left());
      assert sizes[i..][1..] == sizes[i + 1..];
      bs := bs + part;
    }
    assert sizes[|sizes|..] == [] && bs + [] == bs;
  }

  /** The bytes `bs` have been read, and the sizes that remain read the rest of `all`. */
  ghost predicate ReadSoFar(all: seq<u8>, bs: seq<u8>, d: map<int, u8>, addrs: seq<int>, sizes: seq<nat>)
    requires AllMapped(d, addrs)
  {
    all == bs + ReadAll(d, addrs, sizes)
  }

  lemma ReadOneMore(all: seq<u8>, bs: seq<u8>, d: map<int, u8>, addrs: seq<int>, sizes: seq<nat>, part: seq<u8>,
                    addrs': seq<int>)
    requires AllMapped(d, addrs) && AllMapped(d, addrs') && ReadSoFar(all, bs, d, addrs, sizes) && sizes != []
    requires part == Gather(d, addrs)[..Min(sizes[0], |addrs|)] && addrs' == addrs[Min(sizes[0], |addrs|)..]
    ensures ReadSoFar(all, bs + part, d, addrs', sizes[1..])
  {
    Associate(bs, part, ReadAll(d, addrs', sizes[1..]));
  }

  lemma Associate(a: seq<u8>, b: seq<u8>, c: seq<u8>)
    ensures a + (b + c) == (a + b) + c
  {
  }

  method ReadOne(rd: Consumer, ram: GuestRam, size: nat) returns (part: seq<u8>)
    requires rd.Valid() && AllMapped(ram.m.data, rd.Left())
    modifies rd
    ensures rd.Valid() && AllMapped(ram.m.data, rd.Left())
    ensures rd.consumed + |rd.Left()| == old(rd.consumed + |rd.Left()|)
    ensures var n := Min(size, |old(rd.Left())|);
            part == Gather(ram.m.data, old(rd.Left()))[..n] && rd.Left() == old(rd.Left())[n..]
  {
    var buf := new u8[size];
    var n := rd.Read(ram, buf);
    part := buf[..n.value];
  }

  /** A writer over the writable buffers of one chain and a reader over the readable buffers of another
      that name the same addresses: whatever the chunks, the reader returns what the writer stored and
      the old bytes behind it, and memory outside the buffers is unchanged. */
  method WriteThenRead(writable: DescriptorChain, readable: DescriptorChain, chunks: seq<seq<u8>>, sizes: seq<nat>)
    returns (r: Result<seq<u8>, Error>)
    requires writable != readable && writable.ram == readable.ram
    requires BuffersOf(readable, false) == BuffersOf(writable, true) && Distinct(BuffersOf(writable, true))
    modifies writable, readable, writable.ram
    ensures r.Ok? <==>
              && Reachable(old(writable.ram.m), old(Select(Descriptors(writable.ram.m, writable.State()), true)))
              && Reachable(old(writable.ram.m), old(Select(Descriptors(readable.ram.m, readable.State()), false)))
    ensures r.Ok? ==> PassedThrough(old(writable.ram.m.data), old(BuffersOf(writable, true)), chunks, sizes,
                                    writable.ram.m.data, r.value)
  {
    ghost var addrs := BuffersOf(writable, true);
    var ram := writable.ram;
    ghost var d := ram.m.data;
    var w := Open(writable, true);
    if w.Err? {
      return Err(w.error);
    }
    var rd := Open(readable, false);
    if rd.Err? {
      return Err(rd.error);
    }
    WriteEach(w.value, ram, chunks);
    var bs := ReadEach(rd.value, ram, sizes);
    StreamPasses(d, addrs, chunks, sizes);
    r := Ok(bs);
  }

  ghost function BuffersOf(chain: DescriptorChain, writable: bool): seq<int>
    reads chain, chain.ram
  {
    Addrs(SlicesOf(Select(Descriptors(chain.ram.m, chain.State()), writable)))
  }
}
