/** The console's input buffer and its receive queue. */
module Console {
  import opened Words
  import opened GuestMemory
  import opened ByteStream
  import opened Chain
  import opened DescriptorUtils
  import opened ChainFrame

  const MAX_CAPACITY: nat := 16384

  datatype Error =
    | BufferCapacityExceeded
    | InvalidBufferCapacity
    | UnexpectedReadOnlyDescriptor
    | WriteToGuestFailed

  /** Guest memory and input buffer after a receive call, the bytes it sent, and how it failed. */
  datatype Outcome = Outcome(m: Mem, left: seq<u8>, sent: nat, error: Option<Error>)

  function Plus(n: nat, o: Outcome): Outcome { o.(sent := n + o.sent) }

  /** What the call returns. */
  predicate Returns(o: Outcome, r: Result<nat, Error>) {
    match r
    case Ok(n) => o.error.None? && n == o.sent
    case Err(e) => o.error == Some(e)
  }

  // ---- A buffer poured into a list of descriptors ---------------------------------------------------

  /** The front of `buf` goes to the first descriptor, the rest to the others, until one of the two
      runs out or an error occurs. Bytes taken for a write that fails are gone. */
  function Pour(m: Mem, ds: seq<Descriptor>, buf: seq<u8>): Outcome
    decreases |ds|
  {
    if ds == [] || buf == [] then Outcome(m, buf, 0, None)
    else if !ds[0].WriteOnly() then Outcome(m, buf, 0, Some(UnexpectedReadOnlyDescriptor))
    else
      var n := Min(ds[0].len, |buf|);
      if !Accessible(m, ds[0].addr, n) then
        Outcome(Written(m, ds[0].addr, buf[..n]), buf[n..], 0, Some(WriteToGuestFailed))
      else
        Plus(n, Pour(Stored(m, ds[0].addr, buf[..n]), ds[1..], buf[n..]))
  }

  /** The same along a chain that is walked while it is written: what the calls of `next` return may
      depend on the bytes just stored. */
  function Deliver(m: Mem, c: Walk, buf: seq<u8>): Outcome
    decreases Rank(c)
  {
    if buf == [] then Outcome(m, buf, 0, None)
    else
      var (c', d) := Advance(m, c);
      if d.None? then Outcome(m, buf, 0, None)
      else if !d.value.WriteOnly() then Outcome(m, buf, 0, Some(UnexpectedReadOnlyDescriptor))
      else
        var n := Min(d.value.len, |buf|);
        if !Accessible(m, d.value.addr, n) then
          Outcome(Written(m, d.value.addr, buf[..n]), buf[n..], 0, Some(WriteToGuestFailed))
        else
          Plus(n, Deliver(Stored(m, d.value.addr, buf[..n]), c', buf[n..]))
  }

  /** When no buffer overlaps the descriptors, the chain is the one that was there at the start. */
  lemma {:induction false} DeliverIsPour(m: Mem, c: Walk, buf: seq<u8>)
    requires Apart(m, c)
    ensures Deliver(m, c, buf) == Pour(m, Descriptors(m, c), buf)
    decreases Rank(c)
  {
    AdvanceTakesFirst(m, c);
    var (c', d) := Advance(m, c);
    if buf != [] && d.Some? && d.value.WriteOnly() {
      var n := Min(d.value.len, |buf|);
      WriteKeepsRest(m, c, buf[..n]);
      DeliverIsPour(Stored(m, d.value.addr, buf[..n]), c', buf[n..]);
    }
  }

  /** What is left is the end of the buffer; a success counts exactly the bytes no longer in it. */
  predicate Conserves(buf: seq<u8>, o: Outcome) {
    && |o.left| <= |buf| && o.left == buf[|buf| - |o.left|..]
    && o.sent <= |buf| - |o.left| && (o.error.None? ==> o.sent == |buf| - |o.left|)
  }

  lemma ConservesStep(buf: seq<u8>, n: nat, o: Outcome)
    requires n <= |buf| && Conserves(buf[n..], o)
    ensures Conserves(buf, Plus(n, o))
  {
  }

  lemma ConservesStop(buf: seq<u8>, n: nat, o: Outcome)
    requires n <= |buf| && o.left == buf[n..] && o.sent == 0 && (o.error.None? ==> n == 0)
    ensures Conserves(buf, o)
  {
  }

  /** Whatever the chain and whatever the writes do to it. */
  lemma {:induction false} DeliverConserves(m: Mem, c: Walk, buf: seq<u8>, o: Outcome)
    requires o == Deliver(m, c, buf)
    ensures Conserves(buf, o)
    decreases Rank(c)
  {
    var (c', d) := Advance(m, c);
    if buf == [] || d.None? || !d.value.WriteOnly() {
      assert buf[0..] == buf;
      ConservesStop(buf, 0, o);
    } else {
      var n := Min(d.value.len, |buf|);
      if Accessible(m, d.value.addr, n) {
        var m' := Stored(m, d.value.addr, buf[..n]);
        var rest := Deliver(m', c', buf[n..]);
        DeliverConserves(m', c', buf[n..], rest);
        ConservesStep(buf, n, rest);
      } else {
        ConservesStop(buf, n, o);
      }
    }
  }

  /** The `i`-th descriptor receives bytes of a buffer of length `n`, and can. */
  predicate Serves(m: Mem, ds: seq<Descriptor>, n: nat, i: nat)
    requires i < |ds|
  {
    SumLen(ds[..i]) < n ==>
      ds[i].WriteOnly() && Accessible(m, ds[i].addr, Min(ds[i].len, n - SumLen(ds[..i])))
  }

  ghost predicate AllServe(m: Mem, ds: seq<Descriptor>, n: nat) {
    forall i :: 0 <= i < |ds| ==> Serves(m, ds, n, i)
  }

  lemma ServesShift(m: Mem, m': Mem, ds: seq<Descriptor>, n: nat, i: nat)
    requires i + 1 < |ds| && m'.data.Keys == m.data.Keys
    ensures Serves(m, ds, n, i + 1) == Serves(m', ds[1..], n - Min(ds[0].len, n), i)
  {
    assert ds[..i + 1][1..] == ds[1..][..i];
  }

  lemma AllServeStep(m: Mem, m': Mem, ds: seq<Descriptor>, n: nat, k: nat)
    requires ds != [] && m'.data.Keys == m.data.Keys && k == n - Min(ds[0].len, n)
    ensures AllServe(m, ds, n) <==> Serves(m, ds, n, 0) && AllServe(m', ds[1..], k)
  {
    var rest := ds[1..];
    if AllServe(m, ds, n) {
      forall i | 0 <= i < |rest|
        ensures Serves(m', rest, k, i)
      {
        ServesShift(m, m', ds, n, i);
      }
    }
    if Serves(m, ds, n, 0) && AllServe(m', rest, k) {
      forall i | 0 <= i < |ds|
        ensures Serves(m, ds, n, i)
      {
        if i > 0 {
          assert Serves(m', rest, k, i - 1);
          ServesShift(m, m', ds, n, i - 1);
        }
      }
    }
  }

  lemma PourStep(m: Mem, ds: seq<Descriptor>, buf: seq<u8>)
    requires ds != [] && buf != []
    ensures var n := Min(ds[0].len, |buf|);
            var rest := Pour(Stored(m, ds[0].addr, buf[..n]), ds[1..], buf[n..]);
            && (Serves(m, ds, |buf|, 0) ==> Pour(m, ds, buf) == Plus(n, rest))
            && (!Serves(m, ds, |buf|, 0) ==> Pour(m, ds, buf).error.Some?)
  {
    assert ds[..0] == [];
  }

  /** A receive call succeeds exactly when every descriptor that has to take bytes is writable and
      lies in guest memory, as far as it is used. */
  lemma {:induction false} PourSucceeds(m: Mem, ds: seq<Descriptor>, buf: seq<u8>, o: Outcome)
    requires o == Pour(m, ds, buf)
    ensures o.error.None? <==> AllServe(m, ds, |buf|)
    decreases |ds|
  {
    if ds != [] && buf != [] {
      var n := Min(ds[0].len, |buf|);
      var m', rest := Stored(m, ds[0].addr, buf[..n]), buf[n..];
      PourStep(m, ds, buf);
      PourSucceeds(m', ds[1..], rest, Pour(m', ds[1..], rest));
      AllServeStep(m, m', ds, |buf|, |rest|);
    }
  }

  /** The `i`-th descriptor is the first that has to take bytes and cannot. */
  ghost predicate Refuses(m: Mem, ds: seq<Descriptor>, n: nat, i: nat) {
    i < |ds| && !Serves(m, ds, n, i) && forall j :: 0 <= j < i ==> Serves(m, ds, n, j)
  }

  /** The bytes that leave a buffer of length `n` before the call fails at the `i`-th descriptor: those
      for the descriptors before it, and those for itself if only its address is at fault. */
  function Drained(ds: seq<Descriptor>, n: nat, i: nat): nat
    requires i < |ds| && SumLen(ds[..i]) < n
  {
    SumLen(ds[..i]) + if ds[i].WriteOnly() then Min(ds[i].len, n - SumLen(ds[..i])) else 0
  }

  /** A call on a buffer of length `n` fails after it has taken bytes from it. */
  ghost predicate Drops(m: Mem, ds: seq<Descriptor>, n: nat) {
    exists i: nat :: Refuses(m, ds, n, i) && (SumLen(ds[..i]) > 0 || (ds[i].WriteOnly() && ds[i].len > 0))
  }

  lemma RefusesShift(m: Mem, m': Mem, ds: seq<Descriptor>, n: nat, i: nat, k: nat)
    requires Refuses(m, ds, n, i) && i > 0 && m'.data.Keys == m.data.Keys && k == n - Min(ds[0].len, n)
    ensures SumLen(ds[..i]) == ds[0].len + SumLen(ds[1..][..i - 1]) < n
    ensures Refuses(m', ds[1..], k, i - 1)
  {
    assert ds[..i][1..] == ds[1..][..i - 1];
    var rest := ds[1..];
    ServesShift(m, m', ds, n, i - 1);
    forall j | 0 <= j < i - 1
      ensures Serves(m', rest, k, j)
    {
      ServesShift(m, m', ds, n, j);
    }
  }

  lemma PourStops(m: Mem, ds: seq<Descriptor>, buf: seq<u8>, o: Outcome)
    requires ds != [] && buf != [] && !Serves(m, ds, |buf|, 0) && o == Pour(m, ds, buf)
    ensures o.error == Some(if ds[0].WriteOnly() then WriteToGuestFailed else UnexpectedReadOnlyDescriptor)
    ensures o.left == if ds[0].WriteOnly() then buf[Min(ds[0].len, |buf|)..] else buf
  {
    assert ds[..0] == [];
  }

  lemma DrainedShift(ds: seq<Descriptor>, n: nat, i: nat, k: nat)
    requires 0 < i < |ds| && SumLen(ds[..i]) == ds[0].len + SumLen(ds[1..][..i - 1]) < n == ds[0].len + k
    ensures Drained(ds, n, i) == ds[0].len + Drained(ds[1..], k, i - 1)
  {
  }

  /** A failing call leaves the buffer without exactly the `t` drained bytes, and says what was wrong. */
  lemma {:induction false} PourFails(m: Mem, ds: seq<Descriptor>, buf: seq<u8>, i: nat, t: nat, o: Outcome)
    requires Refuses(m, ds, |buf|, i) && t == Drained(ds, |buf|, i) && o == Pour(m, ds, buf)
    ensures o.error == Some(if ds[i].WriteOnly() then WriteToGuestFailed else UnexpectedReadOnlyDescriptor)
    ensures t <= |buf| && o.left == buf[t..]
    decreases |ds|
  {
    if i == 0 {
      assert ds[..0] == [];
      PourStops(m, ds, buf, o);
    } else {
      var n := Min(ds[0].len, |buf|);
      var m' := Stored(m, ds[0].addr, buf[..n]);
      var rest := buf[n..];
      RefusesShift(m, m', ds, |buf|, i, |rest|);
      DrainedShift(ds, |buf|, i, |rest|);
      PourStep(m, ds, buf);
      PourFails(m', ds[1..], rest, i - 1, t - n, Pour(m', ds[1..], rest));
      SuffixOfSuffix(buf, n, t - n);
    }
  }

  lemma SuffixOfSuffix(s: seq<u8>, n: nat, k: nat)
    requires n + k <= |s|
    ensures s[n..][k..] == s[n + k..]
  {
  }

  lemma {:induction false} SomeRefuses(m: Mem, ds: seq<Descriptor>, n: nat, k: nat) returns (i: nat)
    requires k <= |ds| && !AllServe(m, ds, n) && forall j :: 0 <= j < k ==> Serves(m, ds, n, j)
    ensures Refuses(m, ds, n, i)
    decreases |ds| - k
  {
    if k < |ds| && !Serves(m, ds, n, k) {
      i := k;
    } else {
      i := SomeRefuses(m, ds, n, k + 1);
    }
  }

  lemma OneRefuses(m: Mem, ds: seq<Descriptor>, n: nat, i: nat, j: nat)
    requires Refuses(m, ds, n, i) && Refuses(m, ds, n, j)
    ensures i == j
  {
  }

  lemma DropsAt(m: Mem, ds: seq<Descriptor>, n: nat, i: nat)
    requires Refuses(m, ds, n, i)
    ensures Drops(m, ds, n) <==> Drained(ds, n, i) > 0
  {
    if Drops(m, ds, n) {
      var j: nat :| Refuses(m, ds, n, j) && (SumLen(ds[..j]) > 0 || (ds[j].WriteOnly() && ds[j].len > 0));
      OneRefuses(m, ds, n, i, j);
    }
  }

  lemma ServedDropsNothing(m: Mem, ds: seq<Descriptor>, n: nat)
    requires AllServe(m, ds, n)
    ensures !Drops(m, ds, n)
  {
  }

  lemma ShorterBy(s: seq<u8>, t: nat)
    requires t <= |s|
    ensures s[t..] == s <==> t == 0
  {
  }

  /** A call fails and loses bytes exactly when the chain, as the driver left it, makes it. */
  lemma PourDrops(m: Mem, ds: seq<Descriptor>, buf: seq<u8>, o: Outcome)
    requires o == Pour(m, ds, buf)
    ensures o.error.Some? && o.left != buf <==> Drops(m, ds, |buf|)
  {
    PourSucceeds(m, ds, buf, o);
    if o.error.Some? {
      var i := SomeRefuses(m, ds, |buf|, 0);
      var t := Drained(ds, |buf|, i);
      PourFails(m, ds, buf, i, t, o);
      ShorterBy(buf, t);
      DropsAt(m, ds, |buf|, i);
    } else {
      ServedDropsNothing(m, ds, |buf|);
    }
  }

  /** A successful receive call sends as much as the buffer holds and the chain has room for. */
  lemma {:induction false} PourSends(m: Mem, ds: seq<Descriptor>, buf: seq<u8>)
    requires Pour(m, ds, buf).error.None?
    ensures Pour(m, ds, buf).sent == Min(|buf|, SumLen(ds))
    ensures Pour(m, ds, buf).left == buf[Min(|buf|, SumLen(ds))..]
    decreases |ds|
  {
    if ds != [] && buf != [] {
      var n := Min(ds[0].len, |buf|);
      PourStep(m, ds, buf);
      PourSends(Stored(m, ds[0].addr, buf[..n]), ds[1..], buf[n..]);
    }
  }

  /** `n` bytes of `buf` lie, in order, at the front of the stream that the descriptors name, and
      nothing else has changed. */
  ghost predicate Poured(m: Mem, ds: seq<Descriptor>, buf: seq<u8>, n: nat, m': Mem) {
    var addrs := Addrs(SlicesOf(ds));
    && n <= |addrs| && n <= |buf| && AllMapped(m.data, addrs[..n])
    && m'.breaks == m.breaks && m'.data == Scatter(m.data, addrs[..n], buf[..n])
  }

  lemma FrontOfStream(ds: seq<Descriptor>, k: nat, n: nat, t: nat)
    requires t == k + n && ds != [] && k <= ds[0].len && (k < ds[0].len ==> n == 0) && n <= |Addrs(SlicesOf(ds[1..]))|
    ensures t <= |Addrs(SlicesOf(ds))|
    ensures Addrs(SlicesOf(ds))[..t] == Range(ds[0].addr, k) + Addrs(SlicesOf(ds[1..]))[..n]
  {
    assert ds == [ds[0]] + ds[1..];
    FirstBuffer(ds[0], ds[1..]);
    RangeSplit(ds[0].addr, ds[0].len, k);
  }

  lemma MappedFront(d: map<int, u8>, a: int, k: nat, rest: seq<int>)
    requires Mapped(d, a, k) && AllMapped(d, rest)
    ensures AllMapped(d, Range(a, k) + rest)
  {
  }

  lemma StoredInTurn(d: map<int, u8>, a: int, k: nat, rest: seq<int>, buf: seq<u8>, n: nat, t: nat)
    requires t == k + n <= |buf| && |rest| == n
    ensures Scatter(Put(d, a, buf[..k]), rest, buf[k..][..n]) == Scatter(d, Range(a, k) + rest, buf[..t])
  {
    assert buf[..t] == buf[..k] + buf[k..][..n];
    ScatterSplit(d, Range(a, k), buf[..k], rest, buf[k..][..n]);
    ScatterRange(d, a, buf[..k]);
  }

  lemma PouredStep(m: Mem, ds: seq<Descriptor>, buf: seq<u8>, k: nat, n: nat, t: nat, m': Mem)
    requires t == k + n
    requires ds != [] && k <= ds[0].len && k <= |buf| && Accessible(m, ds[0].addr, k)
    requires k < ds[0].len ==> n == 0
    requires Poured(Stored(m, ds[0].addr, buf[..k]), ds[1..], buf[k..], n, m')
    ensures Poured(m, ds, buf, t, m')
  {
    var rest := Addrs(SlicesOf(ds[1..]));
    FrontOfStream(ds, k, n, t);
    MappedFront(m.data, ds[0].addr, k, rest[..n]);
    StoredInTurn(m.data, ds[0].addr, k, rest[..n], buf, n, t);
  }

  lemma PouredNothing(m: Mem, ds: seq<Descriptor>, buf: seq<u8>)
    ensures Poured(m, ds, buf, 0, m)
  {
    assert buf[..0] == [];
  }

  /** What a successful receive call reports is what it has stored in the chain. */
  lemma {:induction false} PourStores(m: Mem, ds: seq<Descriptor>, buf: seq<u8>, o: Outcome)
    requires o == Pour(m, ds, buf) && o.error.None?
    ensures Poured(m, ds, buf, o.sent, o.m)
    decreases |ds|
  {
    if ds != [] && buf != [] {
      var n := Min(ds[0].len, |buf|);
      var m' := Stored(m, ds[0].addr, buf[..n]);
      PourStep(m, ds, buf);
      var rest := Pour(m', ds[1..], buf[n..]);
      PourStores(m', ds[1..], buf[n..], rest);
      assert n < ds[0].len ==> rest.sent == 0;
      PouredStep(m, ds, buf, n, rest.sent, o.sent, o.m);
    } else {
      PouredNothing(m, ds, buf);
    }
  }

  // ---- Runs of the console ----------------------------------------------------------------------------

  /** A call of the console: a receive call finds guest memory and a chain as the driver left them. */
  datatype Call = Enqueue(data: seq<u8>) | Receive(m: Mem, c: Walk) | Clear

  function Enqueued(buf: seq<u8>, capacity: nat, data: seq<u8>): seq<u8> {
    if |buf| + |data| > capacity then buf else buf + data
  }

  function BufferAfter(buf: seq<u8>, capacity: nat, call: Call): seq<u8> {
    match call
    case Enqueue(data) => Enqueued(buf, capacity, data)
    case Receive(m, c) => Deliver(m, c, buf).left
    case Clear => []
  }

  /** The bytes that a call adds to the buffer. */
  function Accepted(buf: seq<u8>, capacity: nat, call: Call): seq<u8> {
    if call.Enqueue? && |buf| + |call.data| <= capacity then call.data else []
  }

  /** The first `n` bytes of a stream of buffers, if they are there. */
  function Found(d: map<int, u8>, addrs: seq<int>, n: nat): seq<u8> {
    if n <= |addrs| && AllMapped(d, addrs[..n]) then Gather(d, addrs[..n]) else []
  }

  /** The bytes that the driver finds, after a call, at the front of the buffers it supplied. */
  function Arrived(buf: seq<u8>, call: Call): seq<u8> {
    if call.Receive? then
      var o := Deliver(call.m, call.c, buf);
      if o.error.None? then Found(o.m.data, Addrs(SlicesOf(Descriptors(call.m, call.c))), o.sent) else []
    else
      []
  }

  /** Buffers that overlap neither each other nor the descriptors. */
  ghost predicate WellPlaced(m: Mem, c: Walk) {
    Apart(m, c) && Distinct(Addrs(SlicesOf(Descriptors(m, c))))
  }

  /** Data is lost by clearing a buffer that is not empty, and by a receive call that meets a
      descriptor it cannot use after, or while, it takes bytes from the buffer. */
  ghost predicate Loses(buf: seq<u8>, call: Call) {
    match call
    case Enqueue(_) => false
    case Receive(m, c) => Drops(m, Descriptors(m, c), |buf|)
    case Clear => buf != []
  }

  lemma FoundPoured(m: Mem, ds: seq<Descriptor>, buf: seq<u8>, n: nat, m': Mem)
    requires Poured(m, ds, buf, n, m') && Distinct(Addrs(SlicesOf(ds)))
    ensures Found(m'.data, Addrs(SlicesOf(ds)), n) == buf[..n]
  {
    GatherScattered(m.data, Addrs(SlicesOf(ds))[..n], buf[..n]);
  }

  lemma ReceivedIsSent(m: Mem, c: Walk, buf: seq<u8>, o: Outcome)
    requires WellPlaced(m, c) && o == Deliver(m, c, buf) && o.error.None?
    ensures o.sent <= |buf| && o.left == buf[o.sent..]
    ensures Found(o.m.data, Addrs(SlicesOf(Descriptors(m, c))), o.sent) == buf[..o.sent]
  {
    DeliverIsPour(m, c, buf);
    PourSends(m, Descriptors(m, c), buf);
    PourStores(m, Descriptors(m, c), buf, o);
    FoundPoured(m, Descriptors(m, c), buf, o.sent, o.m);
  }

  lemma Halves(s: seq<u8>, k: nat)
    requires k <= |s|
    ensures s + [] == s[..k] + s[k..]
  {
  }

  lemma NothingAdded(s: seq<u8>)
    ensures s + [] == s == [] + s
  {
  }

  /** What arrived and what is left make up what was there and what was accepted, unless data is lost. */
  lemma CallConserves(buf: seq<u8>, capacity: nat, call: Call)
    requires call.Receive? ==> WellPlaced(call.m, call.c)
    ensures buf + Accepted(buf, capacity, call) == Arrived(buf, call) + BufferAfter(buf, capacity, call)
            <==> !Loses(buf, call)
  {
    if call.Receive? {
      var o := Deliver(call.m, call.c, buf);
      DeliverIsPour(call.m, call.c, buf);
      PourDrops(call.m, Descriptors(call.m, call.c), buf, o);
      if o.error.None? {
        ReceivedIsSent(call.m, call.c, buf, o);
        Halves(buf, o.sent);
      } else {
        NothingAdded(buf);
        NothingAdded(o.left);
      }
    }
  }

  // A call that loses data: a writable buffer of four bytes, then a descriptor that is read-only.

  const FIRST: Descriptor := Descriptor(64, 4, 3, 1)
  const SECOND: Descriptor := Descriptor(72, 4, 0, 0)

  function TableByte(a: int): u8 {
    if a == 0 then 64 else if a == 8 then 4 else if a == 12 then 3 else if a == 14 then 1
    else if a == 16 then 72 else if a == 24 then 4 else 0
  }

  function LossyMemory(): (m: Mem)
    ensures forall a :: a in m.data <==> 0 <= a < 128
    ensures forall a :: a in m.data ==> m.data[a] == TableByte(a)
  {
    Mem(map a | 0 <= a < 128 && InLowMemory(a) :: TableByte(a), {})
  }

  predicate InLowMemory(a: int) { 0 <= a < 128 }

  lemma LossyTable(m: Mem)
    requires m == LossyMemory()
    ensures Fetch(m, 0, 0) == Some(FIRST) && Fetch(m, 0, 1) == Some(SECOND)
  {
    assert Mapped(m.data, 0, 16) && Mapped(m.data, 16, 16);
  }

  lemma LossyChain(m: Mem, c: Walk)
    requires m == LossyMemory() && c == Fresh(0, 2, 0)
    ensures Descriptors(m, c) == [FIRST, SECOND]
    ensures forall a :: Reads(m, c, a) ==> a < 32
  {
    LossyTable(m);
    var c1 := Walk(0, 2, 1, 1, 4, false);
    var c2 := Walk(0, 2, 1, 0, 8, false);
    assert Advance(m, c) == (c1, Some(FIRST)) && Advance(m, c1) == (c2, Some(SECOND));
    AdvanceTakesFirst(m, c);
    AdvanceTakesFirst(m, c1);
    AdvanceTakesFirst(m, c2);
    forall a
      ensures Reads(m, c, a) ==> a < 32
    {
      assert !Reads(m, c2, a);
      assert Reads(m, c1, a) ==> InEntry(c1, a);
    }
  }

  lemma LossyAddrs()
    ensures Addrs(SlicesOf([FIRST, SECOND])) == [64, 65, 66, 67, 72, 73, 74, 75]
  {
    assert [FIRST, SECOND] == [FIRST] + [SECOND];
    FirstBuffer(FIRST, [SECOND]);
    assert [SECOND] == [SECOND] + [];
    FirstBuffer(SECOND, []);
    assert SlicesOf([]) == [];
  }

  lemma LossyPlaced(m: Mem, c: Walk)
    requires m == LossyMemory() && c == Fresh(0, 2, 0)
    ensures WellPlaced(m, c)
  {
    LossyChain(m, c);
    LossyAddrs();
  }

  lemma SecondRefuses(m: Mem, ds: seq<Descriptor>)
    requires m == LossyMemory() && ds == [FIRST, SECOND]
    ensures SumLen(ds[..1]) == 4 && Refuses(m, ds, 5, 1) && Drained(ds, 5, 1) == 4
  {
    assert ds[..0] == [] && ds[..1] == [FIRST] && [FIRST][1..] == [];
    assert Serves(m, ds, 5, 0) && !Serves(m, ds, 5, 1);
  }

  /** Five bytes are buffered, four are written to the guest, and the call fails: one is left. */
  lemma ReceiveCanLose(m: Mem, c: Walk, buf: seq<u8>, o: Outcome)
    requires m == LossyMemory() && c == Fresh(0, 2, 0) && |buf| == 5 && o == Deliver(m, c, buf)
    ensures WellPlaced(m, c) && Loses(buf, Receive(m, c))
    ensures o.error == Some(UnexpectedReadOnlyDescriptor) && o.left == buf[4..]
  {
    LossyPlaced(m, c);
    DeliverIsPour(m, c, buf);
    LossyChain(m, c);
    SecondRefuses(m, Descriptors(m, c));
    PourFails(m, Descriptors(m, c), buf, 1, 4, o);
  }

  /** The bytes accepted in a run, the bytes that arrived, and what is left in the buffer. */
  datatype Tally = Tally(accepted: seq<u8>, arrived: seq<u8>, left: seq<u8>)

  function Run(buf: seq<u8>, capacity: nat, calls: seq<Call>): Tally
    decreases |calls|
  {
    if calls == [] then Tally([], [], buf)
    else
      var t := Run(BufferAfter(buf, capacity, calls[0]), capacity, calls[1..]);
      Tally(Accepted(buf, capacity, calls[0]) + t.accepted, Arrived(buf, calls[0]) + t.arrived, t.left)
  }

  ghost predicate Lossless(buf: seq<u8>, capacity: nat, calls: seq<Call>)
    decreases |calls|
  {
    calls == [] ||
    (!Loses(buf, calls[0]) && Lossless(BufferAfter(buf, capacity, calls[0]), capacity, calls[1..]))
  }

  ghost predicate Placed(call: Call) { call.Receive? ==> WellPlaced(call.m, call.c) }

  /** A call never makes bytes up, and one that loses data has fewer afterwards. */
  lemma CallGainsNothing(buf: seq<u8>, capacity: nat, call: Call)
    requires Placed(call)
    ensures |Arrived(buf, call)| + |BufferAfter(buf, capacity, call)| <= |buf| + |Accepted(buf, capacity, call)|
    ensures Loses(buf, call) ==>
              |Arrived(buf, call)| + |BufferAfter(buf, capacity, call)| < |buf| + |Accepted(buf, capacity, call)|
  {
    if call.Receive? {
      ReceiveGainsNothing(call.m, call.c, buf, Deliver(call.m, call.c, buf));
    }
  }

  lemma ReceiveGainsNothing(m: Mem, c: Walk, buf: seq<u8>, o: Outcome)
    requires WellPlaced(m, c) && o == Deliver(m, c, buf)
    ensures o.error.Some? ==> |o.left| <= |buf| && (Drops(m, Descriptors(m, c), |buf|) ==> |o.left| < |buf|)
    ensures o.error.None? ==> !Drops(m, Descriptors(m, c), |buf|)
    ensures o.error.None? ==> |Found(o.m.data, Addrs(SlicesOf(Descriptors(m, c))), o.sent)| + |o.left| == |buf|
  {
    DeliverIsPour(m, c, buf);
    PourDrops(m, Descriptors(m, c), buf, o);
    if o.error.None? {
      ReceivedIsSent(m, c, buf, o);
    } else {
      DeliverConserves(m, c, buf, o);
      SuffixIsShorter(buf, o.left);
    }
  }

  lemma SuffixIsShorter(s: seq<u8>, t: seq<u8>)
    requires |t| <= |s| && t == s[|s| - |t|..]
    ensures t != s ==> |t| < |s|
  {
  }

  lemma {:induction false} RunGainsNothing(buf: seq<u8>, capacity: nat, calls: seq<Call>)
    requires forall call :: call in calls ==> Placed(call)
    ensures var t := Run(buf, capacity, calls);
            && |t.arrived| + |t.left| <= |buf| + |t.accepted|
            && (!Lossless(buf, capacity, calls) ==> |t.arrived| + |t.left| < |buf| + |t.accepted|)
    decreases |calls|
  {
    if calls != [] {
      CallGainsNothing(buf, capacity, calls[0]);
      RunGainsNothing(BufferAfter(buf, capacity, calls[0]), capacity, calls[1..]);
    }
  }

  /** First in, first out: what arrived, followed by what is still buffered, is what was accepted,
      exactly when no call of the run loses data. */
  lemma RunConserves(buf: seq<u8>, capacity: nat, calls: seq<Call>)
    requires forall call :: call in calls ==> Placed(call)
    ensures var t := Run(buf, capacity, calls);
            buf + t.accepted == t.arrived + t.left <==> Lossless(buf, capacity, calls)
  {
    if Lossless(buf, capacity, calls) {
      LosslessConserves(buf, capacity, calls);
    } else {
      RunGainsNothing(buf, capacity, calls);
    }
  }

  lemma {:induction false} LosslessConserves(buf: seq<u8>, capacity: nat, calls: seq<Call>)
    requires Lossless(buf, capacity, calls) && forall call :: call in calls ==> Placed(call)
    ensures var t := Run(buf, capacity, calls); buf + t.accepted == t.arrived + t.left
    decreases |calls|
  {
    if calls == [] {
      assert buf + [] == [] + buf;
    } else {
      var buf' := BufferAfter(buf, capacity, calls[0]);
      assert Placed(calls[0]);
      CallConserves(buf, capacity, calls[0]);
      LosslessConserves(buf', capacity, calls[1..]);
      var t := Run(buf', capacity, calls[1..]);
      Regroup(buf, Accepted(buf, capacity, calls[0]), t.accepted, Arrived(buf, calls[0]), buf', t.arrived, t.left);
    }
  }

  lemma Regroup(b: seq<u8>, x: seq<u8>, xs: seq<u8>, y: seq<u8>, b': seq<u8>, ys: seq<u8>, left: seq<u8>)
    requires b + x == y + b' && b' + xs == ys + left
    ensures b + (x + xs) == (y + ys) + left
  {
    assert b + (x + xs) == (b + x) + xs == y + (b' + xs);
    assert (y + ys) + left == y + (ys + left);
  }

  /** No call, failing or not, lets the buffer outgrow its capacity. */
  lemma {:induction false} RunKeepsCapacity(buf: seq<u8>, capacity: nat, calls: seq<Call>)
    requires |buf| <= capacity
    ensures |Run(buf, capacity, calls).left| <= capacity
    decreases |calls|
  {
    if calls != [] {
      if calls[0].Receive? {
        DeliverConserves(calls[0].m, calls[0].c, buf, Deliver(calls[0].m, calls[0].c, buf));
      }
      RunKeepsCapacity(BufferAfter(buf, capacity, calls[0]), capacity, calls[1..]);
    }
  }

  // ---- The device ---------------------------------------------------------------------------------------

  class Device {
    var buffer: seq<u8>
    const capacity: nat

    predicate Valid()
      reads this
    {
      0 < capacity <= MAX_CAPACITY && |buffer| <= capacity
    }

    constructor (capacity: nat)
      requires 0 < capacity <= MAX_CAPACITY
      ensures Valid() && buffer == [] && this.capacity == capacity
    {
      this.capacity, buffer := capacity, [];
    }

    static method NewWithCapacity(capacity: nat) returns (r: Result<Device, Error>)
      ensures r.Ok? <==> 1 <= capacity <= 16384
      ensures r.Ok? ==> fresh(r.value) && r.value.Valid() && r.value.buffer == [] && r.value.capacity == capacity
      ensures r.Err? ==> r.error == InvalidBufferCapacity
    {
      if capacity == 0 || capacity > MAX_CAPACITY {
        return Err(InvalidBufferCapacity);
      }
      var d := new Device(capacity);
      r := Ok(d);
    }

    method EnqueueData(data: seq<u8>) returns (r: Result<(), Error>)
      requires Valid()
      modifies this
      ensures Valid() && buffer == BufferAfter(old(buffer), capacity, Enqueue(data))
      ensures r == if |old(buffer)| + |data| <= capacity then Ok(()) else Err(BufferCapacityExceeded)
    {
      if |buffer| + |data| > capacity {
        return Err(BufferCapacityExceeded);
      }
      buffer := buffer + data;
      return Ok(());
    }

    /** The capacity that is left; data of that length is still accepted. */
    method AvailableCapacity() returns (n: nat)
      requires Valid()
      ensures forall data: seq<u8> :: |data| <= n <==> |Enqueued(buffer, capacity, data)| == |buffer| + |data|
    {
      n := capacity - |buffer|;
    }

    method ClearInputBuffer()
      requires Valid()
      modifies this
      ensures Valid() && buffer == BufferAfter(old(buffer), capacity, Clear)
    {
      buffer := [];
    }

    /** Moves as much of the buffer as `d` can take to guest memory. */
    method SendChunk(ram: GuestRam, d: Descriptor) returns (ok: bool, n: nat)
      requires Valid()
      modifies this, ram
      ensures Valid() && n == Min(d.len, |old(buffer)|) && buffer == old(buffer)[n..]
      ensures ok == Accessible(old(ram.m), d.addr, n)
      ensures ok ==> ram.m == Stored(old(ram.m), d.addr, old(buffer)[..n])
      ensures !ok ==> ram.m == Written(old(ram.m), d.addr, old(buffer)[..n])
    {
      n := Min(d.len, |buffer|);
      var bytes := buffer[..n];
      if Accessible(ram.m, d.addr, n) {
        WrittenInFull(ram.m, d.addr, bytes);
      }
      buffer := buffer[n..];
      ok := ram.WriteSlice(d.addr, bytes);
    }

    /** `process_receiveq_chain`. */
    method ProcessReceiveqChain(chain: DescriptorChain) returns (r: Result<nat, Error>)
      requires Valid()
      modifies this, chain, chain.ram
      ensures Valid()
      ensures var o := Deliver(old(chain.ram.m), old(chain.State()), old(buffer));
              chain.ram.m == o.m && buffer == o.left && Returns(o, r)
    {
      ghost var all := Deliver(chain.ram.m, chain.State(), buffer);
      if buffer == [] {
        return Ok(0);
      }
      var sent := 0;
      while true
        invariant Valid() && buffer != []
        invariant Remains(all, sent, chain.ram.m, chain.State(), buffer)
        decreases Rank(chain.State())
      {
        ghost var m, c, buf := chain.ram.m, chain.State(), buffer;
        var d := chain.Next();
        ghost var c' := chain.State();
        DeliverStops(all, sent, m, c, buf, d);
        if d.None? {
          break;
        }
        if !d.value.WriteOnly() {
          return Err(UnexpectedReadOnlyDescriptor);
        }
        var ok, n := SendChunk(chain.ram, d.value);
        if !ok {
          return Err(WriteToGuestFailed);
        }
        DeliverGoesOn(all, sent, m, c, buf, c', d.value, n, chain.ram.m, buffer);
        sent := sent + n;
        if buffer == [] {
          break;
        }
      }
      r := Ok(sent);
    }
  }

  /** After `sent` bytes, the rest of the call is to deliver `buf` along the walk `c`. */
  ghost predicate Remains(all: Outcome, sent: nat, m: Mem, c: Walk, buf: seq<u8>) {
    all == Plus(sent, Deliver(m, c, buf))
  }

  lemma DeliverStops(all: Outcome, sent: nat, m: Mem, c: Walk, buf: seq<u8>, d: Option<Descriptor>)
    requires buf != [] && Remains(all, sent, m, c, buf) && d == Advance(m, c).1
    ensures d.None? ==> all == Outcome(m, buf, sent, None)
    ensures d.Some? && !d.value.WriteOnly() ==> all == Outcome(m, buf, sent, Some(UnexpectedReadOnlyDescriptor))
    ensures d.Some? && d.value.WriteOnly() && !Accessible(m, d.value.addr, Min(d.value.len, |buf|)) ==>
              var n := Min(d.value.len, |buf|);
              all == Outcome(Written(m, d.value.addr, buf[..n]), buf[n..], sent, Some(WriteToGuestFailed))
  {
  }

  lemma DeliverGoesOn(
    all: Outcome, sent: nat, m: Mem, c: Walk, buf: seq<u8>, c': Walk, d: Descriptor, n: nat, m': Mem, buf': seq<u8>)
    requires buf != [] && Remains(all, sent, m, c, buf) && (c', Some(d)) == Advance(m, c)
    requires d.WriteOnly() && n == Min(d.len, |buf|) && Accessible(m, d.addr, n)
    requires m' == Stored(m, d.addr, buf[..n]) && buf' == buf[n..]
    ensures Remains(all, sent + n, m', c', buf')
    ensures buf' == [] ==> all == Outcome(m', buf', sent + n, None)
  {
    assert Deliver(m, c, buf) == Plus(n, Deliver(m', c', buf'));
  }
}
