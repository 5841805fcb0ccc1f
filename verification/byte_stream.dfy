/** A list of buffers in guest memory as one flat sequence of addresses. */
module ByteStream {
  import opened Words
  import opened GuestMemory

  /** A buffer: `len` bytes at `addr`. */
  datatype Slice = Slice(addr: int, len: nat)

  function Range(a: int, n: nat): (r: seq<int>)
    ensures |r| == n
  {
    seq(n, i => a + i)
  }

  /** The addresses of a list of buffers, in stream order. */
  function Addrs(bufs: seq<Slice>): seq<int> {
    if bufs == [] then [] else Range(bufs[0].addr, bufs[0].len) + Addrs(bufs[1..])
  }

  /** The number of bytes in a list of buffers. */
  function Total(bufs: seq<Slice>): nat {
    if bufs == [] then 0 else bufs[0].len + Total(bufs[1..])
  }

  lemma {:induction false} TotalIsLength(bufs: seq<Slice>)
    ensures Total(bufs) == |Addrs(bufs)|
    decreases |bufs|
  {
    if bufs != [] {
      TotalIsLength(bufs[1..]);
    }
  }

  predicate AllMapped(d: map<int, u8>, addrs: seq<int>) {
    forall i :: 0 <= i < |addrs| ==> addrs[i] in d
  }

  predicate Distinct(addrs: seq<int>) {
    forall i, j :: 0 <= i < j < |addrs| ==> addrs[i] != addrs[j]
  }

  /** The bytes at a sequence of addresses. */
  function Gather(d: map<int, u8>, addrs: seq<int>): (bs: seq<u8>)
    requires AllMapped(d, addrs)
    ensures |bs| == |addrs|
  {
    seq(|addrs|, i requires 0 <= i < |addrs| => d[addrs[i]])
  }

  /** Where `a` occurs last in `addrs`, or -1. */
  function LastAt(addrs: seq<int>, a: int): (i: int)
    ensures -1 <= i < |addrs| && (i >= 0 ==> addrs[i] == a)
    ensures forall j :: i < j < |addrs| ==> addrs[j] != a
    decreases |addrs|
  {
    if addrs == [] then -1
    else if addrs[|addrs| - 1] == a then |addrs| - 1
    else LastAt(addrs[..|addrs| - 1], a)
  }

  /** Memory after `bs[0]`, `bs[1]`, ... are stored at `addrs[0]`, `addrs[1]`, ... in turn: of several
      stores to one address the last one counts. */
  function Scatter(d: map<int, u8>, addrs: seq<int>, bs: seq<u8>): (r: map<int, u8>)
    requires |addrs| == |bs|
    ensures r.Keys == d.Keys
    ensures forall a {:trigger r[a]} :: a in d && a !in addrs ==> r[a] == d[a]
  {
    map a | a in d :: if LastAt(addrs, a) >= 0 then bs[LastAt(addrs, a)] else d[a]
  }

  lemma LastInSum(a1: seq<int>, a2: seq<int>, x: int)
    ensures LastAt(a1 + a2, x) == if LastAt(a2, x) >= 0 then |a1| + LastAt(a2, x) else LastAt(a1, x)
  {
    assert forall j :: 0 <= j < |a1| ==> (a1 + a2)[j] == a1[j];
    assert forall j :: 0 <= j < |a2| ==> (a1 + a2)[|a1| + j] == a2[j];
  }

  lemma GatherSplit(d: map<int, u8>, a: seq<int>, b: seq<int>)
    requires AllMapped(d, a + b)
    ensures AllMapped(d, a) && AllMapped(d, b)
    ensures Gather(d, a + b) == Gather(d, a) + Gather(d, b)
  {
    assert forall i :: 0 <= i < |a| ==> (a + b)[i] == a[i];
    assert forall i :: 0 <= i < |b| ==> (a + b)[|a| + i] == b[i];
  }

  lemma {:induction false} AddrsSplit(a: seq<Slice>, b: seq<Slice>)
    ensures Addrs(a + b) == Addrs(a) + Addrs(b)
    decreases |a|
  {
    if a == [] {
      assert a + b == b;
    } else {
      assert (a + b)[1..] == a[1..] + b;
      AddrsSplit(a[1..], b);
    }
  }

  lemma RangeSplit(a: int, n: nat, k: nat)
    requires k <= n
    ensures Range(a, n) == Range(a, k) + Range(a + k, n - k)
  {
  }

  lemma SplitByte(d: map<int, u8>, a1: seq<int>, b1: seq<u8>, a2: seq<int>, b2: seq<u8>, x: int)
    requires |a1| == |b1| && |a2| == |b2| && x in d
    ensures Scatter(d, a1 + a2, b1 + b2)[x] == Scatter(Scatter(d, a1, b1), a2, b2)[x]
  {
    LastInSum(a1, a2, x);
  }

  lemma ScatterSplit(d: map<int, u8>, a1: seq<int>, b1: seq<u8>, a2: seq<int>, b2: seq<u8>)
    requires |a1| == |b1| && |a2| == |b2|
    ensures Scatter(d, a1 + a2, b1 + b2) == Scatter(Scatter(d, a1, b1), a2, b2)
  {
    var l, r := Scatter(d, a1 + a2, b1 + b2), Scatter(Scatter(d, a1, b1), a2, b2);
    forall x | x in d
      ensures l[x] == r[x]
    {
      SplitByte(d, a1, b1, a2, b2, x);
    }
  }

  lemma LastInRange(a: int, n: nat, x: int)
    ensures LastAt(Range(a, n), x) == if a <= x < a + n then x - a else -1
  {
    if a <= x < a + n {
      assert Range(a, n)[x - a] == x;
    }
  }

  /** Storing one byte more is a store after all the others. */
  lemma ScatterOne(d: map<int, u8>, addrs: seq<int>, bs: seq<u8>, a: int, b: u8)
    requires |addrs| == |bs|
    ensures Scatter(d, addrs + [a], bs + [b]) == Put(Scatter(d, addrs, bs), a, [b])
  {
    ScatterSplit(d, addrs, bs, [a], [b]);
    ScatterRange(Scatter(d, addrs, bs), a, [b]);
    assert Range(a, 1) == [a];
  }

  /** Writing one buffer is one contiguous copy. */
  lemma ScatterRange(d: map<int, u8>, a: int, bs: seq<u8>)
    ensures Scatter(d, Range(a, |bs|), bs) == Put(d, a, bs)
  {
    var l, r := Scatter(d, Range(a, |bs|), bs), Put(d, a, bs);
    forall x | x in d
      ensures l[x] == r[x]
    {
      LastInRange(a, |bs|, x);
    }
  }

  /** Bytes stored at distinct addresses read back as they were. */
  lemma {:induction false} GatherScattered(d: map<int, u8>, addrs: seq<int>, bs: seq<u8>)
    requires |addrs| == |bs| && Distinct(addrs) && AllMapped(d, addrs)
    ensures Gather(Scatter(d, addrs, bs), addrs) == bs
  {
    var r := Gather(Scatter(d, addrs, bs), addrs);
    forall i | 0 <= i < |addrs|
      ensures r[i] == bs[i]
    {
      assert LastAt(addrs, addrs[i]) == i;
    }
  }

  /** Bytes stored at other addresses do not change what is read. */
  lemma GatherUnaffected(d: map<int, u8>, d': map<int, u8>, addrs: seq<int>)
    requires AllMapped(d, addrs) && d'.Keys == d.Keys
    requires forall i :: 0 <= i < |addrs| ==> d'[addrs[i]] == d[addrs[i]]
    ensures Gather(d', addrs) == Gather(d, addrs)
  {
  }

  /** A prefix of a stream is overwritten, the rest stays. */
  lemma GatherAfterPrefix(d: map<int, u8>, addrs: seq<int>, n: nat, bs: seq<u8>)
    requires AllMapped(d, addrs) && Distinct(addrs) && n <= |addrs| && |bs| == n
    ensures Gather(Scatter(d, addrs[..n], bs), addrs) == bs + Gather(d, addrs)[n..]
  {
    var d' := Scatter(d, addrs[..n], bs);
    assert addrs == addrs[..n] + addrs[n..];
    GatherSplit(d, addrs[..n], addrs[n..]);
    GatherSplit(d', addrs[..n], addrs[n..]);
    GatherScattered(d, addrs[..n], bs);
    forall i | 0 <= i < |addrs[n..]|
      ensures d'[addrs[n..][i]] == d[addrs[n..][i]]
    {
      assert addrs[n + i] !in addrs[..n];
    }
    GatherUnaffected(d, d', addrs[n..]);
  }

  // ---- Going through the stream buffer by buffer ------------------------------------------------------

  lemma AddrsOfOne(s: Slice)
    ensures Addrs([s]) == Range(s.addr, s.len)
  {
    assert [s][1..] == [];
  }

  lemma AddrsUpToAll(bufs: seq<Slice>, k: nat)
    requires k <= |bufs|
    ensures Addrs(bufs) == Addrs(bufs[..k]) + Addrs(bufs[k..])
  {
    assert bufs == bufs[..k] + bufs[k..];
    AddrsSplit(bufs[..k], bufs[k..]);
  }

  lemma AddrsFrom(bufs: seq<Slice>, k: nat)
    requires k < |bufs|
    ensures Addrs(bufs[k..]) == Range(bufs[k].addr, bufs[k].len) + Addrs(bufs[k + 1..])
  {
    assert bufs[k..][1..] == bufs[k + 1..];
  }

  lemma AddrsPush(bufs: seq<Slice>, s: Slice)
    ensures Addrs(bufs + [s]) == Addrs(bufs) + Range(s.addr, s.len)
  {
    AddrsSplit(bufs, [s]);
    AddrsOfOne(s);
  }

  /** The addresses of the buffers before the `k`-th, and one more buffer. */
  lemma AddrsUpTo(bufs: seq<Slice>, k: nat)
    requires k < |bufs|
    ensures Addrs(bufs[..k + 1]) == Addrs(bufs[..k]) + Range(bufs[k].addr, bufs[k].len)
    ensures Addrs(bufs) == Addrs(bufs[..k]) + Addrs(bufs[k..])
    ensures Addrs(bufs[k..]) == Range(bufs[k].addr, bufs[k].len) + Addrs(bufs[k + 1..])
  {
    assert bufs[..k + 1] == bufs[..k] + [bufs[k]];
    AddrsPush(bufs[..k], bufs[k]);
    AddrsUpToAll(bufs, k);
    AddrsFrom(bufs, k);
  }

  /** Byte `k` of buffer `i` follows all bytes of the buffers before it. */
  lemma StreamByte(bufs: seq<Slice>, addrs: seq<int>, i: nat, k: nat, at: nat)
    requires addrs == Addrs(bufs) && i < |bufs| && k < bufs[i].len && at == Total(bufs[..i])
    ensures at + k < |addrs| == Total(bufs) && addrs[at + k] == bufs[i].addr + k
  {
    TotalIsLength(bufs);
    TotalIsLength(bufs[..i]);
    AddrsUpTo(bufs, i);
  }

  /** Buffer `i` of `bufs` starts at position `at` of their stream `addrs`. */
  ghost predicate Cursor(bufs: seq<Slice>, addrs: seq<int>, i: nat, at: nat) {
    addrs == Addrs(bufs) && i <= |bufs| && at == |Addrs(bufs[..i])|
  }

  lemma CursorStart(bufs: seq<Slice>, addrs: seq<int>)
    requires addrs == Addrs(bufs)
    ensures Cursor(bufs, addrs, 0, 0)
  {
    assert bufs[..0] == [];
  }

  lemma CursorNext(bufs: seq<Slice>, addrs: seq<int>, i: nat, at: nat, t: nat)
    requires Cursor(bufs, addrs, i, at) && i < |bufs| && t == at + bufs[i].len
    ensures Cursor(bufs, addrs, i + 1, t) && t <= |addrs|
  {
    AddrsUpTo(bufs, i);
  }

  lemma CursorEnd(bufs: seq<Slice>, addrs: seq<int>, at: nat)
    requires Cursor(bufs, addrs, |bufs|, at)
    ensures at == |addrs|
  {
    assert bufs[..|bufs|] == bufs;
  }

  /** The first `c` bytes of a buffer are consecutive addresses of the stream. */
  lemma CursorSlice(bufs: seq<Slice>, addrs: seq<int>, i: nat, at: nat, c: nat, t: nat)
    requires Cursor(bufs, addrs, i, at) && i < |bufs| && c <= bufs[i].len && t == at + c
    ensures t <= |addrs| && addrs[at..t] == Range(bufs[i].addr, c)
  {
    AddrsUpTo(bufs, i);
    RangeSplit(bufs[i].addr, bufs[i].len, c);
  }

  lemma SliceBytes(d: map<int, u8>, addrs: seq<int>, n: nat, a: int, c: nat, t: nat)
    requires AllMapped(d, addrs) && t == n + c <= |addrs| && addrs[n..t] == Range(a, c)
    ensures Mapped(d, a, c) && BytesAt(d, a, c) == Gather(d, addrs)[n..t]
  {
    forall i | a <= i < a + c
      ensures i in d
    {
      assert addrs[n + (i - a)] == addrs[n..t][i - a] == i;
    }
    forall j | 0 <= j < c
      ensures BytesAt(d, a, c)[j] == Gather(d, addrs)[n..t][j]
    {
      assert addrs[n + j] == addrs[n..t][j] == a + j;
    }
  }

  /** A prefix of a stream and the buffer that follows it are written one after the other. */
  lemma ScatterMore(d: map<int, u8>, addrs: seq<int>, bs: seq<u8>, n: nat, a: int, c: nat, t: nat)
    requires t == n + c <= |addrs| && t <= |bs|
    requires c > 0 ==> addrs[n..t] == Range(a, c)
    ensures Put(Scatter(d, addrs[..n], bs[..n]), a, bs[n..t]) == Scatter(d, addrs[..t], bs[..t])
  {
    if c == 0 {
      assert Put(Scatter(d, addrs[..n], bs[..n]), a, []) == Scatter(d, addrs[..n], bs[..n]);
    } else {
      ScatterSplit(d, addrs[..n], bs[..n], addrs[n..t], bs[n..t]);
      ScatterRange(Scatter(d, addrs[..n], bs[..n]), a, bs[n..t]);
      assert addrs[..t] == addrs[..n] + addrs[n..t];
      assert bs[..t] == bs[..n] + bs[n..t];
    }
  }

  lemma GatherMore(d: map<int, u8>, addrs: seq<int>, n: nat, a: int, c: nat, t: nat)
    requires t == n + c <= |addrs| && addrs[n..t] == Range(a, c)
    requires AllMapped(d, addrs[..n]) && Mapped(d, a, c)
    ensures AllMapped(d, addrs[..t])
    ensures Gather(d, addrs[..t]) == Gather(d, addrs[..n]) + BytesAt(d, a, c)
  {
    assert addrs[..t] == addrs[..n] + Range(a, c);
    assert AllMapped(d, Range(a, c)) && Gather(d, Range(a, c)) == BytesAt(d, a, c);
    assert AllMapped(d, addrs[..n] + Range(a, c));
    GatherSplit(d, addrs[..n], Range(a, c));
  }
}
