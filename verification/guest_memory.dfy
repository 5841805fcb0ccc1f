/**
 Guest memory as the device sees it: a byte per mapped address, cut into regions.
 An access to an unmapped address fails; nothing the device does maps or unmaps memory.
 */
module GuestMemory {
  import opened Words

  /** Addresses in `data` are mapped. A region is a run of mapped addresses that does not cross
      an address in `breaks`, where a new region starts. */
  datatype Mem = Mem(data: map<int, u8>, breaks: set<int>)

  predicate Mapped(d: map<int, u8>, a: int, n: int) {
    forall i :: a <= i < a + n ==> i in d
  }

  /** `n` bytes at `a` can be copied; the first address must be mapped even when `n == 0`. */
  predicate Accessible(m: Mem, a: int, n: int) {
    a in m.data && Mapped(m.data, a, n)
  }

  /** The range lies in the region that holds `a`: what atomic accesses and slices require. */
  predicate InOneRegion(m: Mem, a: int, n: int) {
    Accessible(m, a, n) && forall i :: a < i < a + n ==> i !in m.breaks
  }

  /** How many of the `n` bytes at `a` come before the first unmapped address. */
  function MappedPrefix(d: map<int, u8>, a: int, n: nat): (k: nat)
    ensures k <= n && Mapped(d, a, k)
    ensures k < n ==> a + k !in d
    decreases n
  {
    if n == 0 || a !in d then 0 else 1 + MappedPrefix(d, a + 1, n - 1)
  }

  /** Overwrites the mapped addresses among `a .. a + |bs|`. */
  function Put(d: map<int, u8>, a: int, bs: seq<u8>): (r: map<int, u8>)
    ensures r.Keys == d.Keys
    ensures forall i {:trigger r[i]} :: i in d ==> r[i] == if a <= i < a + |bs| then bs[i - a] else d[i]
  {
    map i | i in d :: if a <= i < a + |bs| then bs[i - a] else d[i]
  }

  /** The memory after `bs` is copied to `a`: everything before the first unmapped address. */
  function Written(m: Mem, a: int, bs: seq<u8>): (m': Mem)
    ensures m'.data.Keys == m.data.Keys && m'.breaks == m.breaks
  {
    m.(data := Put(m.data, a, bs[..MappedPrefix(m.data, a, |bs|)]))
  }

  /** The memory after `bs` is stored at `a`, all of it. */
  function Stored(m: Mem, a: int, bs: seq<u8>): (m': Mem)
    ensures m'.data.Keys == m.data.Keys && m'.breaks == m.breaks
  {
    m.(data := Put(m.data, a, bs))
  }

  lemma WrittenInFull(m: Mem, a: int, bs: seq<u8>)
    requires Accessible(m, a, |bs|)
    ensures Written(m, a, bs) == m.(data := Put(m.data, a, bs))
  {
    assert MappedPrefix(m.data, a, |bs|) == |bs|;
    assert bs[..|bs|] == bs;
  }

  function BytesAt(d: map<int, u8>, a: int, n: nat): (bs: seq<u8>)
    requires Mapped(d, a, n)
    ensures |bs| == n
  {
    seq(n, i requires 0 <= i < n => d[a + i])
  }

  // ---- Little-endian words --------------------------------------------------------------------

  function Le16(v: u16): (bs: seq<u8>)
    ensures |bs| == 2
  {
    [v % 256, v / 256]
  }

  function Le32(v: u32): (bs: seq<u8>)
    ensures |bs| == 4
  {
    Le16(v % TWO16) + Le16(v / TWO16)
  }

  function Le64(v: u64): (bs: seq<u8>)
    ensures |bs| == 8
  {
    Le32(v % TWO32) + Le32(v / TWO32)
  }

  function U16At(d: map<int, u8>, a: int): u16
    requires Mapped(d, a, 2)
  {
    d[a] as int + 256 * d[a + 1] as int
  }

  function U32At(d: map<int, u8>, a: int): u32
    requires Mapped(d, a, 4)
  {
    U16At(d, a) + TWO16 * U16At(d, a + 2)
  }

  function U64At(d: map<int, u8>, a: int): u64
    requires Mapped(d, a, 8)
  {
    U32At(d, a) + TWO32 * U32At(d, a + 4)
  }

  lemma StoredU16(d: map<int, u8>, a: int, v: u16)
    requires Mapped(d, a, 2)
    ensures U16At(Put(d, a, Le16(v)), a) == v
  {
  }

  function FromLe32(b0: u8, b1: u8, b2: u8, b3: u8): u32 {
    b0 as int + 256 * b1 as int + TWO16 * (b2 as int + 256 * b3 as int)
  }

  lemma Le32RoundTrip(v: u32)
    ensures var bs := Le32(v); FromLe32(bs[0], bs[1], bs[2], bs[3]) == v
  {
  }

  // ---- What the loads mean on bytes -----------------------------------------------------------

  /** The bytes `bs` are at `a`. */
  ghost predicate Stands(d: map<int, u8>, a: int, bs: seq<u8>) {
    Mapped(d, a, |bs|) && forall i :: 0 <= i < |bs| ==> d[a + i] == bs[i]
  }

  lemma StandsSplit(d: map<int, u8>, a: int, x: seq<u8>, y: seq<u8>)
    ensures Stands(d, a, x + y) <==> Stands(d, a, x) && Stands(d, a + |x|, y)
  {
    if Stands(d, a, x + y) {
      assert forall i :: 0 <= i < |x| ==> (x + y)[i] == x[i];
      forall i | 0 <= i < |y|
        ensures d[a + |x| + i] == y[i]
      {
        assert (x + y)[|x| + i] == y[i];
      }
    }
    if Stands(d, a, x) && Stands(d, a + |x|, y) {
      forall i | 0 <= i < |x + y|
        ensures a + i in d && d[a + i] == (x + y)[i]
      {
        if i >= |x| {
          assert d[a + |x| + (i - |x|)] == y[i - |x|];
        }
      }
    }
  }

  /** A load returns a value exactly when its little-endian bytes are there. */
  lemma LoadsU16(d: map<int, u8>, a: int, v: u16)
    requires Mapped(d, a, 2)
    ensures U16At(d, a) == v <==> Stands(d, a, Le16(v))
  {
    if Stands(d, a, Le16(v)) {
      assert d[a + 0] == Le16(v)[0] && d[a + 1] == Le16(v)[1];
    }
  }

  lemma LoadsU32(d: map<int, u8>, a: int, v: u32)
    requires Mapped(d, a, 4)
    ensures U32At(d, a) == v <==> Stands(d, a, Le32(v))
  {
    StandsSplit(d, a, Le16(v % TWO16), Le16(v / TWO16));
    LoadsU16(d, a, v % TWO16);
    LoadsU16(d, a + 2, v / TWO16);
  }

  lemma LoadsU64(d: map<int, u8>, a: int, v: u64)
    requires Mapped(d, a, 8)
    ensures U64At(d, a) == v <==> Stands(d, a, Le64(v))
  {
    StandsSplit(d, a, Le32(v % TWO32), Le32(v / TWO32));
    LoadsU32(d, a, v % TWO32);
    LoadsU32(d, a + 4, v / TWO32);
  }

  /** The byte at the lowest address is the least significant one, the byte at the highest the most. */
  lemma LowByteFirst(d: map<int, u8>, a: int)
    requires Mapped(d, a, 8)
    ensures U16At(d, a) % 256 == d[a] && U16At(d, a) / 256 == d[a + 1]
    ensures U32At(d, a) % 256 == d[a] && U32At(d, a) / 0x100_0000 == d[a + 3]
    ensures U64At(d, a) % 256 == d[a] && U64At(d, a) / 0x100_0000_0000_0000 == d[a + 7]
  {
  }

  /** `GuestMemory` shared by the driver and the device; every device write goes through here. */
  class GuestRam {
    var m: Mem

    constructor (m: Mem)
      ensures this.m == m
    {
      this.m := m;
    }

    /** Atomic 16-bit load. */
    method LoadU16(a: int) returns (r: Option<u16>)
      ensures r.Some? <==> InOneRegion(m, a, 2)
      ensures r.Some? ==> r.value == U16At(m.data, a)
    {
      if InOneRegion(m, a, 2) {
        r := Some(U16At(m.data, a));
      } else {
        r := None;
      }
    }

    /** Atomic 16-bit store. */
    method StoreU16(a: int, v: u16) returns (ok: bool)
      modifies this
      ensures ok == InOneRegion(old(m), a, 2)
      ensures m == if ok then old(m).(data := Put(old(m).data, a, Le16(v))) else old(m)
    {
      ok := InOneRegion(m, a, 2);
      if ok {
        m := m.(data := Put(m.data, a, Le16(v)));
      }
    }

    /** `write_slice` and `write_obj`: a failing write has still written the mapped prefix. */
    method WriteSlice(a: int, bs: seq<u8>) returns (ok: bool)
      modifies this
      ensures ok == Accessible(old(m), a, |bs|)
      ensures m == Written(old(m), a, bs)
    {
      ok := Accessible(m, a, |bs|);
      m := Written(m, a, bs);
    }
  }
}
