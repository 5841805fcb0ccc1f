/** Which bytes of guest memory a walk through a descriptor chain depends on. */
module ChainFrame {
  import opened Words
  import opened GuestMemory
  import opened ByteStream
  import opened Chain
  import opened DescriptorUtils

  /** Address `a` belongs to the descriptor that the walk reads next. */
  predicate InEntry(c: Walk, a: int) {
    c.table + DESCRIPTOR_SIZE * c.next <= a < c.table + DESCRIPTOR_SIZE * c.next + DESCRIPTOR_SIZE
  }

  /** Address `a` belongs to a descriptor that the walk reads, in either table. */
  predicate Reads(m: Mem, c: Walk, a: int)
    decreases Rank(c)
  {
    if c.ttl == 0 || c.next >= c.size then false
    else
      match Fetch(m, c.table, c.next)
      case None => InEntry(c, a)
      case Some(d) =>
        InEntry(c, a) ||
        if d.Indirect() then !c.indirect && TableLength(d) && Reads(m, Switched(c, d), a)
        else Advance(m, c).1.Some? && Reads(m, Advance(m, c).0, a)
  }

  /** Both memories map the same addresses and hold the same bytes wherever the walk reads. */
  ghost predicate Agree(m: Mem, m': Mem, c: Walk) {
    && m'.data.Keys == m.data.Keys
    && forall a {:trigger Reads(m, c, a)} :: Reads(m, c, a) && a in m.data ==> m'.data[a] == m.data[a]
  }

  lemma SameWords(d: map<int, u8>, d': map<int, u8>, a: int)
    requires Mapped(d, a, 16) && Mapped(d', a, 16) && forall i :: a <= i < a + 16 ==> d'[i] == d[i]
    ensures U64At(d', a) == U64At(d, a) && U32At(d', a + 8) == U32At(d, a + 8)
    ensures U16At(d', a + 12) == U16At(d, a + 12) && U16At(d', a + 14) == U16At(d, a + 14)
  {
  }

  lemma SameEntry(m: Mem, m': Mem, c: Walk)
    requires c.ttl > 0 && c.next < c.size && Agree(m, m', c)
    ensures Fetch(m', c.table, c.next) == Fetch(m, c.table, c.next)
  {
    var a := c.table + DESCRIPTOR_SIZE * c.next;
    if Mapped(m.data, a, 16) {
      forall i | a <= i < a + 16
        ensures m'.data[i] == m.data[i]
      {
        assert Reads(m, c, i);
      }
      SameWords(m.data, m'.data, a);
    }
  }

  /** What a walk reads after a step, it reads before it. */
  lemma {:induction false} ReadsLess(m: Mem, c: Walk, a: int)
    requires Advance(m, c).1.Some? && Reads(m, Advance(m, c).0, a)
    ensures Reads(m, c, a)
    decreases Rank(c)
  {
    var d := Fetch(m, c.table, c.next).value;
    if d.Indirect() {
      ReadsLess(m, Switched(c, d), a);
    }
  }

  lemma AgreeAfter(m: Mem, m': Mem, c: Walk)
    requires Agree(m, m', c) && Advance(m, c).1.Some?
    ensures Agree(m, m', Advance(m, c).0)
  {
    forall a | Reads(m, Advance(m, c).0, a) && a in m.data
      ensures m'.data[a] == m.data[a]
    {
      ReadsLess(m, c, a);
    }
  }

  lemma AgreeSwitched(m: Mem, m': Mem, c: Walk, d: Descriptor)
    requires c.ttl > 0 && c.next < c.size && Fetch(m, c.table, c.next) == Some(d)
    requires Agree(m, m', c) && d.Indirect() && !c.indirect && TableLength(d)
    ensures Agree(m, m', Switched(c, d))
  {
    forall a | Reads(m, Switched(c, d), a) && a in m.data
      ensures m'.data[a] == m.data[a]
    {
      assert Reads(m, c, a);
    }
  }

  lemma {:induction false} SameAdvance(m: Mem, m': Mem, c: Walk)
    requires Agree(m, m', c)
    ensures Advance(m', c) == Advance(m, c)
    decreases Rank(c)
  {
    if c.ttl > 0 && c.next < c.size {
      SameEntry(m, m', c);
      var d := Fetch(m, c.table, c.next);
      if d.Some? && d.value.Indirect() && !c.indirect && TableLength(d.value) {
        AgreeSwitched(m, m', c, d.value);
        SameAdvance(m, m', Switched(c, d.value));
      }
    }
  }

  lemma {:induction false} SameReads(m: Mem, m': Mem, c: Walk, a: int)
    requires Agree(m, m', c)
    ensures Reads(m', c, a) == Reads(m, c, a)
    decreases Rank(c)
  {
    if c.ttl > 0 && c.next < c.size {
      SameEntry(m, m', c);
      SameAdvance(m, m', c);
      var d := Fetch(m, c.table, c.next);
      if d.Some? && d.value.Indirect() {
        if !c.indirect && TableLength(d.value) {
          AgreeSwitched(m, m', c, d.value);
          SameReads(m, m', Switched(c, d.value), a);
        }
      } else if Advance(m, c).1.Some? {
        AgreeAfter(m, m', c);
        SameReads(m, m', Advance(m, c).0, a);
      }
    }
  }

  /** A change of memory outside what the walk reads does not change the chain. */
  lemma {:induction false} SameChain(m: Mem, m': Mem, c: Walk)
    requires Agree(m, m', c)
    ensures Descriptors(m', c) == Descriptors(m, c)
    decreases Rank(c)
  {
    AdvanceTakesFirst(m, c);
    AdvanceTakesFirst(m', c);
    SameAdvance(m, m', c);
    if Advance(m, c).1.Some? {
      AgreeAfter(m, m', c);
      SameChain(m, m', Advance(m, c).0);
    }
  }

  /** No buffer of the chain overlaps a descriptor that the walk reads. */
  ghost predicate Apart(m: Mem, c: Walk) {
    forall a {:trigger Reads(m, c, a)} :: Reads(m, c, a) ==> a !in Addrs(SlicesOf(Descriptors(m, c)))
  }

  /** The buffer of the first descriptor comes first in the stream. */
  lemma FirstBuffer(d: Descriptor, ds: seq<Descriptor>)
    ensures Addrs(SlicesOf([d] + ds)) == Range(d.addr, d.len) + Addrs(SlicesOf(ds))
  {
    assert SlicesOf([d] + ds)[1..] == SlicesOf(ds);
  }

  /** A write into the buffer just taken changes nothing that the rest of the walk reads. */
  lemma WriteAgrees(m: Mem, c: Walk, bs: seq<u8>)
    requires Apart(m, c) && Advance(m, c).1.Some? && |bs| <= Advance(m, c).1.value.len
    ensures Agree(m, Stored(m, Advance(m, c).1.value.addr, bs), Advance(m, c).0)
  {
    var (c', d) := Advance(m, c);
    AdvanceTakesFirst(m, c);
    FirstBuffer(d.value, Descriptors(m, c'));
    forall a | Reads(m, c', a) && a in m.data
      ensures Stored(m, d.value.addr, bs).data[a] == m.data[a]
    {
      ReadsLess(m, c, a);
      RangeComesFirst(a, d.value.addr, d.value.len, Addrs(SlicesOf(Descriptors(m, c'))));
    }
  }

  lemma RangeComesFirst(a: int, base: int, n: nat, rest: seq<int>)
    ensures base <= a < base + n ==> a in Range(base, n) + rest
  {
    if base <= a < base + n {
      assert (Range(base, n) + rest)[a - base] == a;
    }
  }

  /** The rest of a chain, and its separation, survive a write into the buffer just taken. */
  lemma WriteKeepsRest(m: Mem, c: Walk, bs: seq<u8>)
    requires Apart(m, c) && Advance(m, c).1.Some? && |bs| <= Advance(m, c).1.value.len
    ensures Apart(Stored(m, Advance(m, c).1.value.addr, bs), Advance(m, c).0)
    ensures Descriptors(Stored(m, Advance(m, c).1.value.addr, bs), Advance(m, c).0) == Descriptors(m, Advance(m, c).0)
  {
    var (c', d) := Advance(m, c);
    var m' := Stored(m, d.value.addr, bs);
    WriteAgrees(m, c, bs);
    SameChain(m, m', c');
    AdvanceTakesFirst(m, c);
    FirstBuffer(d.value, Descriptors(m, c'));
    forall a | Reads(m', c', a)
      ensures a !in Addrs(SlicesOf(Descriptors(m', c')))
    {
      SameReads(m, m', c', a);
      ReadsLess(m, c, a);
    }
  }
}
