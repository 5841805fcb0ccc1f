/** Walking a descriptor chain through memory that the driver controls. */
module Chain {
  import opened Words
  import opened GuestMemory

  const DESCRIPTOR_SIZE: int := 16

  datatype Descriptor = Descriptor(addr: u64, len: u32, flags: u16, next: u16) {
    predicate HasNext() { flags % 2 == 1 }
    predicate WriteOnly() { (flags / 2) % 2 == 1 }
    predicate Indirect() { (flags / 4) % 2 == 1 }
  }

  /** The `index`-th descriptor of the table at `table`, if it can be read. */
  function Fetch(m: Mem, table: u64, index: u16): Option<Descriptor> {
    var a := table + DESCRIPTOR_SIZE * index;
    if a < TWO64 && Accessible(m, a, 16) then
      Some(Descriptor(U64At(m.data, a), U32At(m.data, a + 8), U16At(m.data, a + 12), U16At(m.data, a + 14)))
    else
      None
  }

  /** The layout of a descriptor: a 64-bit address, a 32-bit length, flags and the next index. */
  function DescriptorBytes(d: Descriptor): (bs: seq<u8>)
    ensures |bs| == 16
  {
    Le64(d.addr) + (Le32(d.len) + (Le16(d.flags) + Le16(d.next)))
  }

  /** The table at `table` has `d` as its `index`-th entry. */
  ghost predicate HasEntry(m: Mem, table: u64, index: u16, d: Descriptor) {
    var a := table + DESCRIPTOR_SIZE * index;
    a < TWO64 && Stands(m.data, a, DescriptorBytes(d))
  }

  /** A descriptor is fetched exactly when its bytes are in the table. */
  lemma FetchDecodes(m: Mem, table: u64, index: u16, d: Descriptor)
    ensures Fetch(m, table, index) == Some(d) <==> HasEntry(m, table, index, d)
  {
    var a := table + DESCRIPTOR_SIZE * index;
    if Accessible(m, a, 16) {
      EntryDecodes(m.data, a, d);
    }
  }

  lemma EntryDecodes(m: map<int, u8>, a: int, d: Descriptor)
    requires Mapped(m, a, 16)
    ensures Stands(m, a, DescriptorBytes(d)) <==>
            && U64At(m, a) == d.addr && U32At(m, a + 8) == d.len
            && U16At(m, a + 12) == d.flags && U16At(m, a + 14) == d.next
  {
    var tail := Le16(d.flags) + Le16(d.next);
    StandsSplit(m, a, Le64(d.addr), Le32(d.len) + tail);
    StandsSplit(m, a + 8, Le32(d.len), tail);
    StandsSplit(m, a + 12, Le16(d.flags), Le16(d.next));
    LoadsU64(m, a, d.addr);
    LoadsU32(m, a + 8, d.len);
    LoadsU16(m, a + 12, d.flags);
    LoadsU16(m, a + 14, d.next);
  }

  /** The flags: bit 0 says that a descriptor follows, bit 1 that the device may only write the buffer,
      bit 2 that the buffer is a table; the other bits do not matter. */
  lemma FlagBits(d: Descriptor, next: bool, write: bool, indirect: bool, rest: nat)
    requires d.flags == (if next then 1 else 0) + (if write then 2 else 0) + (if indirect then 4 else 0) + 8 * rest
    ensures d.HasNext() == next && d.WriteOnly() == write && d.Indirect() == indirect
  {
  }

  /** The fields of a `DescriptorChain` that change while it is walked. */
  datatype Walk = Walk(table: u64, size: u16, next: u16, ttl: u16, yielded: u32, indirect: bool)

  function Fresh(table: u64, size: u16, head: u16): Walk {
    Walk(table, size, head, size, 0, false)
  }

  predicate TableLength(d: Descriptor) {
    d.len % DESCRIPTOR_SIZE == 0 && d.len / DESCRIPTOR_SIZE < TWO16
  }

  /** The walk after switching to the indirect table that `d` names. */
  function Switched(c: Walk, d: Descriptor): Walk
    requires TableLength(d)
  {
    Walk(d.addr, d.len / DESCRIPTOR_SIZE, 0, d.len / DESCRIPTOR_SIZE, c.yielded, true)
  }

  /** Every descriptor that is returned lowers the rank of the walk, whatever memory holds. */
  function Rank(c: Walk): nat { (if c.indirect then 0 else TWO16) + c.ttl }

  /** One call of `next`: the new walk, and what it returns. */
  function Advance(m: Mem, c: Walk): (r: (Walk, Option<Descriptor>))
    ensures r.1.Some? ==> Rank(r.0) < Rank(c)
    decreases !c.indirect
  {
    if c.ttl == 0 || c.next >= c.size then (c, None)
    else
      match Fetch(m, c.table, c.next)
      case None => (c, None)
      case Some(d) =>
        if d.Indirect() then
          if c.indirect || !TableLength(d) then (c, None) else Advance(m, Switched(c, d))
        else if c.yielded + d.len >= TWO32 then (c, None)
        else if d.HasNext() then (c.(next := d.next, ttl := c.ttl - 1, yielded := c.yielded + d.len), Some(d))
        else (c.(ttl := 0, yielded := c.yielded + d.len), Some(d))
  }

  /** What is returned is an entry of the table that is then current, in its bounds and not a table. */
  lemma {:induction false} AdvanceReturnsEntry(m: Mem, c: Walk)
    requires Advance(m, c).1.Some?
    ensures var (c', d) := Advance(m, c);
            var index := if c'.indirect == c.indirect then c.next else 0;
            && (c'.indirect == c.indirect ==> c'.table == c.table && c'.size == c.size)
            && index < c'.size && HasEntry(m, c'.table, index, d.value) && !d.value.Indirect()
    decreases !c.indirect
  {
    var d := Fetch(m, c.table, c.next).value;
    FetchDecodes(m, c.table, c.next, d);
    if d.Indirect() {
      AdvanceReturnsEntry(m, Switched(c, d));
    }
  }

  // ---- What a chain is ------------------------------------------------------------------------------

  function SumLen(ds: seq<Descriptor>): nat {
    if ds == [] then 0 else ds[0].len + SumLen(ds[1..])
  }

  lemma {:induction false} SumLenSplit(a: seq<Descriptor>, b: seq<Descriptor>)
    ensures SumLen(a + b) == SumLen(a) + SumLen(b)
    decreases |a|
  {
    if a == [] {
      assert a + b == b;
    } else {
      assert (a + b)[1..] == a[1..] + b;
      SumLenSplit(a[1..], b);
    }
  }

  /** The linked list inside one table: its descriptors, and the indirect descriptor that cuts it
      short, if there is one. At most `ttl` descriptors and fewer than 2^32 bytes in all. */
  datatype Linked = Linked(ds: seq<Descriptor>, jump: Option<Descriptor>)

  function List(m: Mem, table: u64, size: u16, index: u16, ttl: nat, yielded: nat): Linked
    decreases ttl
  {
    if ttl == 0 || index >= size then Linked([], None)
    else
      match Fetch(m, table, index)
      case None => Linked([], None)
      case Some(d) =>
        if d.Indirect() then Linked([], Some(d))
        else if yielded + d.len >= TWO32 then Linked([], None)
        else if !d.HasNext() then Linked([d], None)
        else
          var rest := List(m, table, size, d.next, ttl - 1, yielded + d.len);
          rest.(ds := [d] + rest.ds)
  }

  /** A list in a first table, followed by the table that it jumps to, if it may. */
  function Followed(m: Mem, first: Linked, indirect: bool, yielded: nat): seq<Descriptor> {
    if !indirect && first.jump.Some? && TableLength(first.jump.value) then
      var t := first.jump.value;
      var n := t.len / DESCRIPTOR_SIZE;
      first.ds + List(m, t.addr, n, 0, n, yielded + SumLen(first.ds)).ds
    else
      first.ds
  }

  /** The descriptors of a chain: the list in the first table, then at most one indirect table. */
  function Descriptors(m: Mem, c: Walk): seq<Descriptor> {
    Followed(m, List(m, c.table, c.size, c.next, c.ttl, c.yielded), c.indirect, c.yielded)
  }

  lemma ListStep(m: Mem, c: Walk, d: Descriptor)
    requires c.ttl > 0 && c.next < c.size && Fetch(m, c.table, c.next) == Some(d)
    requires !d.Indirect() && c.yielded + d.len < TWO32
    ensures var c' := Advance(m, c).0;
            var rest := List(m, c'.table, c'.size, c'.next, c'.ttl, c'.yielded);
            List(m, c.table, c.size, c.next, c.ttl, c.yielded) == rest.(ds := [d] + rest.ds)
  {
  }

  lemma FollowedStep(m: Mem, rest: Linked, indirect: bool, yielded: nat, d: Descriptor)
    ensures Followed(m, rest.(ds := [d] + rest.ds), indirect, yielded)
         == [d] + Followed(m, rest, indirect, yielded + d.len)
  {
    assert ([d] + rest.ds)[1..] == rest.ds;
  }

  lemma OrdinaryStep(m: Mem, c: Walk, d: Descriptor)
    requires c.ttl > 0 && c.next < c.size && Fetch(m, c.table, c.next) == Some(d)
    requires !d.Indirect() && c.yielded + d.len < TWO32
    ensures Descriptors(m, c) == [d] + Descriptors(m, Advance(m, c).0)
  {
    ListStep(m, c, d);
    var c' := Advance(m, c).0;
    FollowedStep(m, List(m, c'.table, c'.size, c'.next, c'.ttl, c'.yielded), c.indirect, c.yielded, d);
  }

  lemma SwitchStep(m: Mem, c: Walk, d: Descriptor)
    requires c.ttl > 0 && c.next < c.size && Fetch(m, c.table, c.next) == Some(d)
    requires d.Indirect() && !c.indirect && TableLength(d)
    ensures Descriptors(m, c) == Descriptors(m, Switched(c, d))
  {
    var n := d.len / DESCRIPTOR_SIZE;
    assert List(m, c.table, c.size, c.next, c.ttl, c.yielded) == Linked([], Some(d));
    assert Descriptors(m, Switched(c, d)) == List(m, d.addr, n, 0, n, c.yielded).ds;
  }

  lemma DeadEnd(m: Mem, c: Walk)
    requires Advance(m, c) == (c, None)
    requires Fetch(m, c.table, c.next).Some? && Fetch(m, c.table, c.next).value.Indirect() ==>
               c.ttl == 0 || c.next >= c.size || c.indirect || !TableLength(Fetch(m, c.table, c.next).value)
    ensures Descriptors(m, c) == []
  {
  }

  /** `next` takes the first descriptor off the chain, and returns nothing when there is none. */
  lemma AdvanceTakesFirst(m: Mem, c: Walk)
    ensures var (c', d) := Advance(m, c);
            if d.Some? then Descriptors(m, c) == [d.value] + Descriptors(m, c')
            else Descriptors(m, c) == [] && Descriptors(m, c') == []
    decreases !c.indirect
  {
    var d := Fetch(m, c.table, c.next);
    if c.ttl == 0 || c.next >= c.size || d.None? {
      DeadEnd(m, c);
    } else if d.value.Indirect() && !c.indirect && TableLength(d.value) {
      AdvanceTakesFirst(m, Switched(c, d.value));
      SwitchStep(m, c, d.value);
    } else if d.value.Indirect() || c.yielded + d.value.len >= TWO32 {
      DeadEnd(m, c);
    } else {
      OrdinaryStep(m, c, d.value);
    }
  }

  /** What the first `n` calls of `next` return over fixed memory. */
  function Answers(m: Mem, c: Walk, n: nat): (r: seq<Option<Descriptor>>)
    ensures |r| == n
    decreases n
  {
    if n == 0 then [] else var (c', d) := Advance(m, c); [d] + Answers(m, c', n - 1)
  }

  function Nth(ds: seq<Descriptor>, i: nat): Option<Descriptor> { if i < |ds| then Some(ds[i]) else None }

  lemma NthStep(d: Option<Descriptor>, ds: seq<Descriptor>, ds': seq<Descriptor>, i: nat)
    requires if d.Some? then ds == [d.value] + ds' else ds == [] && ds' == []
    ensures Nth(ds, 0) == d && Nth(ds, i + 1) == Nth(ds', i)
  {
  }

  /** One call, with what it leaves and what the other calls return. */
  lemma AnswerStep(m: Mem, c: Walk, n: nat, c': Walk, d: Option<Descriptor>)
    requires n > 0 && (c', d) == Advance(m, c)
    ensures Answers(m, c, n) == [d] + Answers(m, c', n - 1)
    ensures if d.Some? then Descriptors(m, c) == [d.value] + Descriptors(m, c')
            else Descriptors(m, c) == [] && Descriptors(m, c') == []
  {
    AdvanceTakesFirst(m, c);
  }

  /** Over fixed memory the calls return the chain's descriptors in order, then nothing for ever. */
  lemma {:induction false} AnswersAreTheChain(
    m: Mem, c: Walk, n: nat, i: nat, answers: seq<Option<Descriptor>>, ds: seq<Descriptor>)
    requires i < n && answers == Answers(m, c, n) && ds == Descriptors(m, c)
    ensures answers[i] == Nth(ds, i)
    decreases n
  {
    var (c', d) := Advance(m, c);
    AnswerStep(m, c, n, c', d);
    var answers', ds' := Answers(m, c', n - 1), Descriptors(m, c');
    if i == 0 {
      NthStep(d, ds, ds', 0);
    } else {
      NthStep(d, ds, ds', i - 1);
      AnswersAreTheChain(m, c', n - 1, i - 1, answers', ds');
    }
  }

  lemma {:induction false} ListIsBounded(m: Mem, table: u64, size: u16, index: u16, ttl: nat, yielded: nat)
    requires yielded < TWO32
    ensures yielded + SumLen(List(m, table, size, index, ttl, yielded).ds) < TWO32
    decreases ttl
  {
    if ttl > 0 && index < size && Fetch(m, table, index).Some? {
      var d := Fetch(m, table, index).value;
      if yielded + d.len < TWO32 && d.HasNext() {
        ListIsBounded(m, table, size, d.next, ttl - 1, yielded + d.len);
        var rest := List(m, table, size, d.next, ttl - 1, yielded + d.len);
        assert ([d] + rest.ds)[1..] == rest.ds;
      }
    }
  }

  lemma FollowedIsBounded(m: Mem, first: Linked, indirect: bool, yielded: nat)
    requires yielded + SumLen(first.ds) < TWO32
    ensures yielded + SumLen(Followed(m, first, indirect, yielded)) < TWO32
  {
    if !indirect && first.jump.Some? && TableLength(first.jump.value) {
      var t, start := first.jump.value, yielded + SumLen(first.ds);
      var n := t.len / DESCRIPTOR_SIZE;
      ListIsBounded(m, t.addr, n, 0, n, start);
      SumLenSplit(first.ds, List(m, t.addr, n, 0, n, start).ds);
    }
  }

  /** A chain names fewer than 2^32 bytes. */
  lemma DescriptorsAreBounded(m: Mem, c: Walk)
    ensures c.yielded + SumLen(Descriptors(m, c)) < TWO32
  {
    ListIsBounded(m, c.table, c.size, c.next, c.ttl, c.yielded);
    FollowedIsBounded(m, List(m, c.table, c.size, c.next, c.ttl, c.yielded), c.indirect, c.yielded);
  }

  // ---- Memory that changes between the calls ----------------------------------------------------------

  /** A call of `next` during which memory changes from `m` to `m'`: an indirect descriptor is read from
      the one, the first entry of its table from the other. */
  function AdvanceThrough(m: Mem, m': Mem, c: Walk): (Walk, Option<Descriptor>) {
    var d := Fetch(m, c.table, c.next);
    if c.ttl > 0 && c.next < c.size && d.Some? && d.value.Indirect() && !c.indirect && TableLength(d.value) then
      Advance(m', Switched(c, d.value))
    else
      Advance(m, c)
  }

  lemma AdvanceThroughSame(m: Mem, c: Walk)
    ensures AdvanceThrough(m, m, c) == Advance(m, c)
  {
  }

  /** What one call finds in memory: before and after it switches tables. */
  datatype Views = Views(first: Mem, second: Mem)

  /** The walk after one call per element, and the descriptors those calls returned. */
  function Trace(ms: seq<Views>, c: Walk): (r: (Walk, seq<Descriptor>))
    decreases |ms|
  {
    if ms == [] then (c, [])
    else
      var (c', d) := AdvanceThrough(ms[0].first, ms[0].second, c);
      var (c'', ds) := Trace(ms[1..], c');
      (c'', if d.Some? then [d.value] + ds else ds)
  }

  /** What is left of the budget of a chain that started with `size` descriptors. */
  ghost predicate Within(c: Walk, size: nat, count: nat) {
    count + c.ttl <= if c.indirect then (size - 1) + c.size else size
  }

  /** A step from `c` to `c'` that returns `d` keeps within the budget. */
  ghost predicate Spends(c: Walk, c': Walk, d: Option<Descriptor>, size: nat, count: nat) {
    && Within(c', size, count + if d.Some? then 1 else 0)
    && c'.yielded == c.yielded + (if d.Some? then d.value.len else 0)
    && (c.indirect ==> c'.indirect && c'.table == c.table && c'.size == c.size)
  }

  lemma AdvanceSpendsBudget(m: Mem, c: Walk, size: nat, count: nat)
    requires Within(c, size, count)
    ensures var (c', d) := Advance(m, c); Spends(c, c', d, size, count)
    decreases !c.indirect
  {
    if c.ttl > 0 && c.next < c.size && Fetch(m, c.table, c.next).Some? {
      var d := Fetch(m, c.table, c.next).value;
      if d.Indirect() && !c.indirect && TableLength(d) {
        AdvanceSpendsBudget(m, Switched(c, d), size, count);
      }
    }
  }

  lemma AdvanceThroughSpendsBudget(m: Mem, m': Mem, c: Walk, size: nat, count: nat)
    requires Within(c, size, count)
    ensures var (c', d) := AdvanceThrough(m, m', c); Spends(c, c', d, size, count)
  {
    AdvanceSpendsBudget(m, c, size, count);
    var d := Fetch(m, c.table, c.next);
    if c.ttl > 0 && d.Some? && !c.indirect && TableLength(d.value) {
      AdvanceSpendsBudget(m', Switched(c, d.value), size, count);
    }
  }

  lemma {:induction false} TraceSpendsBudget(ms: seq<Views>, c: Walk, size: nat, count: nat)
    requires Within(c, size, count)
    ensures var (c', ds) := Trace(ms, c);
            Within(c', size, count + |ds|) && c'.yielded == c.yielded + SumLen(ds)
    decreases |ms|
  {
    if ms != [] {
      AdvanceThroughSpendsBudget(ms[0].first, ms[0].second, c, size, count);
      var (c1, d) := AdvanceThrough(ms[0].first, ms[0].second, c);
      var n := if d.Some? then 1 else 0;
      TraceSpendsBudget(ms[1..], c1, size, count + n);
      var ds := Trace(ms[1..], c1).1;
      if d.Some? {
        assert ([d.value] + ds)[1..] == ds;
      }
    }
  }

  /** Whatever the driver does to memory between the calls, and inside one between the two tables, a
      chain yields at most `size` descriptors without indirection, at most `size - 1` plus the length
      of the indirect table with it, and fewer than 2^32 bytes. */
  lemma ChainIsBounded(ms: seq<Views>, table: u64, size: u16, head: u16)
    ensures var (c, ds) := Trace(ms, Fresh(table, size, head));
            && |ds| <= (if c.indirect then (size - 1) + c.size else size as int)
            && SumLen(ds) < TWO32
  {
    TraceSpendsBudget(ms, Fresh(table, size, head), size, 0);
  }

  // ---- The ttl never cuts a well-formed chain short -----------------------------------------------------

  /** The indices of a direct chain from its head to the descriptor without a successor. */
  ghost predicate IsPath(m: Mem, table: u64, size: u16, p: seq<u16>) {
    && p != []
    && (forall i :: 0 <= i < |p| ==>
          p[i] < size && Fetch(m, table, p[i]).Some? && !Fetch(m, table, p[i]).value.Indirect())
    && (forall i :: 0 <= i < |p| - 1 ==>
          Fetch(m, table, p[i]).value.HasNext() && Fetch(m, table, p[i]).value.next == p[i + 1])
    && !Fetch(m, table, p[|p| - 1]).value.HasNext()
  }

  lemma {:induction false} PathsRunTogether(m: Mem, table: u64, size: u16, p: seq<u16>, i: nat, j: nat, k: nat)
    requires IsPath(m, table, size, p) && i < j && j + k < |p| && p[i] == p[j]
    ensures p[i + k] == p[j + k]
    decreases k
  {
    if k > 0 {
      PathsRunTogether(m, table, size, p, i, j, k - 1);
      assert p[i + (k - 1) + 1] == p[j + (k - 1) + 1];
    }
  }

  /** A path that ends visits no index twice: otherwise its end would lie on a cycle. */
  lemma PathHasNoRepeat(m: Mem, table: u64, size: u16, p: seq<u16>, i: nat, j: nat)
    requires IsPath(m, table, size, p) && i < j < |p|
    ensures p[i] != p[j]
  {
    if p[i] == p[j] {
      PathsRunTogether(m, table, size, p, i, j, |p| - 1 - j);
    }
  }

  lemma {:induction false} DistinctBelow(p: seq<u16>, size: nat)
    requires forall i, j :: 0 <= i < j < |p| ==> p[i] != p[j]
    requires forall i :: 0 <= i < |p| ==> p[i] < size
    ensures |p| <= size
  {
    var xs: set<int> := set i | 0 <= i < |p| :: p[i] as int;
    DistinctCount(p, xs);
    BoundedSet(xs, size);
  }

  lemma {:induction false} DistinctCount(p: seq<u16>, xs: set<int>)
    requires forall i, j :: 0 <= i < j < |p| ==> p[i] != p[j]
    requires forall i :: 0 <= i < |p| ==> p[i] in xs
    ensures |p| <= |xs|
    decreases |p|
  {
    if p != [] {
      var last := p[|p| - 1];
      DistinctCount(p[..|p| - 1], xs - {last});
    }
  }

  lemma PathFits(m: Mem, table: u64, size: u16, p: seq<u16>)
    requires IsPath(m, table, size, p)
    ensures |p| <= size
  {
    forall i, j | 0 <= i < j < |p|
      ensures p[i] != p[j]
    {
      PathHasNoRepeat(m, table, size, p, i, j);
    }
    DistinctBelow(p, size);
  }

  lemma PathTail(m: Mem, table: u64, size: u16, p: seq<u16>)
    requires IsPath(m, table, size, p) && |p| > 1
    ensures IsPath(m, table, size, p[1..])
  {
    assert forall i :: 0 <= i < |p| - 1 ==> p[1..][i] == p[i + 1];
  }

  lemma ListUnfold(m: Mem, table: u64, size: u16, index: u16, ttl: nat, yielded: nat, d: Descriptor)
    requires ttl > 0 && index < size && Fetch(m, table, index) == Some(d)
    requires !d.Indirect() && yielded + d.len < TWO32
    ensures List(m, table, size, index, ttl, yielded) ==
            if !d.HasNext() then Linked([d], None)
            else
              var rest := List(m, table, size, d.next, ttl - 1, yielded + d.len);
              Linked([d] + rest.ds, rest.jump)
  {
  }

  /** A path, followed link by link. */
  ghost predicate Leads(m: Mem, table: u64, size: u16, p: seq<u16>)
    decreases |p|
  {
    && p != [] && p[0] < size && Fetch(m, table, p[0]).Some?
    && var d := Fetch(m, table, p[0]).value;
       && !d.Indirect()
       && if |p| == 1 then !d.HasNext() else d.HasNext() && d.next == p[1] && Leads(m, table, size, p[1..])
  }

  lemma {:induction false} PathLeads(m: Mem, table: u64, size: u16, p: seq<u16>)
    requires IsPath(m, table, size, p)
    ensures Leads(m, table, size, p)
    decreases |p|
  {
    if |p| > 1 {
      PathTail(m, table, size, p);
      PathLeads(m, table, size, p[1..]);
      assert Fetch(m, table, p[0]).value.next == p[0 + 1];
    }
  }

  /** The descriptors along a path. */
  function Along(m: Mem, table: u64, p: seq<u16>): seq<Descriptor>
    decreases |p|
  {
    if p == [] then []
    else
      match Fetch(m, table, p[0])
      case None => []
      case Some(d) => [d] + Along(m, table, p[1..])
  }

  lemma {:induction false} ListFollowsPath(m: Mem, table: u64, size: u16, p: seq<u16>, ttl: nat, yielded: nat)
    requires Leads(m, table, size, p) && |p| <= ttl
    requires yielded + SumLen(Along(m, table, p)) < TWO32
    ensures var l := List(m, table, size, p[0], ttl, yielded); l.ds == Along(m, table, p) && l.jump.None?
    decreases |p|
  {
    var d := Fetch(m, table, p[0]).value;
    assert ([d] + Along(m, table, p[1..]))[1..] == Along(m, table, p[1..]);
    ListUnfold(m, table, size, p[0], ttl, yielded, d);
    if |p| > 1 {
      ListFollowsPath(m, table, size, p[1..], ttl - 1, yielded + d.len);
    } else {
      assert p[1..] == [];
    }
  }

  /** A direct chain that ends within the byte limit is returned whole: its ttl does not run out. */
  lemma WellFormedChainIsWhole(m: Mem, table: u64, size: u16, p: seq<u16>)
    requires IsPath(m, table, size, p) && SumLen(Along(m, table, p)) < TWO32
    ensures |p| <= size
    ensures Descriptors(m, Fresh(table, size, p[0])) == Along(m, table, p)
  {
    PathFits(m, table, size, p);
    PathLeads(m, table, size, p);
    ListFollowsPath(m, table, size, p, size, 0);
  }

  // ---- A list is as long as it can be -------------------------------------------------------------------

  /** Entry `index` can follow after `yielded` bytes, if there is room for one more descriptor. */
  predicate CanFollow(m: Mem, table: u64, size: u16, index: u16, room: bool, yielded: nat) {
    && room && index < size && Fetch(m, table, index).Some?
    && var d := Fetch(m, table, index).value; !d.Indirect() && yielded + d.len < TWO32
  }

  /** `ds` is a path of entries that starts at `index`: each is in the bounds of the table and not a table
      itself, and each names the next one. */
  ghost predicate Chained(m: Mem, table: u64, size: u16, index: u16, ds: seq<Descriptor>)
    decreases |ds|
  {
    ds == [] ||
    (&& index < size && HasEntry(m, table, index, ds[0]) && !ds[0].Indirect()
     && (|ds| > 1 ==> ds[0].HasNext() && Chained(m, table, size, ds[0].next, ds[1..])))
  }

  /** The index that comes after such a path, if there is one. */
  function Following(index: u16, ds: seq<Descriptor>): Option<u16>
    decreases |ds|
  {
    if ds == [] then Some(index)
    else if ds[0].HasNext() then Following(ds[0].next, ds[1..])
    else None
  }

  /** What a list does with an entry that it takes. */
  lemma ListTakes(m: Mem, table: u64, size: u16, index: u16, ttl: nat, yielded: nat, l: Linked)
    requires l == List(m, table, size, index, ttl, yielded) && CanFollow(m, table, size, index, ttl > 0, yielded)
    ensures l.ds != [] && HasEntry(m, table, index, l.ds[0])
    ensures !l.ds[0].Indirect() && yielded + l.ds[0].len < TWO32
    ensures if l.ds[0].HasNext()
            then l.(ds := l.ds[1..]) == List(m, table, size, l.ds[0].next, ttl - 1, yielded + l.ds[0].len)
            else l == Linked([l.ds[0]], None)
  {
    var d := Fetch(m, table, index).value;
    FetchDecodes(m, table, index, d);
    ListUnfold(m, table, size, index, ttl, yielded, d);
  }

  lemma ListStopsAt(m: Mem, table: u64, size: u16, index: u16, ttl: nat, yielded: nat)
    requires !CanFollow(m, table, size, index, ttl > 0, yielded)
    ensures List(m, table, size, index, ttl, yielded).ds == []
  {
  }

  /** The list in a table is a path of entries from `index`, */
  lemma {:induction false} ListIsPath(
    m: Mem, table: u64, size: u16, index: u16, ttl: nat, yielded: nat, l: Linked)
    requires l == List(m, table, size, index, ttl, yielded)
    ensures Chained(m, table, size, index, l.ds)
    decreases ttl
  {
    if CanFollow(m, table, size, index, ttl > 0, yielded) {
      ListTakes(m, table, size, index, ttl, yielded, l);
      if l.ds[0].HasNext() {
        ListIsPath(m, table, size, l.ds[0].next, ttl - 1, yielded + l.ds[0].len, l.(ds := l.ds[1..]));
      }
    } else {
      ListStopsAt(m, table, size, index, ttl, yielded);
    }
  }

  /** and it stops only where nothing can follow. */
  lemma {:induction false} ListIsLongest(
    m: Mem, table: u64, size: u16, index: u16, ttl: nat, yielded: nat, l: Linked, f: Option<u16>, room: bool, sum: nat)
    requires l == List(m, table, size, index, ttl, yielded) && f == Following(index, l.ds)
    requires room == (|l.ds| < ttl) && sum == yielded + SumLen(l.ds)
    ensures f.Some? ==> !CanFollow(m, table, size, f.value, room, sum)
    decreases ttl
  {
    if CanFollow(m, table, size, index, ttl > 0, yielded) {
      ListTakes(m, table, size, index, ttl, yielded, l);
      if l.ds[0].HasNext() {
        ListIsLongest(m, table, size, l.ds[0].next, ttl - 1, yielded + l.ds[0].len, l.(ds := l.ds[1..]), f, room, sum);
      }
    } else {
      ListStopsAt(m, table, size, index, ttl, yielded);
    }
  }

  /** The table that the list jumps to is the entry after it, if that can be read and is a table. */
  predicate JumpsTo(m: Mem, table: u64, size: u16, f: Option<u16>, room: bool, t: Descriptor) {
    f.Some? && room && f.value < size && Fetch(m, table, f.value) == Some(t) && t.Indirect()
  }

  lemma {:induction false} ListJumps(
    m: Mem, table: u64, size: u16, index: u16, ttl: nat, yielded: nat, l: Linked, f: Option<u16>, t: Descriptor)
    requires l == List(m, table, size, index, ttl, yielded) && f == Following(index, l.ds)
    ensures l.jump == Some(t) <==> JumpsTo(m, table, size, f, |l.ds| < ttl, t)
    decreases ttl
  {
    if CanFollow(m, table, size, index, ttl > 0, yielded) {
      ListTakes(m, table, size, index, ttl, yielded, l);
      if l.ds[0].HasNext() {
        ListJumps(m, table, size, l.ds[0].next, ttl - 1, yielded + l.ds[0].len, l.(ds := l.ds[1..]), f, t);
      }
    } else {
      ListStopsAt(m, table, size, index, ttl, yielded);
    }
  }

  // ---- The iterators -----------------------------------------------------------------------------------

  /** The walk is at an entry with the bytes of `d`, an ordinary descriptor within the byte limit. */
  ghost predicate ReadsEntry(m: Mem, c: Walk, d: Descriptor) {
    && c.ttl > 0 && c.next < c.size && HasEntry(m, c.table, c.next, d)
    && !d.Indirect() && c.yielded + d.len < TWO32
  }

  class DescriptorChain {
    const ram: GuestRam
    const headIndex: u16
    var table: u64
    var size: u16
    var nextIndex: u16
    var ttl: u16
    var yielded: u32
    var indirect: bool

    function State(): Walk
      reads this
    {
      Walk(table, size, nextIndex, ttl, yielded, indirect)
    }

    constructor (ram: GuestRam, table: u64, size: u16, head: u16)
      ensures this.ram == ram && headIndex == head && State() == Fresh(table, size, head)
    {
      this.ram, headIndex := ram, head;
      this.table, this.size, nextIndex, ttl, yielded, indirect := table, size, head, size, 0, false;
    }

    method SwitchToIndirectTable(d: Descriptor) returns (ok: bool)
      modifies this
      ensures ok <==> !old(indirect) && TableLength(d)
      ensures State() == if !old(indirect) && TableLength(d) then Switched(old(State()), d) else old(State())
    {
      if indirect || d.len % DESCRIPTOR_SIZE != 0 || d.len / DESCRIPTOR_SIZE > 0xffff {
        return false;
      }
      table, size, nextIndex := d.addr, d.len / DESCRIPTOR_SIZE, 0;
      ttl, indirect := size, true;
      return true;
    }

    /** `next`: takes the first descriptor off the chain. */
    method Next() returns (r: Option<Descriptor>)
      modifies this
      ensures (State(), r) == Advance(ram.m, old(State()))
      ensures if r.Some? then Descriptors(ram.m, old(State())) == [r.value] + Descriptors(ram.m, State())
              else Descriptors(ram.m, old(State())) == [] && Descriptors(ram.m, State()) == []
      ensures forall d :: ReadsEntry(ram.m, old(State()), d) ==> r == Some(d)
      ensures r.Some? ==> exists index: u16 :: index < size && HasEntry(ram.m, table, index, r.value)
    {
      ghost var c, m := State(), ram.m;
      AdvanceTakesFirst(m, c);
      forall d | ReadsEntry(m, c, d)
        ensures Advance(m, c).1 == Some(d)
      {
        FetchDecodes(m, c.table, c.next, d);
      }
      if Advance(m, c).1.Some? {
        AdvanceReturnsEntry(m, c);
      }
      r := Proceed();
    }

    /** The steps of `next`, which starts over once in an indirect table. */
    method Proceed() returns (r: Option<Descriptor>)
      modifies this
      ensures (State(), r) == Advance(ram.m, old(State()))
      decreases !indirect
    {
      if ttl == 0 || nextIndex >= size {
        return None;
      }
      var d := Fetch(ram.m, table, nextIndex);
      if d.None? {
        return None;
      }
      if d.value.Indirect() {
        var ok := SwitchToIndirectTable(d.value);
        if !ok {
          return None;
        }
        r := Proceed();
        return;
      }
      if yielded + d.value.len >= TWO32 {
        return None;
      }
      yielded := yielded + d.value.len;
      if d.value.HasNext() {
        nextIndex := d.value.next;
        ttl := ttl - 1;
      } else {
        ttl := 0;
      }
      return d;
    }
  }

  /** The readable or the writable descriptors of a chain, in order. */
  function Select(ds: seq<Descriptor>, writable: bool): seq<Descriptor> {
    if ds == [] then []
    else if ds[0].WriteOnly() == writable then [ds[0]] + Select(ds[1..], writable)
    else Select(ds[1..], writable)
  }

  lemma {:induction false} SelectIsShorter(ds: seq<Descriptor>, writable: bool)
    ensures SumLen(Select(ds, writable)) <= SumLen(ds)
    decreases |ds|
  {
    if ds != [] {
      SelectIsShorter(ds[1..], writable);
      assert ([ds[0]] + Select(ds[1..], writable))[1..] == Select(ds[1..], writable);
    }
  }

  lemma {:induction false} SelectedHasFlag(ds: seq<Descriptor>, writable: bool, sel: seq<Descriptor>, d: Descriptor)
    requires sel == Select(ds, writable)
    ensures d in sel <==> d in ds && d.WriteOnly() == writable
    decreases |ds|
  {
    if ds != [] {
      SelectedHasFlag(ds[1..], writable, Select(ds[1..], writable), d);
      assert d in ds <==> d == ds[0] || d in ds[1..];
    }
  }

  lemma PartitionStep(d: Descriptor, s: seq<Descriptor>, t: seq<Descriptor>, u: seq<Descriptor>)
    requires multiset(s) + multiset(t) == multiset(u)
    ensures multiset([d] + s) + multiset(t) == multiset([d] + u)
  {
  }

  lemma {:induction false} SelectPartitions(
    ds: seq<Descriptor>, writable: bool, sel: seq<Descriptor>, others: seq<Descriptor>)
    requires sel == Select(ds, writable) && others == Select(ds, !writable)
    ensures multiset(sel) + multiset(others) == multiset(ds)
    decreases |ds|
  {
    if ds != [] {
      var sel', others' := Select(ds[1..], writable), Select(ds[1..], !writable);
      SelectPartitions(ds[1..], writable, sel', others');
      assert ds == [ds[0]] + ds[1..];
      if ds[0].WriteOnly() == writable {
        PartitionStep(ds[0], sel', others', ds[1..]);
      } else {
        PartitionStep(ds[0], others', sel', ds[1..]);
      }
    }
  }

  /** The write flag tells the two kinds apart, every descriptor is of exactly one of them. */
  lemma SelectByFlag(ds: seq<Descriptor>, writable: bool)
    ensures forall d :: d in Select(ds, writable) <==> d in ds && d.WriteOnly() == writable
    ensures multiset(Select(ds, writable)) + multiset(Select(ds, !writable)) == multiset(ds)
  {
    var sel, others := Select(ds, writable), Select(ds, !writable);
    forall d: Descriptor
      ensures d in sel <==> d in ds && d.WriteOnly() == writable
    {
      SelectedHasFlag(ds, writable, sel, d);
    }
    SelectPartitions(ds, writable, sel, others);
  }

  /** `s` is `t` with some elements left out. */
  predicate Subsequence(s: seq<Descriptor>, t: seq<Descriptor>)
    decreases |t|
  {
    s == [] || (t != [] && ((s[0] == t[0] && Subsequence(s[1..], t[1..])) || Subsequence(s, t[1..])))
  }

  lemma {:induction false} SelectInOrder(ds: seq<Descriptor>, writable: bool)
    ensures Subsequence(Select(ds, writable), ds)
    decreases |ds|
  {
    if ds != [] {
      SelectInOrder(ds[1..], writable);
      assert ([ds[0]] + Select(ds[1..], writable))[1..] == Select(ds[1..], writable);
    }
  }

  /** `DescriptorChainRwIter::next`. */
  method NextOfKind(chain: DescriptorChain, writable: bool) returns (r: Option<Descriptor>)
    modifies chain
    ensures var before := Select(Descriptors(chain.ram.m, old(chain.State())), writable);
            var after := Select(Descriptors(chain.ram.m, chain.State()), writable);
            if r.Some? then before == [r.value] + after else before == [] && after == []
    ensures r.Some? ==> r.value.WriteOnly() == writable
  {
    ghost var all := Select(Descriptors(chain.ram.m, chain.State()), writable);
    while true
      invariant Select(Descriptors(chain.ram.m, chain.State()), writable) == all
      decreases |Descriptors(chain.ram.m, chain.State())|
    {
      ghost var ds := Descriptors(chain.ram.m, chain.State());
      r := chain.Next();
      if r.None? {
        return;
      }
      assert ds[1..] == Descriptors(chain.ram.m, chain.State());
      if r.value.WriteOnly() == writable {
        return;
      }
    }
  }
}
