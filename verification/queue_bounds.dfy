/** What the check of `is_valid` says about the accesses of a queue. */
module QueueBounds {
  import opened Words
  import opened GuestMemory
  import opened QueueState
  import opened VirtQueue

  /** Every byte of the descriptor table and of both rings is mapped. */
  predicate InBounds(m: Mem, q: Regs) {
    && Mapped(m.data, q.descTable, 16 * q.size)
    && Mapped(m.data, q.availRing, 6 + 2 * q.size)
    && Mapped(m.data, q.usedRing, 6 + 8 * q.size)
  }

  // ---- One ring at a time ---------------------------------------------------------------------------

  // The check looks at the address behind a ring. It is enough when, at every address that can be the
  // end of a ring, the smallest ring that ends there is mapped whenever that address is.

  ghost predicate DescGuard(m: Mem) {
    forall e :: 16 <= e < TWO64 && e % 16 == 0 && e in m.data ==> Mapped(m.data, e - 16, 16)
  }

  ghost predicate AvailGuard(m: Mem) {
    forall e :: 8 <= e < TWO64 && e % 2 == 0 && e in m.data ==> Mapped(m.data, e - 8, 8)
  }

  ghost predicate UsedGuard(m: Mem) {
    forall e :: 14 <= e < TWO64 && e % 4 == 2 && e in m.data ==> Mapped(m.data, e - 14, 14)
  }

  /** Then everything below such an address is mapped. */
  lemma {:induction false} DescBelow(m: Mem, e: int)
    requires DescGuard(m) && 16 <= e < TWO64 && e % 16 == 0 && e in m.data
    ensures Mapped(m.data, 0, e)
    decreases e
  {
    assert Mapped(m.data, e - 16, 16);
    if e > 16 {
      DescBelow(m, e - 16);
    }
  }

  lemma {:induction false} AvailBelow(m: Mem, e: int)
    requires AvailGuard(m) && 8 <= e < TWO64 && e % 2 == 0 && e in m.data
    ensures Mapped(m.data, 0, e)
    decreases e
  {
    assert Mapped(m.data, e - 8, 8);
    if e > 8 {
      AvailBelow(m, e - 2);
    }
  }

  lemma {:induction false} UsedBelow(m: Mem, e: int)
    requires UsedGuard(m) && 14 <= e < TWO64 && e % 4 == 2 && e in m.data
    ensures Mapped(m.data, 0, e)
    decreases e
  {
    assert Mapped(m.data, e - 14, 14);
    if e > 14 {
      UsedBelow(m, e - 4);
    }
  }

  function DescEnd(q: Regs): int { q.descTable + 16 * q.size }
  function AvailRingEnd(q: Regs): int { q.availRing + 6 + 2 * q.size }
  function UsedRingEnd(q: Regs): int { q.usedRing + 6 + 8 * q.size }

  /** The smallest queue, with its table and rings where asked. */
  function Smallest(descTable: u64, availRing: u64, usedRing: u64): (q: Regs)
    requires descTable % 16 == 0 && availRing % 2 == 0 && usedRing % 4 == 0
    ensures Valid(q)
  {
    Regs(1, 0, 0, false, 0, 1, true, descTable, availRing, usedRing)
  }

  /** The check of the end bounds the table of every valid queue exactly in guarded memory. */
  lemma DescEndSuffices(m: Mem)
    ensures (forall q :: Valid(q) && DescEnd(q) < TWO64 && DescEnd(q) in m.data ==>
                           Mapped(m.data, q.descTable, 16 * q.size))
            <==> DescGuard(m)
  {
    if DescGuard(m) {
      forall q | Valid(q) && DescEnd(q) < TWO64 && DescEnd(q) in m.data
        ensures Mapped(m.data, q.descTable, 16 * q.size)
      {
        DescBelow(m, DescEnd(q));
      }
    } else {
      var e :| 16 <= e < TWO64 && e % 16 == 0 && e in m.data && !Mapped(m.data, e - 16, 16);
      assert DescEnd(Smallest(e - 16, 0, 0)) == e;
    }
  }

  lemma AvailEndSuffices(m: Mem)
    ensures (forall q :: Valid(q) && AvailRingEnd(q) < TWO64 && AvailRingEnd(q) in m.data ==>
                           Mapped(m.data, q.availRing, 6 + 2 * q.size))
            <==> AvailGuard(m)
  {
    if AvailGuard(m) {
      forall q | Valid(q) && AvailRingEnd(q) < TWO64 && AvailRingEnd(q) in m.data
        ensures Mapped(m.data, q.availRing, 6 + 2 * q.size)
      {
        AvailBelow(m, AvailRingEnd(q));
      }
    } else {
      var e :| 8 <= e < TWO64 && e % 2 == 0 && e in m.data && !Mapped(m.data, e - 8, 8);
      assert AvailRingEnd(Smallest(0, e - 8, 0)) == e;
    }
  }

  lemma UsedEndSuffices(m: Mem)
    ensures (forall q :: Valid(q) && UsedRingEnd(q) < TWO64 && UsedRingEnd(q) in m.data ==>
                           Mapped(m.data, q.usedRing, 6 + 8 * q.size))
            <==> UsedGuard(m)
  {
    if UsedGuard(m) {
      forall q | Valid(q) && UsedRingEnd(q) < TWO64 && UsedRingEnd(q) in m.data
        ensures Mapped(m.data, q.usedRing, 6 + 8 * q.size)
      {
        UsedBelow(m, UsedRingEnd(q));
      }
    } else {
      var e :| 14 <= e < TWO64 && e % 4 == 2 && e in m.data && !Mapped(m.data, e - 14, 14);
      assert UsedRingEnd(Smallest(0, 0, e - 14)) == e;
    }
  }

  // ---- The whole check ------------------------------------------------------------------------------

  /** `a` is an address behind some descriptor table, `b` behind some available and `c` behind some
      used ring. */
  predicate Ends(m: Mem, a: int, b: int, c: int) {
    && 16 <= a < TWO64 && a % 16 == 0 && a in m.data
    && 8 <= b < TWO64 && b % 2 == 0 && b in m.data
    && 14 <= c < TWO64 && c % 4 == 2 && c in m.data
  }

  /** Some queue passes the check. */
  ghost predicate Passable(m: Mem) {
    exists a, b, c :: Ends(m, a, b, c)
  }

  /** What the check is there for: a valid queue that passes it stays in bounds. */
  ghost predicate CheckSuffices(m: Mem) {
    forall q :: Valid(q) && EndsMapped(m, q) ==> InBounds(m, q)
  }

  ghost predicate Guarded(m: Mem) { DescGuard(m) && AvailGuard(m) && UsedGuard(m) }

  lemma SmallestInBounds(m: Mem, a: int, b: int, c: int)
    requires CheckSuffices(m) && Ends(m, a, b, c)
    ensures Mapped(m.data, a - 16, 16) && Mapped(m.data, b - 8, 8) && Mapped(m.data, c - 14, 14)
  {
    var q := Smallest(a - 16, b - 8, c - 14);
    assert EndsMapped(m, q);
    assert InBounds(m, q);
  }

  lemma GuardsFollow(m: Mem, a: int, b: int, c: int)
    requires CheckSuffices(m) && Ends(m, a, b, c)
    ensures Guarded(m)
  {
    forall e | 16 <= e < TWO64 && e % 16 == 0 && e in m.data
      ensures Mapped(m.data, e - 16, 16)
    {
      SmallestInBounds(m, e, b, c);
    }
    forall e | 8 <= e < TWO64 && e % 2 == 0 && e in m.data
      ensures Mapped(m.data, e - 8, 8)
    {
      SmallestInBounds(m, a, e, c);
    }
    forall e | 14 <= e < TWO64 && e % 4 == 2 && e in m.data
      ensures Mapped(m.data, e - 14, 14)
    {
      SmallestInBounds(m, a, b, e);
    }
  }

  lemma GuardedQueue(m: Mem, q: Regs)
    requires Guarded(m) && Valid(q) && EndsMapped(m, q)
    ensures InBounds(m, q)
  {
    QueueHasEnds(m, q);
    DescBelow(m, DescEnd(q));
    AvailBelow(m, AvailRingEnd(q));
    UsedBelow(m, UsedRingEnd(q));
    Part(m.data, DescEnd(q), q.descTable, 16 * q.size);
    Part(m.data, AvailRingEnd(q), q.availRing, 6 + 2 * q.size);
    Part(m.data, UsedRingEnd(q), q.usedRing, 6 + 8 * q.size);
  }

  lemma Part(d: map<int, u8>, e: int, a: int, n: int)
    requires Mapped(d, 0, e) && 0 <= a && a + n <= e
    ensures Mapped(d, a, n)
  {
  }

  lemma QueueHasEnds(m: Mem, q: Regs)
    requires Valid(q) && EndsMapped(m, q)
    ensures Ends(m, DescEnd(q), AvailRingEnd(q), UsedRingEnd(q))
  {
  }

  /** `is_valid` bounds every access of every valid queue exactly when memory is guarded, or when it lets
      no queue pass. */
  lemma EndsSuffice(m: Mem)
    ensures CheckSuffices(m) <==> (Passable(m) ==> Guarded(m))
  {
    if CheckSuffices(m) && Passable(m) {
      var a, b, c :| Ends(m, a, b, c);
      GuardsFollow(m, a, b, c);
    }
    if Passable(m) ==> Guarded(m) {
      forall q | Valid(q) && EndsMapped(m, q)
        ensures InBounds(m, q)
      {
        QueueHasEnds(m, q);
        GuardedQueue(m, q);
      }
    }
  }

  /** One region that starts at address 0. */
  predicate FlatMemory(m: Mem) {
    m.breaks == {} && forall a, b :: 0 <= a < b && b in m.data ==> a in m.data
  }

  /** In flat memory the check places rings that do not overlap. */
  lemma EndsSufficeInFlatMemory(m: Mem, q: Regs)
    requires FlatMemory(m) && Valid(q) && EndsMapped(m, q)
    requires AvailRingEnd(q) <= q.usedRing || UsedRingEnd(q) <= q.availRing
    ensures InBounds(m, q) && Placed(m, Layout(q.size, q.availRing, q.usedRing))
  {
    assert Guarded(m);
    EndsSuffice(m);
  }

  predicate Between(lo: int, a: int, hi: int) { lo <= a < hi }

  /** A region of zeroes. */
  function Region(lo: int, hi: int): (d: map<int, u8>)
    ensures forall a :: a in d <==> lo <= a < hi
  {
    map a | lo <= a < hi && Between(lo, a, hi) :: 0
  }

  /** A memory without the guard: its only region starts at 4096, where a table of 256 descriptors at
      address 0 ends. */
  lemma EndsDoNotSuffice()
    ensures exists m: Mem, q: Regs ::
              Valid(q) && EndsMapped(m, q) && m.breaks == {} && forall i :: 0 <= i < 16 * q.size ==> i !in m.data
  {
    var m := Mem(Region(4096, 8192), {});
    var q := Regs(256, 0, 0, false, 0, 256, true, 0, 4096, 5120);
    RingSizesArePowersOfTwo(256);
    assert Valid(q) && EndsMapped(m, q);
  }
}
