/** The registers of a virtqueue as values: what the setters, `reset`, save and restore do to them. */
module QueueState {
  import opened Words

  const MAX_QUEUE_SIZE: u16 := 32768

  datatype Error =
    | AddressOverflow
    | GuestMemoryError
    | InvalidAvailRingIndex
    | InvalidDescriptorIndex
    | InvalidSize
    | InvalidMaxSize
    | InvalidDescTableAlign
    | InvalidAvailRingAlign
    | InvalidUsedRingAlign
    | QueueNotReady

  datatype Regs = Regs(
    maxSize: u16,
    nextAvail: u16,
    nextUsed: u16,
    eventIdx: bool,
    numAdded: u16,
    size: u16,
    ready: bool,
    descTable: u64,
    availRing: u64,
    usedRing: u64)

  /** The invariant of every queue: ring sizes are powers of two up to 32768, addresses aligned. */
  predicate Valid(q: Regs) {
    && PowerOfTwo(q.maxSize) && q.maxSize <= MAX_QUEUE_SIZE
    && PowerOfTwo(q.size) && q.size <= q.maxSize
    && q.descTable % 16 == 0 && q.availRing % 2 == 0 && q.usedRing % 4 == 0
  }

  lemma ValidSizes(q: Regs)
    requires Valid(q)
    ensures IsRingSize(q.size) && IsRingSize(q.maxSize)
  {
    RingSizesArePowersOfTwo(q.size);
    RingSizesArePowersOfTwo(q.maxSize);
  }

  function New(maxSize: u16): Result<Regs, Error> {
    if maxSize == 0 || maxSize > MAX_QUEUE_SIZE || BitAnd(maxSize, maxSize - 1) != 0 then
      Err(InvalidMaxSize)
    else
      Ok(Regs(maxSize, 0, 0, false, 0, maxSize, false, 0, 0, 0))
  }

  function TrySetSize(q: Regs, size: u16): Result<Regs, Error> {
    if size > q.maxSize || size == 0 || BitAnd(size, size - 1) != 0 then Err(InvalidSize)
    else Ok(q.(size := size))
  }

  function TrySetDescTable(q: Regs, a: u64): Result<Regs, Error> {
    if a % 16 != 0 then Err(InvalidDescTableAlign) else Ok(q.(descTable := a))
  }

  function TrySetAvailRing(q: Regs, a: u64): Result<Regs, Error> {
    if a % 2 != 0 then Err(InvalidAvailRingAlign) else Ok(q.(availRing := a))
  }

  function TrySetUsedRing(q: Regs, a: u64): Result<Regs, Error> {
    if a % 4 != 0 then Err(InvalidUsedRingAlign) else Ok(q.(usedRing := a))
  }

  /** The public setters ignore a rejected value. */
  function OrUnchanged(r: Result<Regs, Error>, q: Regs): Regs {
    if r.Ok? then r.value else q
  }

  /** Replaces the low and/or high half of a 64-bit address. */
  function WithHalves(a: u64, low: Option<u32>, high: Option<u32>): u64 {
    var l := if low.Some? then low.value else a % TWO32;
    var h := if high.Some? then high.value else a / TWO32;
    h * TWO32 + l
  }

  /** Everything a caller can do to the registers of a queue. */
  datatype Call =
    | SetSize(n: u16)
    | SetReady(b: bool)
    | SetDescTable(low: Option<u32>, high: Option<u32>)
    | SetAvailRing(low: Option<u32>, high: Option<u32>)
    | SetUsedRing(low: Option<u32>, high: Option<u32>)
    | SetEventIdx(b: bool)
    | SetNextAvail(n: u16)
    | SetNextUsed(n: u16)
    | ChainPopped
    | ChainReturned
    | UsedAdded
    | EventChecked
    | Reset

  function Apply(q: Regs, c: Call): Regs {
    match c
    case SetSize(n) => OrUnchanged(TrySetSize(q, n), q)
    case SetReady(b) => q.(ready := b)
    case SetDescTable(l, h) => OrUnchanged(TrySetDescTable(q, WithHalves(q.descTable, l, h)), q)
    case SetAvailRing(l, h) => OrUnchanged(TrySetAvailRing(q, WithHalves(q.availRing, l, h)), q)
    case SetUsedRing(l, h) => OrUnchanged(TrySetUsedRing(q, WithHalves(q.usedRing, l, h)), q)
    case SetEventIdx(b) => q.(eventIdx := b)
    case SetNextAvail(n) => q.(nextAvail := n)
    case SetNextUsed(n) => q.(nextUsed := n)
    case ChainPopped => q.(nextAvail := WrapAdd(q.nextAvail, 1))
    case ChainReturned => q.(nextAvail := WrapSub(q.nextAvail, 1))
    case UsedAdded => q.(nextUsed := WrapAdd(q.nextUsed, 1), numAdded := WrapAdd(q.numAdded, 1))
    case EventChecked => q.(numAdded := 0)
    case Reset => Regs(q.maxSize, 0, 0, false, 0, q.maxSize, false, 0, 0, 0)
  }

  function ApplyAll(q: Regs, cs: seq<Call>): Regs
    decreases |cs|
  {
    if cs == [] then q else ApplyAll(Apply(q, cs[0]), cs[1..])
  }

  lemma NewIsValid(maxSize: u16)
    ensures New(maxSize).Ok? <==> PowerOfTwo(maxSize) && maxSize <= 32768
    ensures New(maxSize).Ok? ==> Valid(New(maxSize).value)
  {
    if maxSize > 0 {
      BitTrickIsPowerOfTwo(maxSize);
    }
  }

  lemma TrySetSizeAccepts(q: Regs, size: u16)
    ensures TrySetSize(q, size).Ok? <==> PowerOfTwo(size) && size <= q.maxSize
  {
    if size > 0 {
      BitTrickIsPowerOfTwo(size);
    }
  }

  lemma ApplyKeepsValid(q: Regs, c: Call)
    requires Valid(q)
    ensures Valid(Apply(q, c)) && Apply(q, c).maxSize == q.maxSize
  {
    if c.SetSize? {
      TrySetSizeAccepts(q, c.n);
    }
  }

  /** Every queue reachable from a valid one by any calls is valid. */
  lemma {:induction false} RunKeepsValid(q: Regs, cs: seq<Call>)
    requires Valid(q)
    ensures Valid(ApplyAll(q, cs))
    decreases |cs|
  {
    if cs != [] {
      ApplyKeepsValid(q, cs[0]);
      RunKeepsValid(Apply(q, cs[0]), cs[1..]);
    }
  }

  // ---- Save and restore -----------------------------------------------------------------------

  datatype Saved = Saved(
    maxSize: u16,
    nextAvail: u16,
    nextUsed: u16,
    eventIdx: bool,
    size: u16,
    ready: bool,
    descTable: u64,
    availRing: u64,
    usedRing: u64)

  function Save(q: Regs): Saved {
    Saved(q.maxSize, q.nextAvail, q.nextUsed, q.eventIdx, q.size, q.ready, q.descTable, q.availRing, q.usedRing)
  }

  /** Which saved states a queue can be rebuilt from, and the error of the first check that fails. */
  function RestoreError(s: Saved): Option<Error> {
    if !(PowerOfTwo(s.maxSize) && s.maxSize <= MAX_QUEUE_SIZE) then Some(InvalidMaxSize)
    else if !(PowerOfTwo(s.size) && s.size <= s.maxSize) then Some(InvalidSize)
    else if s.descTable % 16 != 0 then Some(InvalidDescTableAlign)
    else if s.availRing % 2 != 0 then Some(InvalidAvailRingAlign)
    else if s.usedRing % 4 != 0 then Some(InvalidUsedRingAlign)
    else None
  }

  function Restored(s: Saved): Regs {
    Regs(s.maxSize, s.nextAvail, s.nextUsed, s.eventIdx, 0, s.size, s.ready, s.descTable, s.availRing, s.usedRing)
  }

  /** A queue reached from `new` or from a restored state by any calls can be saved and restored:
      it comes back as it was, with an empty notification window. */
  lemma SaveThenRestore(origin: Regs, cs: seq<Call>)
    requires (exists n :: New(n) == Ok(origin)) || (exists s :: RestoreError(s).None? && origin == Restored(s))
    ensures var q := ApplyAll(origin, cs);
            Valid(q) && RestoreError(Save(q)).None? && Restored(Save(q)) == q.(numAdded := 0)
  {
    if n :| New(n) == Ok(origin) {
      NewIsValid(n);
    }
    RunKeepsValid(origin, cs);
  }

  /** A state that can be restored is saved again as it was, and makes a valid queue. */
  lemma RestoreThenSave(s: Saved)
    requires RestoreError(s).None?
    ensures Valid(Restored(s)) && Save(Restored(s)) == s
  {
  }

  /** A saved state can be restored exactly when it is that of a valid queue. */
  lemma RestoresValid(s: Saved)
    ensures RestoreError(s).None? <==> Valid(Restored(s))
  {
  }

  /** A chain that is put back is popped again: the two calls undo each other. */
  lemma PopUndone(q: Regs)
    ensures Apply(Apply(q, ChainPopped), ChainReturned) == q
    ensures Apply(Apply(q, ChainReturned), ChainPopped) == q
  {
    WrapOfSum(q.nextAvail, 1);
    WrapOfSum(q.nextAvail + 1, 1);
    WrapOfSum(q.nextAvail - 1, 1);
  }
}
