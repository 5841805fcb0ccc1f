/** Parsing a block request from a descriptor chain. */
module BlockRequest {
  import opened Words
  import opened GuestMemory
  import opened ByteStream
  import opened Chain
  import DescriptorUtils

  datatype Error =
    | DescriptorChainTooShort
    | DescriptorLengthTooSmall
    | GuestMemoryError
    | InvalidFlushSector
    | UnexpectedReadOnlyDescriptor
    | UnexpectedWriteOnlyDescriptor

  datatype RequestType = In | Out | Flush | GetDeviceId | Discard | WriteZeroes | Unsupported(t: u32)

  const T_FLUSH: u32 := 4

  function TypeOf(t: u32): RequestType {
    if t == 0 then In
    else if t == 1 then Out
    else if t == T_FLUSH then Flush
    else if t == 8 then GetDeviceId
    else if t == 11 then Discard
    else if t == 13 then WriteZeroes
    else Unsupported(t)
  }

  /** The request types of section 5.2.6 of VIRTIO 1.1, by their numbers. */
  function Code(kind: RequestType): u32 {
    match kind
    case In => 0
    case Out => 1
    case Flush => 4
    case GetDeviceId => 8
    case Discard => 11
    case WriteZeroes => 13
    case Unsupported(t) => t
  }

  /** A type is recognised by its number, and only a number without a type is unsupported. */
  lemma TypeHasCode(t: u32, kind: RequestType)
    ensures Code(TypeOf(t)) == t
    ensures !kind.Unsupported? ==> TypeOf(Code(kind)) == kind
  {
  }

  /** `data` holds the buffers of the data descriptors. */
  datatype Request = Request(kind: RequestType, data: seq<Slice>, sector: u64, statusAddr: u64)

  // ---- What a chain means as a request ------------------------------------------------------------

  /** The first descriptor from `i` on that has no successor: the status descriptor. */
  function StatusIndex(ds: seq<Descriptor>, i: nat): (k: nat)
    requires i <= |ds|
    ensures i <= k <= |ds|
    ensures k < |ds| ==> !ds[k].HasNext()
    ensures forall j :: i <= j < k ==> ds[j].HasNext()
    decreases |ds| - i
  {
    if i == |ds| || !ds[i].HasNext() then i else StatusIndex(ds, i + 1)
  }

  function HeaderType(m: Mem, d: Descriptor): u32
    requires Accessible(m, d.addr, 16)
  {
    U32At(m.data, d.addr)
  }

  function HeaderSector(m: Mem, d: Descriptor): u64
    requires Accessible(m, d.addr, 16)
  {
    U64At(m.data, d.addr + 8)
  }

  /** The layout of a request header: type, a reserved word and the sector. */
  function HeaderBytes(t: u32, reserved: u32, sector: u64): (bs: seq<u8>)
    ensures |bs| == 16
  {
    Le32(t) + (Le32(reserved) + Le64(sector))
  }

  lemma HeaderDecodes(m: Mem, d: Descriptor, t: u32, reserved: u32, sector: u64)
    requires Accessible(m, d.addr, 16) && Stands(m.data, d.addr, HeaderBytes(t, reserved, sector))
    ensures HeaderType(m, d) == t && HeaderSector(m, d) == sector
  {
    StandsSplit(m.data, d.addr, Le32(t), Le32(reserved) + Le64(sector));
    StandsSplit(m.data, d.addr + 4, Le32(reserved), Le64(sector));
    LoadsU32(m.data, d.addr, t);
    LoadsU64(m.data, d.addr + 8, sector);
  }

  /** The chain starts with a header of these bytes. */
  ghost predicate Heads(m: Mem, ds: seq<Descriptor>, t: u32, reserved: u32, sector: u64) {
    ds != [] && Stands(m.data, ds[0].addr, HeaderBytes(t, reserved, sector))
  }

  /** A data descriptor that the request type does not allow. */
  predicate Misplaced(d: Descriptor, kind: RequestType) { kind.In? && !d.WriteOnly() }

  function HeaderError(m: Mem, ds: seq<Descriptor>): Option<Error> {
    if ds == [] then Some(DescriptorChainTooShort)
    else if ds[0].WriteOnly() then Some(UnexpectedWriteOnlyDescriptor)
    else if !Accessible(m, ds[0].addr, 16) then Some(GuestMemoryError)
    else if HeaderType(m, ds[0]) == T_FLUSH && HeaderSector(m, ds[0]) != 0 then Some(InvalidFlushSector)
    else None
  }

  function StatusError(m: Mem, d: Descriptor): Option<Error> {
    if !d.WriteOnly() then Some(UnexpectedReadOnlyDescriptor)
    else if d.len < 1 then Some(DescriptorLengthTooSmall)
    else if d.addr !in m.data then Some(GuestMemoryError)
    else None
  }

  /** What is wrong with the data and status descriptors, which follow the head `ds[0]`. */
  ghost function BodyError(m: Mem, ds: seq<Descriptor>, kind: RequestType): Option<Error>
    requires ds != []
  {
    var k := StatusIndex(ds, 1);
    if exists j :: 1 <= j < k && Misplaced(ds[j], kind) then Some(UnexpectedReadOnlyDescriptor)
    else if k == |ds| then Some(DescriptorChainTooShort)
    else StatusError(m, ds[k])
  }

  /** Why the descriptors of a chain are not a request, if they are not. */
  ghost function ParseError(m: Mem, ds: seq<Descriptor>): Option<Error> {
    if HeaderError(m, ds).Some? then HeaderError(m, ds)
    else BodyError(m, ds, TypeOf(HeaderType(m, ds[0])))
  }

  /** Header, data, status: the request that a chain stands for. */
  ghost function Parsed(m: Mem, ds: seq<Descriptor>): Request
    requires ParseError(m, ds).None?
  {
    var k := StatusIndex(ds, 1);
    Request(TypeOf(HeaderType(m, ds[0])), DescriptorUtils.SlicesOf(ds[1..k]), HeaderSector(m, ds[0]), ds[k].addr)
  }

  /** A readable header in guest memory, with sector 0 for a flush. */
  ghost predicate HeaderStands(m: Mem, ds: seq<Descriptor>) {
    && ds != [] && !ds[0].WriteOnly() && Accessible(m, ds[0].addr, 16)
    && (HeaderType(m, ds[0]) == 4 ==> HeaderSector(m, ds[0]) == 0)
  }

  /** All descriptors between the head and number `k` have a successor. */
  ghost predicate Linked(ds: seq<Descriptor>, k: nat)
    requires k <= |ds|
  {
    forall j :: 1 <= j < k ==> ds[j].HasNext()
  }

  /** They are also buffers that the request type allows: a read needs writable ones. */
  ghost predicate DataUpTo(ds: seq<Descriptor>, k: nat, t: u32)
    requires k <= |ds|
  {
    Linked(ds, k) && (t == 0 ==> forall j :: 1 <= j < k ==> ds[j].WriteOnly())
  }

  /** What section 5.2.6 of VIRTIO 1.1 asks of a request, as far as the parser insists: the header, data up to
      the descriptor at `k`, and there a writable status byte in guest memory. */
  ghost predicate IsRequest(m: Mem, ds: seq<Descriptor>, k: nat) {
    && HeaderStands(m, ds) && 1 <= k < |ds| && DataUpTo(ds, k, HeaderType(m, ds[0]))
    && !ds[k].HasNext() && ds[k].WriteOnly() && ds[k].len >= 1 && ds[k].addr in m.data
  }

  /** A chain parses exactly when it is a request, and then to that request. */
  lemma ParsesRequests(m: Mem, ds: seq<Descriptor>)
    ensures ParseError(m, ds).None? <==> exists k: nat :: IsRequest(m, ds, k)
    ensures forall k: nat :: IsRequest(m, ds, k) ==>
              var req := Parsed(m, ds);
              && Code(req.kind) == HeaderType(m, ds[0]) && req.sector == HeaderSector(m, ds[0])
              && req.data == DescriptorUtils.SlicesOf(ds[1..k]) && req.statusAddr == ds[k].addr
  {
    if ParseError(m, ds).None? {
      var k := StatusIndex(ds, 1);
      DataIsAllowed(ds, k, HeaderType(m, ds[0]));
      assert IsRequest(m, ds, k);
    }
    forall k: nat | IsRequest(m, ds, k)
      ensures ParseError(m, ds).None? && StatusIndex(ds, 1) == k
    {
      DataIsAllowed(ds, k, HeaderType(m, ds[0]));
      StopsAtStatus(m, ds, k, TypeOf(HeaderType(m, ds[0])));
    }
    if ds != [] && Accessible(m, ds[0].addr, 16) {
      TypeHasCode(HeaderType(m, ds[0]), In);
    }
  }

  lemma DataIsAllowed(ds: seq<Descriptor>, k: nat, t: u32)
    requires k <= |ds|
    ensures DataUpTo(ds, k, t) <==> AllData(ds, k, TypeOf(t))
    ensures (exists j :: 1 <= j < k && Misplaced(ds[j], TypeOf(t))) <==>
            t == 0 && exists j :: 1 <= j < k && !ds[j].WriteOnly()
  {
  }

  /** What each error says of a chain whose header does not stand. */
  lemma HeaderErrors(m: Mem, ds: seq<Descriptor>)
    ensures HeaderError(m, ds).None? <==> HeaderStands(m, ds)
    ensures ds == [] ==> ParseError(m, ds) == Some(DescriptorChainTooShort)
    ensures ParseError(m, ds) == Some(UnexpectedWriteOnlyDescriptor) <==> ds != [] && ds[0].WriteOnly()
    ensures ds != [] && !ds[0].WriteOnly() && !Accessible(m, ds[0].addr, 16) ==>
              ParseError(m, ds) == Some(GuestMemoryError)
    ensures ParseError(m, ds) == Some(InvalidFlushSector) <==>
              && ds != [] && !ds[0].WriteOnly() && Accessible(m, ds[0].addr, 16)
              && HeaderType(m, ds[0]) == 4 && HeaderSector(m, ds[0]) != 0
  {
  }

  /** What each error says of a chain whose header stands. */
  lemma BodyErrors(m: Mem, ds: seq<Descriptor>)
    requires HeaderStands(m, ds)
    ensures var e, t := ParseError(m, ds), HeaderType(m, ds[0]);
            && (e == Some(DescriptorChainTooShort) <==> DataUpTo(ds, |ds|, t))
            && (e == Some(UnexpectedReadOnlyDescriptor) <==> exists k: nat ::
                  1 <= k < |ds| && Linked(ds, k) && !ds[k].WriteOnly() && (t == 0 || !ds[k].HasNext()))
            && (e == Some(DescriptorLengthTooSmall) <==> exists k: nat ::
                  1 <= k < |ds| && DataUpTo(ds, k, t) && !ds[k].HasNext() && ds[k].WriteOnly() && ds[k].len == 0)
            && (e == Some(GuestMemoryError) <==> exists k: nat ::
                  && 1 <= k < |ds| && DataUpTo(ds, k, t) && !ds[k].HasNext() && ds[k].WriteOnly()
                  && ds[k].len > 0 && ds[k].addr !in m.data)
  {
    var k, t := StatusIndex(ds, 1), HeaderType(m, ds[0]);
    DataIsAllowed(ds, k, t);
    LinkedToStatus(ds, k);
  }

  /** The status descriptor is the only one without a successor that the chain is linked up to. */
  lemma LinkedToStatus(ds: seq<Descriptor>, k: nat)
    requires ds != [] && k == StatusIndex(ds, 1)
    ensures forall j: nat :: j <= |ds| && Linked(ds, j) ==> j <= k
    ensures forall j: nat :: 1 <= j < |ds| && Linked(ds, j) && !ds[j].HasNext() ==> j == k
    ensures Linked(ds, k) && forall j: nat :: j <= k ==> Linked(ds, j)
  {
  }

  /** The data of a parsed request and its status byte fit in a `u32` together. */
  lemma ParsedLengthFits(m: Mem, c: Walk)
    requires ParseError(m, Descriptors(m, c)).None?
    ensures Total(Parsed(m, Descriptors(m, c)).data) + 1 < TWO32
  {
    var ds := Descriptors(m, c);
    var k := StatusIndex(ds, 1);
    DescriptorsAreBounded(m, c);
    DescriptorUtils.SlicesTotal(ds[1..k]);
    MiddleFits(ds, k);
  }

  /** The part between the head and the status descriptor is shorter than the whole by at least the latter. */
  lemma MiddleFits(ds: seq<Descriptor>, k: nat)
    requires 1 <= k < |ds|
    ensures SumLen(ds[1..k]) + ds[k].len <= SumLen(ds)
  {
    assert ds == ds[..1] + ds[1..];
    SumLenSplit(ds[..1], ds[1..]);
    MiddleCut(ds, k);
    SumLenSplit(ds[1..k], ds[k..]);
  }

  lemma MiddleCut(ds: seq<Descriptor>, k: nat)
    requires 1 <= k < |ds|
    ensures ds[1..] == ds[1..k] + ds[k..] && ds[k..][0] == ds[k]
  {
  }

  // ---- The parser -----------------------------------------------------------------------------------

  /** The status descriptor does not come before `k` if everything before `k` has a successor. */
  lemma {:induction false} SkipsTo(ds: seq<Descriptor>, i: nat, k: nat)
    requires i <= k <= |ds| && forall j :: i <= j < k ==> ds[j].HasNext()
    ensures StatusIndex(ds, i) == StatusIndex(ds, k)
    decreases k - i
  {
    if i < k {
      SkipsTo(ds, i + 1, k);
    }
  }

  lemma HeadersDecode(m: Mem, ds: seq<Descriptor>)
    ensures forall t, reserved, sector ::
              Heads(m, ds, t, reserved, sector) && Accessible(m, ds[0].addr, 16) ==>
              Code(TypeOf(HeaderType(m, ds[0]))) == t && HeaderSector(m, ds[0]) == sector
  {
    forall t, reserved, sector | Heads(m, ds, t, reserved, sector) && Accessible(m, ds[0].addr, 16)
      ensures Code(TypeOf(HeaderType(m, ds[0]))) == t && HeaderSector(m, ds[0]) == sector
    {
      HeaderDecodes(m, ds[0], t, reserved, sector);
      TypeHasCode(t, In);
    }
  }

  /** The head descriptor: the request type and the sector. */
  method ParseHeader(chain: DescriptorChain) returns (r: Result<(RequestType, u64), Error>)
    modifies chain
    ensures var ds := Descriptors(chain.ram.m, old(chain.State()));
            && (r.Err? ==> Some(r.error) == HeaderError(chain.ram.m, ds))
            && (r.Ok? ==>
                  && HeaderError(chain.ram.m, ds).None? && ds[1..] == Descriptors(chain.ram.m, chain.State())
                  && r.value == (TypeOf(HeaderType(chain.ram.m, ds[0])), HeaderSector(chain.ram.m, ds[0])))
    ensures r.Ok? ==> forall t, reserved, sector ::
              Heads(chain.ram.m, Descriptors(chain.ram.m, old(chain.State())), t, reserved, sector) ==>
              Code(r.value.0) == t && r.value.1 == sector
  {
    HeadersDecode(chain.ram.m, Descriptors(chain.ram.m, chain.State()));
    var head := chain.Next();
    if head.None? {
      return Err(DescriptorChainTooShort);
    }
    if head.value.WriteOnly() {
      return Err(UnexpectedWriteOnlyDescriptor);
    }
    if !Accessible(chain.ram.m, head.value.addr, 16) {
      return Err(GuestMemoryError);
    }
    var t := HeaderType(chain.ram.m, head.value);
    var sector := HeaderSector(chain.ram.m, head.value);
    if t == T_FLUSH && sector != 0 {
      return Err(InvalidFlushSector);
    }
    return Ok((TypeOf(t), sector));
  }

  /** The data descriptors and the status descriptor. */
  method ParseBody(chain: DescriptorChain, kind: RequestType, ghost ds: seq<Descriptor>)
    returns (r: Result<(seq<Slice>, u64), Error>)
    requires ds != [] && ds[1..] == Descriptors(chain.ram.m, chain.State())
    modifies chain
    ensures r.Err? ==> Some(r.error) == BodyError(chain.ram.m, ds, kind)
    ensures r.Ok? ==> BodyError(chain.ram.m, ds, kind).None?
    ensures r.Ok? ==> var k := StatusIndex(ds, 1); r.value == (DescriptorUtils.SlicesOf(ds[1..k]), ds[k].addr)
  {
    ghost var m := chain.ram.m;
    var data := [];
    var desc, rest := NextOf(chain);
    if desc.None? {
      return Err(DescriptorChainTooShort);
    }
    ghost var i := 1;
    ReachedFirst(ds, kind, desc.value, rest);
    while desc.value.HasNext()
      invariant desc.Some? && rest == Descriptors(m, chain.State())
      invariant Reached(ds, i, kind, data, desc.value, rest)
      decreases |ds| - i
    {
      if Misplaced(desc.value, kind) {
        ReachedMisplaced(m, ds, i, kind, data, desc.value, rest);
        return Err(UnexpectedReadOnlyDescriptor);
      }
      var d := desc.value;
      ghost var left := rest;
      desc, rest := NextOf(chain);
      if desc.None? {
        ReachedEnd(m, ds, i, kind, data, d);
        return Err(DescriptorChainTooShort);
      }
      ReachedNext(ds, i, kind, data, d, left, desc.value, rest);
      data := data + [Slice(d.addr, d.len)];
      i := i + 1;
    }
    ReachedStatus(m, ds, i, kind, data, desc.value, rest);
    var e := StatusError(chain.ram.m, desc.value);
    if e.Some? {
      return Err(e.value);
    }
    r := Ok((data, desc.value.addr));
  }

  /** The next descriptor, and the descriptors that are left. */
  method NextOf(chain: DescriptorChain) returns (r: Option<Descriptor>, ghost rest: seq<Descriptor>)
    modifies chain
    ensures rest == Descriptors(chain.ram.m, chain.State())
    ensures if r.Some? then Descriptors(chain.ram.m, old(chain.State())) == [r.value] + rest
            else Descriptors(chain.ram.m, old(chain.State())) == [] && rest == []
  {
    r := chain.Next();
    rest := Descriptors(chain.ram.m, chain.State());
  }

  /** The descriptors after the head and before `i` are proper data descriptors. */
  ghost predicate AllData(ds: seq<Descriptor>, i: nat, kind: RequestType)
    requires i <= |ds|
  {
    forall j :: 1 <= j < i ==> ds[j].HasNext() && !Misplaced(ds[j], kind)
  }

  /** The parser holds descriptor `d`, number `i`, with `rest` to come, and the buffers before it in `data`. */
  ghost predicate Reached(
    ds: seq<Descriptor>, i: nat, kind: RequestType, data: seq<Slice>, d: Descriptor, rest: seq<Descriptor>)
  {
    && 1 <= i < |ds| && ds[i] == d && ds[i + 1..] == rest
    && AllData(ds, i, kind) && data == DescriptorUtils.SlicesOf(ds[1..i])
  }

  lemma SuffixStep(ds: seq<Descriptor>, i: nat, d: Descriptor, rest: seq<Descriptor>)
    requires i <= |ds| && ds[i..] == [d] + rest
    ensures i < |ds| && ds[i] == d && ds[i + 1..] == rest
  {
    assert ds[i..][0] == d && ds[i..][1..] == rest;
  }

  lemma ReachedFirst(ds: seq<Descriptor>, kind: RequestType, d: Descriptor, rest: seq<Descriptor>)
    requires ds != [] && ds[1..] == [d] + rest
    ensures Reached(ds, 1, kind, [], d, rest)
  {
    SuffixStep(ds, 1, d, rest);
  }

  lemma ReachedNext(
    ds: seq<Descriptor>, i: nat, kind: RequestType, data: seq<Slice>, d: Descriptor, left: seq<Descriptor>,
    d': Descriptor, rest: seq<Descriptor>)
    requires Reached(ds, i, kind, data, d, left) && d.HasNext() && !Misplaced(d, kind) && left == [d'] + rest
    ensures Reached(ds, i + 1, kind, data + [Slice(d.addr, d.len)], d', rest)
  {
    SuffixStep(ds, i + 1, d', rest);
    assert ds[1..i + 1] == ds[1..i] + [ds[i]];
  }

  lemma ReachedEnd(m: Mem, ds: seq<Descriptor>, i: nat, kind: RequestType, data: seq<Slice>, d: Descriptor)
    requires Reached(ds, i, kind, data, d, []) && d.HasNext() && !Misplaced(d, kind)
    ensures BodyError(m, ds, kind) == Some(DescriptorChainTooShort)
  {
    assert |ds[i + 1..]| == 0;
    SkipsTo(ds, 1, |ds|);
  }

  lemma ReachedMisplaced(
    m: Mem, ds: seq<Descriptor>, i: nat, kind: RequestType, data: seq<Slice>, d: Descriptor, rest: seq<Descriptor>)
    requires Reached(ds, i, kind, data, d, rest) && d.HasNext() && Misplaced(d, kind)
    ensures BodyError(m, ds, kind) == Some(UnexpectedReadOnlyDescriptor)
  {
    SkipsTo(ds, 1, i);
  }

  lemma ReachedStatus(
    m: Mem, ds: seq<Descriptor>, i: nat, kind: RequestType, data: seq<Slice>, d: Descriptor, rest: seq<Descriptor>)
    requires Reached(ds, i, kind, data, d, rest) && !d.HasNext()
    ensures BodyError(m, ds, kind) == StatusError(m, d)
    ensures var k := StatusIndex(ds, 1); k < |ds| && d == ds[k] && data == DescriptorUtils.SlicesOf(ds[1..k])
  {
    StopsAtStatus(m, ds, i, kind);
  }

  lemma StopsAtStatus(m: Mem, ds: seq<Descriptor>, i: nat, kind: RequestType)
    requires 1 <= i < |ds| && AllData(ds, i, kind) && !ds[i].HasNext()
    ensures StatusIndex(ds, 1) == i && BodyError(m, ds, kind) == StatusError(m, ds[i])
  {
    SkipsTo(ds, 1, i);
  }

  /** `Request::parse`. */
  method Parse(chain: DescriptorChain) returns (r: Result<Request, Error>)
    modifies chain
    ensures var ds := Descriptors(chain.ram.m, old(chain.State()));
            && (r.Err? <==> ParseError(chain.ram.m, ds).Some?)
            && (r.Err? ==> Some(r.error) == ParseError(chain.ram.m, ds))
            && (r.Ok? ==> r.value == Parsed(chain.ram.m, ds) && Total(r.value.data) + 1 < TWO32)
            && (r.Ok? <==> exists k: nat :: IsRequest(chain.ram.m, ds, k))
            && (r.Ok? ==> forall t, reserved, sector :: Heads(chain.ram.m, ds, t, reserved, sector) ==>
                  Code(r.value.kind) == t && r.value.sector == sector)
  {
    ParsesRequests(chain.ram.m, Descriptors(chain.ram.m, chain.State()));
    HeadersDecode(chain.ram.m, Descriptors(chain.ram.m, chain.State()));
    ghost var c := chain.State();
    ghost var ds := Descriptors(chain.ram.m, c);
    var header := ParseHeader(chain);
    if header.Err? {
      return Err(header.error);
    }
    var body := ParseBody(chain, header.value.0, ds);
    if body.Err? {
      return Err(body.error);
    }
    ParsedLengthFits(chain.ram.m, c);
    r := Ok(Request(header.value.0, body.value.0, header.value.1, body.value.1));
  }
}
