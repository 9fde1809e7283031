/** What the TRBs of one transfer descriptor (TD) have to be. */
module TransferSpec {
  import opened Basics
  import opened Trb
  import opened Admission

  /** A stretch of the buffer as the IOMMU reports it: its bus address and its length. */
  datatype Segment = Segment(addr: nat, length: nat)

  /**
   * One call of _createTransfer. `segment` stands for genIOVMSegments: what it yields at an offset
   * into the buffer, or None when it fails.
   */
  datatype Request = Request(
    isIsoch: bool, bytes: nat, mystery: Control, offset: nat,
    interruptNeeded: bool, multiTD: bool, finalTD: bool, following: nat, preceding: nat,
    immediate: Option<(nat, nat)>, maxPacket: nat, maxBurst: nat, multiple: nat, inEndpoint: bool,
    segment: nat -> Option<Segment>)
  {
    predicate Valid() {
      && maxPacket > 0
      && mystery.kind != Link && !mystery.chain && !mystery.bit1
      && (isIsoch ==> immediate == None && following == 0 && preceding == 0 && !finalTD && !multiTD)
      && (immediate.Some? ==> bytes <= 8)
    }

    /** The IOMMU reports no empty segments. */
    ghost predicate NoEmptySegments() {
      forall at: nat :: segment(at).Some? ==> segment(at).value.length > 0
    }

    /** The segments are not empty, and end at page boundaries or with the buffer. */
    ghost predicate BreaksAtPages(pageOffset: nat) {
      forall at :: offset <= at < offset + bytes ==>
        && segment(at).Some? && segment(at).value.length > 0
        && segment(at).value.addr % PAGE_SIZE == (pageOffset + at) % PAGE_SIZE
        && (at + segment(at).value.length < offset + bytes ==>
          (pageOffset + at + segment(at).value.length) % PAGE_SIZE == 0)
    }

    predicate IsNoopOrStatus() { !isIsoch && (mystery.kind == StatusStage || mystery.kind == Noop) }

    /** The number of bytes that one max-burst round of the endpoint moves. */
    function BurstBytes(): (n: nat)
      ensures maxPacket > 0 ==> n > 0
    {
      maxPacket * (1 + maxBurst) * (1 + multiple)
    }
  }

  const BOUNDARY: nat := 0x1_0000

  /** How far a segment reaches before it would cross a 64 KiB boundary. */
  function Reach(s: Segment): nat {
    var toBoundary := BOUNDARY - s.addr % BOUNDARY;
    if s.length < toBoundary then s.length else toBoundary
  }

  /** The bytes of the TRB at an offset with `left` bytes to go; None when there is no segment. */
  function PieceLength(r: Request, at: nat, left: nat): (n: Option<nat>)
    ensures n.Some? ==> n.value <= left
  {
    if left == 0 || r.immediate.Some? then Some(left)
    else match r.segment(at)
      case None => None
      case Some(s) => Some(if left > Reach(s) then Reach(s) else left)
  }

  /** Where in the buffer TRB k starts; behind a piece that cannot be had, no TRB starts. */
  function Start(r: Request, k: nat): (at: nat)
    ensures r.offset <= at <= r.offset + r.bytes
  {
    if k == 0 then r.offset
    else
      var at := Start(r, k - 1);
      match PieceLength(r, at, r.offset + r.bytes - at)
      case Some(n) => at + n
      case None => at
  }

  /** A fragment ends in front of TRB k: whole bursts have been moved so far, and there are bytes to come. */
  predicate IsCut(r: Request, k: nat)
    requires r.maxPacket > 0
  {
    k > 0 && !r.isIsoch && Start(r, k) < r.offset + r.bytes && Start(r, k) % r.BurstBytes() == 0
  }

  /** What _createTransfer asks behind a TRB with `left` bytes to go. */
  predicate CutsAt(r: Request, at: nat, left: int)
    requires r.maxPacket > 0
  {
    at != 0 && !r.isIsoch && left != 0 && at % r.BurstBytes() == 0
  }

  /** Of the first i TRBs, those from fs on are in the fragment that is still open. */
  ghost predicate LastCut(r: Request, fs: int, i: int)
    requires r.maxPacket > 0
  {
    && 0 <= fs <= i && (fs == 0 || IsCut(r, fs))
    && forall k :: fs < k <= i ==> !IsCut(r, k)
  }

  lemma NoCutYet(r: Request)
    requires r.maxPacket > 0
    ensures Start(r, 0) == r.offset && LastCut(r, 0, 0)
  {
  }

  /** One more TRB: the fragment is closed behind it or goes on. */
  lemma NextCut(r: Request, fs: int, i: nat, left: nat, n: nat)
    requires r.maxPacket > 0 && LastCut(r, fs, i)
    requires Start(r, i) + left == r.offset + r.bytes && PieceLength(r, Start(r, i), left) == Some(n)
      && (left > 0 ==> n > 0)
    ensures var at := Start(r, i) + n;
      && at == Start(r, i + 1)
      && LastCut(r, if CutsAt(r, at, left - n) then i + 1 else fs, i + 1) && (left > n ==> r.immediate.None?)
  {
  }

  function TdSize(r: Request, leftAfter: nat): nat
    requires r.maxPacket > 0
  {
    var size := (r.maxPacket + r.following - 1 + leftAfter) / r.maxPacket;
    if size > 31 then 31 else size
  }

  /** The control word of data TRB i, before the last one of a TD of one TRB is finished. */
  function DataControl(r: Request, i: nat, leftAfter: nat): Control {
    var base := if i == 0 && r.mystery != CLEARED_CONTROL then r.mystery else CLEARED_CONTROL.(kind := Normal);
    base.(bit1 := leftAfter == 0 && r.immediate.None? && r.finalTD && i > 0, chain := r.immediate.None?)
  }

  /** Data TRB i, which moves n of the `left` bytes from offset `at` on. */
  function DataTrb(r: Request, i: nat, at: nat, left: nat, n: nat): Body
    requires r.maxPacket > 0 && n <= left
    requires left > 0 && r.immediate.None? ==> r.segment(at).Some?
  {
    var words :=
      if left == 0 then (0, 0)
      else if r.immediate.Some? then r.immediate.value
      else var b := WithAddress(CLEARED_BODY, r.segment(at).value.addr); (b.a, b.b);
    Body(words.0, words.1,
         if r.IsNoopOrStatus() then 0 else n,
         if r.IsNoopOrStatus() then 0 else TdSize(r, left - n),
         DataControl(r, i, left - n))
  }

  /** The data TRBs from TRB i on; they stop short where there is no segment. */
  function DataTrbs(r: Request, i: nat, at: nat, left: nat): (ts: seq<Body>)
    requires r.maxPacket > 0
    decreases left
  {
    match PieceLength(r, at, left)
    case None => []
    case Some(n) =>
      if n == 0 && left > 0 then []
      else [DataTrb(r, i, at, left, n)] + if left - n > 0 then DataTrbs(r, i + 1, at + n, left - n) else []
  }

  /** Every piece of the TD can be had. */
  predicate Available(r: Request, at: nat, left: nat)
    decreases left
  {
    match PieceLength(r, at, left)
    case None => false
    case Some(n) => left == n || (n > 0 && Available(r, at + n, left - n))
  }

  /** A TD of one TRB raises its own interrupt and ends its chain. */
  function Single(r: Request, body: Body): Body {
    var c := body.control;
    var short := c.isp || c.kind == Normal || c.kind == DataStage || c.kind == Isoch;
    var c :=
      if r.interruptNeeded then c.(ioc := true, isp := short)
      else if r.inEndpoint then c.(bei := c.bei || c.kind == Normal || c.kind == Isoch, isp := short)
      else c;
    body.(control := c.(chain := false, bit1 := false))
  }

  /** A longer TD is followed by an EVENT_DATA TRB that carries its own address. */
  function EventTrb(r: Request, addr: nat): Body {
    WithAddress(CLEARED_BODY, addr).(control := CLEARED_CONTROL.(
      kind := EventData, chain := r.multiTD && !r.finalTD,
      ioc := r.interruptNeeded || r.inEndpoint, bei := !r.interruptNeeded && r.inEndpoint))
  }

  /** All TRBs of the TD, when its last one lies at bus address `lastAddr`. */
  function TdTrbs(r: Request, lastAddr: nat): seq<Body>
    requires r.maxPacket > 0
  {
    var data := DataTrbs(r, 0, r.offset, r.bytes);
    if |data| == 1 then [Single(r, data[0])] else data + [EventTrb(r, lastAddr)]
  }

  /** What a TRB of type k can tell of a short packet. */
  predicate CanBeShort(k: Kind) { k == Normal || k == DataStage || k == Isoch }

  /**
   * The last TRB of a TD: it raises an event if the request asks for one. Otherwise only that of a TD of one TRB
   * whose own control word says so does, and, with its interrupt blocked, the EVENT_DATA TRB of a longer TD on an IN
   * endpoint.
   */
  lemma LastTells(r: Request, addr: nat)
    requires r.maxPacket > 0
    ensures |TdTrbs(r, addr)| > 0
    ensures var ts, n := TdTrbs(r, addr), |DataTrbs(r, 0, r.offset, r.bytes)|;
      var c := ts[|ts| - 1].control;
      && |ts| == (if n == 1 then 1 else n + 1) && !c.bit1
      && (r.interruptNeeded ==> c.ioc && (c.bei <==> n == 1 && r.mystery.bei))
      && (n == 1 ==>
            && !c.chain && c.kind == (if r.mystery == CLEARED_CONTROL then Normal else r.mystery.kind)
            && c.extra == r.mystery.extra
            && (c.isp <==> r.mystery.isp || ((r.interruptNeeded || r.inEndpoint) && CanBeShort(c.kind)))
            && (!r.interruptNeeded ==>
                  && (c.ioc <==> r.mystery.ioc)
                  && (c.bei <==> r.mystery.bei || (r.inEndpoint && CanBeShort(c.kind) && c.kind != DataStage))))
      && (n != 1 ==>
            && c.kind == EventData && !c.isp && c.extra == 0 && (c.chain <==> r.multiTD && !r.finalTD)
            && ts[|ts| - 1].bytes == ts[|ts| - 1].tdSize == 0
            && (addr % 16 == 0 && addr < 0x1_0000_0000_0000_0000 ==> Address(ts[|ts| - 1]) == addr)
            && (!r.interruptNeeded ==> (c.ioc <==> r.inEndpoint) && (c.bei <==> r.inEndpoint)))
  {
    if addr % 16 == 0 && addr < 0x1_0000_0000_0000_0000 { OwnAddress(addr); }
  }

  lemma OwnAddress(addr: nat)
    requires addr % 16 == 0 && addr < 0x1_0000_0000_0000_0000
    ensures Address(WithAddress(CLEARED_BODY, addr)) == addr
  {
  }

  /**
   * The first TRB carries the control word that the request comes with, the type and all that is passed through,
   * and the immediate data, if there are any, in their order; the TRBs behind it are NORMAL ones.
   */
  lemma FirstCarries(r: Request, addr: nat)
    requires r.maxPacket > 0 && |DataTrbs(r, 0, r.offset, r.bytes)| > 0
    ensures |TdTrbs(r, addr)| > 0
    ensures var t := TdTrbs(r, addr)[0];
      && t.control.kind == (if r.mystery == CLEARED_CONTROL then Normal else r.mystery.kind)
      && t.control.extra == r.mystery.extra
      && (|DataTrbs(r, 0, r.offset, r.bytes)| > 1 ==>
            && (t.control.ioc, t.control.isp, t.control.bei) == (r.mystery.ioc, r.mystery.isp, r.mystery.bei)
            && t.control.chain == r.immediate.None?)
      && (r.immediate.Some? && r.bytes > 0 ==> (t.a, t.b) == r.immediate.value)
      && (r.bytes == 0 ==> (t.a, t.b) == (0, 0))
      && if !r.isIsoch && (r.mystery.kind == StatusStage || r.mystery.kind == Noop) then t.bytes == t.tdSize == 0
         else r.immediate.Some? ==> t.bytes == r.bytes
  {
  }

  /** A segment with more bytes to come after it ends at a page boundary, and so does a piece of it. */
  lemma PieceBreaksAtPage(r: Request, pageOffset: nat, at: nat, left: nat)
    requires r.BreaksAtPages(pageOffset) && r.offset <= at && 0 < left == r.offset + r.bytes - at && r.immediate.None?
    ensures PieceLength(r, at, left).Some?
    ensures var n := PieceLength(r, at, left).value;
            0 < n <= left && (n < left ==> (pageOffset + at + n) % PAGE_SIZE == 0)
  {
    var s := r.segment(at).value;
    BoundaryIsPage(s.addr);
    SamePage(s.addr, pageOffset + at, BOUNDARY - s.addr % BOUNDARY);
  }

  lemma BoundaryIsPage(a: nat)
    ensures 0 < BOUNDARY - a % BOUNDARY && (a + (BOUNDARY - a % BOUNDARY)) % PAGE_SIZE == 0
  {
    assert a + (BOUNDARY - a % BOUNDARY) == (a / BOUNDARY + 1) * 16 * PAGE_SIZE;
  }

  lemma SamePage(a: nat, b: nat, n: nat)
    requires a % PAGE_SIZE == b % PAGE_SIZE && (a + n) % PAGE_SIZE == 0
    ensures (b + n) % PAGE_SIZE == 0
  {
    var q := (a + n) / PAGE_SIZE;
    assert b + n == (b / PAGE_SIZE - a / PAGE_SIZE + q) * PAGE_SIZE;
  }

  /** The TRBs that a reservation has to leave room for: one for each page still to touch, and one more. */
  function Needed(pageOffset: nat, at: nat, left: nat): nat {
    PagesTouched(pageOffset + at, left) + 1
  }

  lemma NeededStep(r: Request, pageOffset: nat, at: nat, left: nat)
    requires r.Valid() && r.offset <= at && left == r.offset + r.bytes - at
    requires r.immediate.Some? || r.BreaksAtPages(pageOffset)
    requires left > 0
    ensures PieceLength(r, at, left).Some?
    ensures Needed(pageOffset, at + PieceLength(r, at, left).value, left - PieceLength(r, at, left).value) + 1
            <= Needed(pageOffset, at, left)
  {
    if r.immediate.None? {
      PieceBreaksAtPage(r, pageOffset, at, left);
    }
    PieceEndsPage(pageOffset + at, left, PieceLength(r, at, left).value);
  }

  /** With one for EVENT_DATA, the data TRBs are no more than the pages still to touch make necessary. */
  lemma {:induction false} DataTrbsNeeded(r: Request, pageOffset: nat, i: nat, at: nat, left: nat)
    requires r.Valid() && r.offset <= at && left == r.offset + r.bytes - at && left > 0
    requires r.immediate.Some? || r.BreaksAtPages(pageOffset)
    ensures |DataTrbs(r, i, at, left)| + 1 <= Needed(pageOffset, at, left)
    decreases left
  {
    hide Request.BreaksAtPages, DataTrb, PagesTouched;
    NeededStep(r, pageOffset, at, left);
    var n := PieceLength(r, at, left).value;
    if 0 < n < left { DataTrbsNeeded(r, pageOffset, i + 1, at + n, left - n); }
  }

  /** A TD has no more TRBs than are reserved for it. */
  lemma TdReserved(r: Request, pageOffset: nat, addr: nat)
    requires r.Valid() && (r.immediate.Some? || r.BreaksAtPages(pageOffset))
    ensures |TdTrbs(r, addr)| <= ReservedTrbs(r.bytes)
  {
    hide Request.BreaksAtPages, DataTrb, PagesTouched;
    if r.bytes > 0 {
      DataTrbsNeeded(r, pageOffset, 0, r.offset, r.bytes);
      ReservationCovers(pageOffset + r.offset, r.bytes);
    }
  }

  lemma {:induction false} DataTrbsAreNoLinks(r: Request, i: nat, at: nat, left: nat)
    requires r.Valid()
    ensures forall t :: t in DataTrbs(r, i, at, left) ==>
      t.control.kind != Link && t.control.chain == r.immediate.None?
    decreases left
  {
    match PieceLength(r, at, left) {
      case None =>
      case Some(n) =>
        if n == 0 && left > 0 {
        } else {
          var c := DataTrb(r, i, at, left, n).control;
          assert c.kind != Link && c.chain == r.immediate.None?;
          if left - n > 0 { DataTrbsAreNoLinks(r, i + 1, at + n, left - n); }
        }
    }
  }
}
