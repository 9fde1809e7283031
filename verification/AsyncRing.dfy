/** An asynchronous endpoint together with its transfer ring: what is on the lists is what is on the ring. */
module AsyncRings {
  import opened Basics
  import opened Trb
  import opened Hardware
  import opened RingState
  import opened RingSteps
  import opened RingWalk
  import opened Admission
  import opened TransferRings
  import opened TransferSpec
  import opened TransferTiling
  import opened TransferWalk
  import opened Transfers
  import opened AsyncQueue
  import opened AsyncHistory
  import opened AsyncSplit
  import opened AsyncEndpoints
  import opened AsyncChain

  /**
   * What a TD's layout depends on besides its place in the request: its first control word, immediate data, and
   * the IOMMU.
   */
  datatype Detail = Detail(mystery: Control, immediate: Option<(nat, nat)>, segment: nat -> Option<Segment>) {

    ghost predicate Fits(bytes: nat) {
      && mystery.kind != Link && !mystery.chain && !mystery.bit1 && (immediate.Some? ==> bytes <= 8)
      && forall at: nat :: segment(at).Some? ==> segment(at).value.length > 0
    }
  }

  /**
   * What the endpoint's context and the Set TR Dequeue Pointer command say: the state, that once it is quiesced,
   * and the result.
   */
  datatype Answers = Answers(state: EndpointState, quiesced: EndpointState, isStreams: bool, result: int)

  /**
   * The request is the one that this TD makes on an endpoint that moves `burst` bytes in a round; as all TDs do, it
   * asks for its interrupt.
   */
  predicate Describes(r: Request, t: Share, burst: nat) {
    && r.BurstBytes() == burst
    && !r.isIsoch && r.bytes == t.bytes && r.offset == t.preceding && r.preceding == t.preceding
    && r.following == t.following && r.finalTD == t.final && r.multiTD == t.multiTD
    && r.interruptNeeded
  }

  /** The request is made with these details, on an endpoint of this direction. */
  ghost predicate Carries(r: Request, d: Detail, inEndpoint: bool) {
    r.mystery == d.mystery && r.immediate == d.immediate && r.segment == d.segment && r.inEndpoint == inEndpoint
  }

  /** These TDs are laid out behind those, each with its own details. */
  ghost predicate LaidFor(were: seq<Laid>, laid: seq<Laid>, tds: seq<AsyncTD>, detail: AsyncTD -> Detail,
                          inEndpoint: bool) {
    && |laid| == |were| + |tds| && were <= laid
    && forall k :: 0 <= k < |tds| ==> Carries(laid[|were| + k].request, detail(tds[k]), inEndpoint)
  }

  lemma OneMoreLaid(were: seq<Laid>, laid: seq<Laid>, laid': seq<Laid>, tds: seq<AsyncTD>, n: nat,
                    detail: AsyncTD -> Detail, inEndpoint: bool)
    requires n < |tds| && LaidFor(were, laid, tds[..n], detail, inEndpoint)
    requires |laid'| == |laid| + 1 && laid <= laid' && Carries(laid'[|laid|].request, detail(tds[n]), inEndpoint)
    ensures LaidFor(were, laid', tds[..n + 1], detail, inEndpoint)
  {
    forall k | 0 <= k < n ensures laid'[|were| + k] == laid[|were| + k] && tds[..n][k] == tds[..n + 1][k] {}
  }

  /** What is laid out is what these TDs ask for, and where they say. */
  predicate Agree(laid: seq<Laid>, shares: seq<Share>, burst: nat) {
    && |laid| == |shares|
    && forall j :: 0 <= j < |laid| ==> laid[j].last == shares[j].last && Describes(laid[j].request, shares[j], burst)
  }

  /** What an event says of entry i: what is left of the TD, or what has moved, of the TD or of the transfer so far. */
  ghost predicate Tells(l: Log, i: int, ed: bool, absoluteEDTLA: bool, count: nat) {
    && count < TWO_32 && 0 <= i < |l.sub| == |l.moved|
    && count ==
       if !ed then l.sub[i].bytes - l.moved[i].bytes
       else if absoluteEDTLA then l.Moved(i)
       else l.moved[i].bytes
  }

  /**
   * The event for the j-th of the TDs scheduled behind those done is accounted for: the TD is told of; the done ones
   * and those in front of it are completed if there are such in front of it; and it is completed itself, with `gone`
   * flushed ones, if that is to be reported.
   */
  ghost predicate Accounted(l: Log, l': Log, done: nat, j: int, told: Told, reported: bool, gone: nat) {
    var x := l.completed + done + j;
    && 0 <= x < |l.moved|
    && l' == Hear(l, x, told).(completed := if reported then x + 1 + gone else if j > 0 then x else l.completed)
  }

  lemma AccountedFor(l: Log, taken: Log, l': Log, done: nat, j: int, told: Told, reported: bool, gone: nat)
    requires 0 <= l.completed + done + j < |l.moved|
    requires taken == if j > 0 then l.(completed := l.completed + done + j) else l
    requires var heard := Hear(taken, l.completed + done + j, told);
      l' == if reported then heard.(completed := l.completed + done + j + 1 + gone) else heard
    ensures Accounted(l, l', done, j, told, reported, gone)
  {
  }

  /** Every piece submitted starts behind whole bursts. */
  ghost predicate AtBursts(l: Log, payload: nat) {
    payload > 0 && forall i :: 0 <= i < |l.sub| ==> l.sub[i].preceding % payload == 0
  }

  lemma MoreAtBursts(l: Log, l': Log, ps: seq<Entry>, payload: nat)
    requires AtBursts(l, payload) && l'.sub == l.sub + ps
    requires forall k :: 0 <= k < |ps| ==> ps[k].preceding % payload == 0
    ensures AtBursts(l', payload)
  {
    forall i | 0 <= i < |l'.sub| ensures l'.sub[i].preceding % payload == 0 {
      assert l'.sub[i] == if i < |l.sub| then l.sub[i] else ps[i - |l.sub|];
    }
  }

  lemma SameTold(l: Log, l': Log, i: int, ed: bool, absoluteEDTLA: bool, count: nat)
    requires Tells(l, i, ed, absoluteEDTLA, count) && l'.sub == l.sub && l'.moved == l.moved
    ensures Tells(l', i, ed, absoluteEDTLA, count)
  {
    MovedAsBefore(l, l', i);
  }

  /** The first n of these commands are this one. */
  ghost predicate AreOf(command: Command?, commands: seq<Command?>, n: nat) {
    n <= |commands| && forall k :: 0 <= k < n ==> command != null && commands[k] == command
  }

  ghost function SharesOf(s: seq<AsyncTD>): (r: seq<Share>)
    reads s`bytesThisTD, s`bytesFollowingThisTD, s`bytesPreceedingThisTD, s`multiTDTransaction, s`finalTDInTransaction,
      s`lastTrbIndex
    ensures |r| == |s| && forall j :: 0 <= j < |s| ==> r[j] == s[j].OnRing()
  {
    if |s| == 0 then [] else SharesOf(s[..|s| - 1]) + [s[|s| - 1].OnRing()]
  }

  lemma SharesBehind(s: seq<AsyncTD>, n: int)
    requires 0 <= n <= |s|
    ensures SharesOf(s[n..]) == SharesOf(s)[n..]
  {
    hide SharesOf;
  }

  lemma OneMoreAgrees(laid: seq<Laid>, shares: seq<Share>, u: Laid, t: Share, burst: nat)
    requires Agree(laid, shares, burst) && u.last == t.last && Describes(u.request, t, burst)
    ensures Agree(laid + [u], shares + [t], burst)
  {
  }

  lemma AgreeAt(laid: seq<Laid>, shares: seq<Share>, j: int, burst: nat)
    requires Agree(laid, shares, burst)
    ensures |laid| == |shares| && (0 <= j < |laid| ==> laid[j].last == shares[j].last)
  {
  }

  lemma FewerAgree(laid: seq<Laid>, shares: seq<Share>, n: int, burst: nat)
    requires Agree(laid, shares, burst) && 0 <= n <= |laid|
    ensures Agree(laid[n..], shares[n..], burst)
  {
  }

  lemma ShiftedAgrees(laid: seq<Laid>, shares: seq<Share>, k: int, burst: nat)
    requires Agree(laid, shares, burst)
    ensures Agree(Shifted(laid, k), shares, burst)
  {
  }

  /** The TDs lie one behind the other on a ring in this state. */
  ghost predicate LieOn(s: Ring, laid: seq<Laid>, spoiled: bool) {
    && s.Inv() && s.first < 0
    && Chained(s.Pending(), s.Order(), laid, s.phys)
    && (!spoiled ==> Tidy(s.Pending(), laid, s.phys))
    && Through(laid, s.phys, MidLink(s)) && LinkFits(s)
  }

  lemma FewerLie(s: Ring, laid: seq<Laid>, spoiled: bool, n: int)
    requires LieOn(s, laid, spoiled) && 0 <= n <= |laid|
    ensures LieOn(s, laid[n..], spoiled)
  {
    hide Chained, Tidy, Through, MidLink, Ring.Order;
    GivenUp(s.Pending(), s.Order(), laid, s.phys, n);
    FewerThrough(laid, s.phys, n, 0, MidLink(s), MidLink(s));
  }

  class AsyncRing {
    const ring: TransferRing
    const endpoint: AsyncEndpoint
    const maxPacket: nat
    const maxBurst: nat
    const multiple: nat
    const inEndpoint: bool

    /** How the scheduled TDs lie on the ring. */
    ghost var laid: seq<Laid>
    /** A layout has failed after it had published a part of its TD. */
    ghost var spoiled: bool

    /** The ring is sound and no fragment open, and the TDs laid out lie on it one behind the other. */
    ghost predicate OnRing()
      reads this`laid, this`spoiled, ring, ring.slots
    {
      && ring.Valid() && ring.first < 0
      && Chained(ring.Queue(), ring.Order(), laid, ring.phys)
      && (!spoiled ==> Tidy(ring.Queue(), laid, ring.phys))
      && Through(laid, ring.phys, ring.Mid()) && ring.Fits()
    }

    /** The same, wherever the controller is. */
    ghost predicate Stands()
      reads this`laid, this`spoiled, ring, ring.slots
    {
      LieOn(ring.State(), laid, spoiled)
    }

    /** The TDs laid out are those scheduled, in order. */
    ghost predicate Listed()
      reads this`laid, endpoint.scheduled
      reads endpoint.scheduled.s`bytesThisTD, endpoint.scheduled.s`bytesFollowingThisTD,
        endpoint.scheduled.s`bytesPreceedingThisTD
      reads endpoint.scheduled.s`multiTDTransaction, endpoint.scheduled.s`finalTDInTransaction,
        endpoint.scheduled.s`lastTrbIndex
    {
      Agree(laid, SharesOf(endpoint.scheduled.s), Burst())
    }

    ghost predicate Valid()
      reads this`laid, this`spoiled, ring, ring.slots, endpoint, endpoint.queued, endpoint.scheduled, endpoint.done,
        endpoint.free
      reads endpoint.queued.s`next, endpoint.scheduled.s`next, endpoint.done.s`next, endpoint.free.s`next
      reads endpoint.live, endpoint.log.Commands()
      reads endpoint.scheduled.s`bytesThisTD, endpoint.scheduled.s`bytesFollowingThisTD,
        endpoint.scheduled.s`bytesPreceedingThisTD
      reads endpoint.scheduled.s`multiTDTransaction, endpoint.scheduled.s`finalTDInTransaction,
        endpoint.scheduled.s`lastTrbIndex
    {
      OnRing() && Listed() && endpoint.Valid() && endpoint.numTRBs == ring.slots.Length
    }

    /** All but that the controller is where the ring says. */
    ghost predicate Kept()
      reads this`laid, this`spoiled, ring, ring.slots, endpoint, endpoint.queued, endpoint.scheduled, endpoint.done,
        endpoint.free
      reads endpoint.queued.s`next, endpoint.scheduled.s`next, endpoint.done.s`next, endpoint.free.s`next
      reads endpoint.live, endpoint.log.Commands()
      reads endpoint.scheduled.s`bytesThisTD, endpoint.scheduled.s`bytesFollowingThisTD,
        endpoint.scheduled.s`bytesPreceedingThisTD
      reads endpoint.scheduled.s`multiTDTransaction, endpoint.scheduled.s`finalTDInTransaction,
        endpoint.scheduled.s`lastTrbIndex
    {
      Stands() && Listed() && endpoint.Valid() && endpoint.numTRBs == ring.slots.Length
    }

    lemma OnRingIs()
      ensures OnRing() <==> ring.Valid() && Stands()
      ensures Valid() <==> ring.Valid() && Kept()
    {
      hide Chained, Tidy, Through, AsyncEndpoint.Valid, Listed, Ring.Pending, Ring.Inv, Follows;
    }

    /** Nothing but the TDs laid out is pending. */
    ghost predicate Clean()
      reads this`laid, this`spoiled, ring, ring.slots
    {
      ring.Valid() && !spoiled && Lead(ring.Queue(), laid, ring.phys) == 0
    }

    lemma CleanIsAll()
      requires OnRing() && Clean()
      ensures ring.Queue() == TrbsOf(laid, ring.phys)
    {
      hide TransferRing.Valid, TransferRing.Queue, TransferRing.Order, Chained, Tidy, Lead, TrbsOf;
      TidyIsAll(ring.Queue(), ring.Order(), laid, ring.phys);
    }

    /** A new endpoint on a ring on which nothing is pending. */
    constructor (ring: TransferRing, endpoint: AsyncEndpoint, maxPacket: nat, maxBurst: nat, multiple: nat,
                 inEndpoint: bool)
      requires ring.Valid() && ring.first < 0 && ring.Queue() == []
      requires endpoint.Valid() && endpoint.scheduled.s == [] && endpoint.numTRBs == ring.slots.Length
      ensures Valid() && laid == [] && Clean()
      ensures this.ring == ring && this.endpoint == endpoint
      ensures Burst() == maxPacket * (1 + maxBurst) * (1 + multiple)
      ensures maxPacket > 0 && Burst() < MAX_FRAGMENT_SIZE && BurstsWithin(endpoint.maxTDBytes, Burst()) ==> BurstsFit()
    {
      hide TransferRing.Valid, TransferRing.Queue, TransferRing.Order, TransferRing.State, AsyncEndpoint.Lists,
        AsyncEndpoint.Matches, Books, Log.Carried, Low;
      this.ring, this.endpoint := ring, endpoint;
      this.maxPacket, this.maxBurst, this.multiple, this.inEndpoint := maxPacket, maxBurst, multiple, inEndpoint;
      laid, spoiled := [], false;
      new;
      OrderFits();
      RingIs();
      FitsNone(ring.State());
      if maxPacket > 0 && Burst() < MAX_FRAGMENT_SIZE && BurstsWithin(endpoint.maxTDBytes, Burst()) {
        BurstSome();
        WithinIsMax(endpoint.maxTDBytes, Burst());
      }
    }

    /** A new endpoint on such a ring, with TDs that hold whole bursts if a burst is shorter than 128 KB. */
    static method Create(ring: TransferRing, maxPacket: nat, maxBurst: nat, multiple: nat, inEndpoint: bool,
                         absoluteEDTLA: bool)
      returns (a: AsyncRing)
      requires ring.Valid() && ring.first < 0 && ring.Queue() == []
      ensures fresh(a) && a.Valid() && a.laid == [] && a.Clean() && a.ring == ring && a.endpoint.queued.s == []
      ensures maxPacket > 0 && maxPacket * (1 + maxBurst) * (1 + multiple) < MAX_FRAGMENT_SIZE ==> a.BurstsFit()
      ensures maxPacket > 0 ==> AtBursts(a.endpoint.log, a.Burst())
    {
      hide TransferRing.Valid, TransferRing.Queue, AsyncEndpoint.Valid, AsyncRing.BurstsFit, AsyncRing.Valid,
        AsyncRing.Clean, BurstsWithin;
      var endpoint := new AsyncEndpoint(maxPacket, maxBurst, multiple, ring.slots.Length, absoluteEDTLA);
      a := new AsyncRing(ring, endpoint, maxPacket, maxBurst, multiple, inEndpoint);
    }

    // ---- the ring ----

    lemma OrderFits()
      requires ring.Valid()
      ensures |ring.Order()| == |ring.Queue()| && NoDuplicates(ring.Order())
    {
      ring.OrderOfQueue();
    }

    lemma MidFits()
      requires ring.Valid()
      ensures ring.Mid().Some? ==> 0 <= ring.Mid().value.0 <= |ring.Queue()|
    {
      hide TransferRing.Valid, MidLink, Ring.Order, TransferRing.Queue;
      OrderFits();
      RingIs();
      MidWithin(ring.State());
    }

    /** Lays out a TD behind the others. */
    method PutOnRing(r: Request, ghost pageOffset: nat) returns (rc: Status, last: nat)
      requires OnRing() && (r.maxPacket > 0 ==> r.Valid() && r.NoEmptySegments())
      modifies this`laid, this`spoiled, ring, ring.slots
      ensures OnRing() && old(ring.Queue()) <= ring.Queue()
      ensures rc == Success ==>
        && laid == old(laid) + [Laid(r, last, |ring.Queue()| - 1)] && spoiled == old(spoiled)
        && r.maxPacket > 0 && ring.Queue() == old(ring.Queue()) + TdTrbs(r, SlotAddress(ring.phys, last))
      ensures rc != Success ==> laid == old(laid)
      ensures ring.Valid() && (old(Clean()) && !spoiled ==> Clean()) && (old(spoiled) ==> spoiled)
      ensures r.maxPacket > 0 && Regular(r, pageOffset) && old(ring.HasRoomFor(ReservedTrbs(r.bytes))) ==> rc == Success
    {
      hide *;
      LiesOnRing();
      MidFits();
      ghost var q, o, phys, mid, h := ring.Queue(), ring.Order(), ring.phys, ring.Mid(), ring.history;
      OrderFits();
      var first, count;
      ghost var fs;
      rc, first, count, last, fs := CreateTransfer(ring, r, pageOffset);
      OrderFits();
      if rc == Success {
        ghost var u := Laid(r, last, |ring.Queue()| - 1);
        FinishedIsSound(ring, q, h, TdTrbs(r, SlotAddress(phys, last)), first, last);
        TdHasTrbs(r, SlotAddress(phys, last));
        TrbsAre(u, phys);
        Joined(q, o, laid, phys, ring.Queue(), ring.Order(), u, mid, ring.Mid(), r.preceding);
        laid := laid + [u];
      } else if rc != Status.BadArgument {
        LeftOverIsSound(ring, q, h, DataTrbs(r, 0, r.offset, r.bytes), fs);
        Grown(q, o, laid, phys, ring.Queue(), ring.Order());
        GrownThrough(q, o, laid, phys, mid, ring.Mid(), r.preceding);
        spoiled := spoiled || fs > 0;
      } else {
        assert ring.Queue() == q && ring.Order() == o;
        GrownThrough(q, o, laid, phys, mid, ring.Mid(), r.preceding);
      }
      LiesOnRing();
    }

    /** What OnRing and Clean say. */
    lemma LiesOnRing()
      ensures OnRing() <==>
        && ring.Valid() && ring.first < 0 && Chained(ring.Queue(), ring.Order(), laid, ring.phys)
        && (spoiled || Tidy(ring.Queue(), laid, ring.phys)) && Through(laid, ring.phys, ring.Mid()) && ring.Fits()
      ensures Clean() <==> ring.Valid() && !spoiled && Lead(ring.Queue(), laid, ring.phys) == 0
    {
    }

    lemma TrbsAre(u: Laid, phys: nat)
      requires u.request.maxPacket > 0 && u.last >= 0
      ensures u.Trbs(phys) == TdTrbs(u.request, SlotAddress(phys, u.last))
    {
    }

    lemma TdHasTrbs(r: Request, addr: nat)
      requires r.maxPacket > 0 && r.Valid()
      ensures |TdTrbs(r, addr)| > 0
    {
    }

    /** A transfer event for pending TRB i, the last one of TD j or one that belongs to no TD (j < 0). */
    method RetireOnRing(i: int, ghost j: int, ghost k: int)
      requires Stands() && 0 <= k < |ring.Order()| && ring.Order()[k] == i && j < |laid|
      requires if j >= 0 then k == laid[j].end else k < Lead(ring.State().Pending(), laid, ring.phys)
      modifies this`laid, ring`deq, ring`route
      ensures Stands() && laid == Shifted(old(laid)[if j < 0 then 0 else j + 1..], k + 1)
      ensures k < |old(ring.State().Pending())| && ring.State().Pending() == old(ring.State().Pending())[k + 1..]
      ensures j >= 0 && !spoiled ==> Lead(ring.State().Pending(), laid, ring.phys) == 0
      ensures old(ring.Valid()) ==> Passes(old(ring.State()), old(ring.hw), i)
    {
      hide TransferRing.Valid, Chained, Tidy, Lead, Retired, Executed, Laid.Trbs, Laid.Start, Ring.Inv, Ring.Pending,
        Ring.Order, MidLink, Through, LinkFits;
      ghost var s := ring.State();
      OrderHere(s, i, k);
      ghost var q, o := s.Pending(), s.Order();
      ring.Retire(i);
      RetiredHere(s, ring.State(), i, k);
      FewerThrough(laid, ring.phys, if j < 0 then 0 else j + 1, k + 1, MidLink(s), ring.Mid());
      if j < 0 {
        LeadDropped(q, o, laid, ring.phys, k + 1);
        laid := Shifted(laid, k + 1);
      } else {
        Dropped(q, o, laid, ring.phys, j + 1);
        laid := Shifted(laid[j + 1..], k + 1);
      }
    }

    /** The controller is still where the ring says if it has executed TRB i; otherwise it has TRBs left to execute. */
    ghost predicate Passes(s: Ring, hw: Controller, i: int)
      reads ring, ring.slots
    {
      (ring.Valid() <==> Executed(s, hw, i)) && (ring.hw.taken == ring.history ==> Executed(s, hw, i))
    }

    lemma OrderHere(s: Ring, i: int, k: int)
      requires s.Inv() && 0 <= k < |s.Order()| && s.Order()[k] == i
      ensures Clear(s.mem, s.phys, s.Route()) && s.PendingAt(i) && |s.Order()| == |s.Pending()|
    {
      OrderHas(s, i);
      OrderOnce(s);
    }

    lemma RetiredHere(s: Ring, s': Ring, i: int, k: int)
      requires Retired(s, s', i) && s.first < 0 && 0 <= k < |s.Order()| && s.Order()[k] == i
      ensures s.Inv() && s'.Inv() && 0 <= k + 1 <= |s.Pending()| && k + 1 <= |s.Order()|
      ensures s'.Pending() == s.Pending()[k + 1..] && s'.Order() == s.Order()[k + 1..]
      ensures MidShifted(MidLink(s), MidLink(s'), k + 1) && (LinkFits(s) ==> LinkFits(s'))
    {
      hide Ring.Inv, Ring.Pending, Ring.Order, MidLink, LinkFits, Names, RingSteps.Reseat;
      OrderNames(s, k);
      NextIndexNames(s, i);
      MidReseated(s, s.NextIndex(i));
      FitsReseated(s, s.NextIndex(i));
    }

    /**
     * What SetTRDQPtr makes of what is pending: the k TRBs in front of index i are gone, and the controller goes
     * on there.
     */
    ghost predicate GoesOnAt(s: Ring, s': Ring, i: int, k: int, hw: Controller) {
      && s.Inv() && s'.Inv() && s' == RingSteps.Reseat(s, i) && 0 <= k <= |s.Pending()| == |s.Order()|
      && s'.Pending() == s.Pending()[k..] && s'.Order() == s.Order()[k..]
      && hw.place == Place(i, s.PlaceOf(i).cs) && MidShifted(MidLink(s), MidLink(s'), k)
      && (LinkFits(s) ==> LinkFits(s'))
    }

    /** A place that has k TRBs in front of it: behind the last one of a TD, or the end. */
    ghost predicate Behind(s: Ring, i: int, k: int) {
      && s.Inv() && s.first < 0 && 0 <= i < s.Last() && Names(s, i) && Offset(s.Route(), s.PlaceOf(i)) == k
    }

    lemma BehindLast(s: Ring, k: int)
      requires s.Inv() && s.first < 0 && 0 <= k < |s.Order()|
      ensures Behind(s, s.NextIndex(s.Order()[k]), k + 1)
    {
      OrderNames(s, k);
      NextIndexNames(s, s.Order()[k]);
    }

    lemma BehindAll(s: Ring)
      requires s.Inv() && s.first < 0
      ensures Behind(s, s.enq, |s.Order()|)
    {
      EnqueueNamed(s);
      SlotsFrom(s.Route(), s.PlaceOf(s.enq));
    }

    lemma EnqueueNamed(s: Ring)
      requires s.Inv() && s.first < 0
      ensures 0 <= s.enq < s.Last() && Names(s, s.enq) && s.PlaceOf(s.enq) == s.Route().stop
      ensures s.Route().Turns() ==> s.Route().start.index <= s.Route().turn && 0 <= s.Route().stop.index
      ensures Slots(s.Route().From(s.Route().stop)) == []
    {
    }

    /** SetTRDQPtr to a place with k TRBs in front of it. */
    method SetDequeue(i: int, state: EndpointState, isStreams: bool, result: int, ghost k: int) returns (moved: bool)
      requires ring.Valid() && ring.first < 0 && Behind(ring.State(), i, k)
      modifies ring`deq, ring`route, ring`hw, ring`history
      ensures ring.Valid() && ring.first < 0
      ensures moved == (old(ring.Accepts(state, isStreams)) && Succeeds(result))
      ensures if moved then GoesOnAt(old(ring.State()), ring.State(), i, k, ring.hw)
              else ring.State() == old(ring.State()) && ring.hw == old(ring.hw)
    {
      hide TransferRing.Valid, Reseated, Names, Ring.Inv, Behind, GoesOnAt;
      ghost var s := ring.State();
      BehindMeans(s, i, k);
      var ret, dcs := ring.SetTRDQPtr(i, state, isStreams, result);
      moved := Succeeds(ret);
      if moved { MovedTo(s, ring.State(), i, k, dcs, ring.hw, ring.history); }
    }

    lemma BehindMeans(s: Ring, i: int, k: int)
      requires Behind(s, i, k)
      ensures s.Inv() && 0 <= i < s.Last() && Names(s, i)
    {
    }

    lemma MovedTo(s: Ring, s': Ring, i: int, k: int, dcs: bool, hw: Controller, history: seq<Body>)
      requires Behind(s, i, k) && exists was :: Reseated(s, s', i, dcs, was, hw, history)
      ensures GoesOnAt(s, s', i, k, hw)
    {
      OrderOnce(s);
      MidReseated(s, i);
      FitsReseated(s, i);
    }

    /**
     * The first n TDs are given up. If their TRBs are to be skipped, the controller goes on behind the last
     * one of them; then what is pending is what comes behind, and, unless a layout had failed half-way,
     * nothing but the other TDs.
     */
    method FlushOnRing(ghost n: int, reseatAt: int, state: EndpointState, isStreams: bool, result: int)
      returns (moved: bool)
      requires OnRing() && 0 <= n <= |laid|
      requires reseatAt >= 0 ==> n > 0 && reseatAt == NextSlot(laid[n - 1].last, ring.slots.Length)
      modifies this`laid, ring`deq, ring`route, ring`hw, ring`history
      ensures OnRing() && moved == (reseatAt >= 0 && old(ring.Accepts(state, isStreams)) && Succeeds(result))
      ensures if moved then
                var k := old(laid)[n - 1].end + 1;
                && 0 <= k <= |old(ring.Queue())| && ring.Queue() == old(ring.Queue())[k..]
                && laid == Shifted(old(laid)[n..], k) && ring.hw.place.index == reseatAt
                && (!spoiled ==> Clean())
              else laid == old(laid)[n..] && ring.Queue() == old(ring.Queue()) && ring.hw == old(ring.hw)
    {
      hide *;
      ghost var s := ring.State();
      OnRingMeans();
      FewerLie(s, laid, spoiled, n);
      moved := false;
      if reseatAt >= 0 {
        ghost var e := laid[n - 1].end;
        Reseats(s, n - 1);
        moved := SetDequeue(reseatAt, state, isStreams, result, e + 1);
        if moved {
          MovedPast(s, ring.State(), laid, spoiled, n, reseatAt, ring.hw);
          laid := Shifted(laid[n..], e + 1);
        }
      }
      if !moved { laid := laid[n..]; }
      IsOnRing();
    }

    lemma OnRingMeans()
      requires OnRing()
      ensures ring.Valid() && ring.first < 0 && LieOn(ring.State(), laid, spoiled)
      ensures ring.Queue() == ring.State().Pending()
    {
      hide LieOn, TransferRing.Valid, OnRing, Ring.Pending;
      OnRingIs();
      RingSound();
    }

    lemma IsOnRing()
      requires ring.Valid() && LieOn(ring.State(), laid, spoiled)
      ensures OnRing() && ring.Queue() == ring.State().Pending()
      ensures !spoiled && Lead(ring.Queue(), laid, ring.State().phys) == 0 ==> Clean()
    {
      hide LieOn, TransferRing.Valid, OnRing, Ring.Pending, Lead;
      OnRingIs();
    }

    /** The first n TDs are gone from the ring, with all that was in front of their last TRB. */
    lemma MovedPast(s: Ring, s': Ring, us: seq<Laid>, spoiled: bool, n: int, i: int, hw: Controller)
      requires LieOn(s, us, spoiled) && 0 < n <= |us| && GoesOnAt(s, s', i, us[n - 1].end + 1, hw)
      ensures var k := us[n - 1].end + 1;
        && LieOn(s', Shifted(us[n..], k), spoiled) && 0 <= k <= |s.Pending()| && s'.Pending() == s.Pending()[k..]
        && (!spoiled ==> Lead(s'.Pending(), Shifted(us[n..], k), s'.phys) == 0)
      ensures hw.place.index == i
    {
      hide Chained, Tidy, Lead, GoesOnAt, Ring.Inv, Ring.Pending, Ring.Order, MidLink, Through, LinkFits, Shifted;
      WentOn(s, s', i, us[n - 1].end + 1, hw);
      Dropped(s.Pending(), s.Order(), us, s.phys, n);
      FewerThrough(us, s.phys, n, us[n - 1].end + 1, MidLink(s), MidLink(s'));
    }

    lemma WentOn(s: Ring, s': Ring, i: int, k: int, hw: Controller)
      requires GoesOnAt(s, s', i, k, hw)
      ensures s.Inv() && s'.Inv() && 0 <= k <= |s.Pending()| == |s.Order()| && hw.place.index == i
      ensures s'.Pending() == s.Pending()[k..] && s'.Order() == s.Order()[k..] && s'.phys == s.phys
        && s'.first == s.first
      ensures MidShifted(MidLink(s), MidLink(s'), k) && (LinkFits(s) ==> LinkFits(s'))
    {
    }

    /** The slot behind a TD's last TRB names the place that has everything up to that TRB in front of it. */
    lemma Reseats(s: Ring, j: int)
      requires OnRing() && s == ring.State() && 0 <= j < |laid|
      ensures Behind(s, NextSlot(laid[j].last, ring.slots.Length), laid[j].end + 1)
    {
      hide TdTrbs, Tidy, Behind;
      assert laid[j].Lies(ring.Queue(), ring.Order(), ring.phys);
      BehindLast(s, laid[j].end);
    }

    // ---- scheduling ----

    /** The bytes that one max-burst round of the endpoint moves. */
    function Burst(): nat {
      maxPacket * (1 + maxBurst) * (1 + multiple)
    }

    /** What ScheduleTDs asks for, but for the interrupt. */
    function Asked(td: AsyncTD, d: Detail): (r: Request)
      reads td`bytesThisTD, td`bytesFollowingThisTD, td`bytesPreceedingThisTD, td`multiTDTransaction,
        td`finalTDInTransaction
    {
      Request(false, td.bytesThisTD, d.mystery, td.bytesPreceedingThisTD, false, td.multiTDTransaction,
              td.finalTDInTransaction, td.bytesFollowingThisTD, td.bytesPreceedingThisTD, d.immediate,
              maxPacket, maxBurst, multiple, inEndpoint, d.segment)
    }

    function RequestOf(td: AsyncTD, d: Detail): (r: Request)
      reads td`bytesThisTD, td`bytesFollowingThisTD, td`bytesPreceedingThisTD
      reads td`multiTDTransaction, td`finalTDInTransaction, td`interruptThisTD
      ensures r.maxPacket == maxPacket && r.bytes == td.bytesThisTD && Carries(r, d, inEndpoint)
      ensures d.Fits(td.bytesThisTD) && maxPacket > 0 ==> r.Valid() && r.NoEmptySegments()
    {
      Asked(td, d).(interruptNeeded := td.interruptThisTD)
    }

    lemma AsRegular(td: AsyncTD, d: Detail, pageOffset: nat)
      requires Regular(Asked(td, d), pageOffset)
      ensures Regular(RequestOf(td, d), pageOffset)
    {
    }

    lemma Described(td: AsyncTD, d: Detail)
      requires td.interruptThisTD
      ensures Describes(RequestOf(td, d), td.OnRing(), Burst())
    {
    }

    /** The ring takes every queued TD that it admits. */
    ghost predicate AllRegular(detail: AsyncTD -> Detail, pageOffset: AsyncTD -> nat)
      reads endpoint`maxTDBytes, endpoint.queued
      reads endpoint.queued.s`bytesThisTD, endpoint.queued.s`bytesFollowingThisTD,
        endpoint.queued.s`bytesPreceedingThisTD
      reads endpoint.queued.s`multiTDTransaction, endpoint.queued.s`finalTDInTransaction
    {
      maxPacket > 0 && forall td :: td in endpoint.queued.s ==>
        td.bytesThisTD <= endpoint.maxTDBytes && Regular(Asked(td, detail(td)), pageOffset(td))
    }

    /** The ring has room for a TD of the largest size. */
    ghost predicate Admits()
      reads endpoint`maxTDBytes, ring, ring.slots
    {
      Survives(ring.State(), ReservedTrbs(endpoint.maxTDBytes))
    }

    /** No TD is left to be scheduled, or none may be: the ring admits none, or a call of Abort is under way. */
    ghost predicate Exhausted()
      reads endpoint`maxTDBytes, endpoint`aborting, endpoint.queued, ring, ring.slots
    {
      endpoint.queued.s == [] || endpoint.aborting || !Admits()
    }

    /** The oldest queued TD goes to the ring, or back to where it was if it cannot be laid out. */
    method PlaceOne(td: AsyncTD, r: Request, ghost pageOffset: nat) returns (placed: bool)
      requires Valid() && !endpoint.holding && endpoint.queued.s != [] && td == endpoint.queued.s[0]
      requires Describes(r, td.OnRing(), Burst()) && (r.maxPacket > 0 ==> r.Valid() && r.NoEmptySegments())
      modifies this`laid, this`spoiled, ring, ring.slots, endpoint.queued, endpoint.scheduled
      modifies endpoint.tds`next, endpoint.tds`lastTrbIndex
      ensures Valid() && ring.Valid() && old(ring.Queue()) <= ring.Queue()
      ensures if placed
              then endpoint.scheduled.s == old(endpoint.scheduled.s + endpoint.queued.s[..1])
                   && endpoint.queued.s == old(endpoint.queued.s)[1..]
              else endpoint.scheduled.s == old(endpoint.scheduled.s) && endpoint.queued.s == old(endpoint.queued.s)
      ensures (placed ==> spoiled == old(spoiled)) && (old(Clean()) && !spoiled ==> Clean())
        && (old(spoiled) ==> spoiled)
      ensures r.maxPacket > 0 && Regular(r, pageOffset) && old(ring.HasRoomFor(ReservedTrbs(r.bytes))) ==> placed
      ensures if placed then |laid| == |old(laid)| + 1 && old(laid) <= laid && laid[|old(laid)|].request == r
              else laid == old(laid)
    {
      hide Valid, OnRing, Clean, AsyncEndpoint.Valid, TransferRing.Valid, TransferRing.Queue, TransferRing.State,
        TransferRing.HasRoomFor, TransferRing.Room, Regular, Describes, TdTrbs, SlotAddress, Agree, SharesOf,
        TDQueue.Valid, Request.Valid, Request.NoEmptySegments;
      ValidMeans();
      ghost var commands, were := endpoint.log.Commands(), laid;
      var rc, last := PutOnRing(r, pageOffset);
      placed := rc == Success;
      assert placed ==> laid[..|laid| - 1] == were && laid[|laid| - 1].request == r && laid[|laid| - 1].last == last;
      ListPlaced(placed, last, td);
    }

    /** The lists' part of it. */
    method ListPlaced(placed: bool, last: nat, td: AsyncTD)
      requires OnRing() && endpoint.Valid() && endpoint.numTRBs == ring.slots.Length
      requires !endpoint.holding && endpoint.queued.s != [] && td == endpoint.queued.s[0]
      requires placed ==> |laid| > 0 && laid[|laid| - 1].last == last
      requires placed ==> Describes(laid[|laid| - 1].request, td.OnRing(), Burst())
      requires Agree(if placed then laid[..|laid| - 1] else laid, SharesOf(endpoint.scheduled.s), Burst())
      modifies endpoint.queued, endpoint.scheduled, endpoint.tds`next, endpoint.tds`lastTrbIndex
      ensures Valid()
      ensures if placed
              then endpoint.scheduled.s == old(endpoint.scheduled.s + endpoint.queued.s[..1])
                   && endpoint.queued.s == old(endpoint.queued.s)[1..]
              else endpoint.scheduled.s == old(endpoint.scheduled.s) && endpoint.queued.s == old(endpoint.queued.s)
    {
      hide Valid, OnRing, AsyncEndpoint.Valid, TransferRing.Valid, Describes, Agree, SharesOf, TDQueue.Valid;
      ghost var s, share, shares := endpoint.scheduled.s, td.OnRing(), SharesOf(endpoint.scheduled.s);
      endpoint.ScheduleNext(placed, last);
      if placed {
        ghost var u := laid[|laid| - 1];
        OneMoreShare(s, td, shares);
        SameDescription(u.request, share, last);
        OneMoreAgrees(laid[..|laid| - 1], shares, u, share.(last := last), Burst());
        assert laid[..|laid| - 1] + [u] == laid;
      } else {
        assert SharesOf(endpoint.scheduled.s) == shares;
      }
      Whole();
    }

    lemma OneMoreShare(s: seq<AsyncTD>, td: AsyncTD, shares: seq<Share>)
      requires |shares| == |s| && forall j :: 0 <= j < |s| ==> shares[j] == s[j].OnRing()
      ensures SharesOf(s + [td]) == shares + [td.OnRing()]
    {
      hide SharesOf;
    }

    lemma SameDescription(r: Request, t: Share, last: nat)
      requires Describes(r, t, Burst())
      ensures Describes(r, t.(last := last), Burst())
    {
    }

    /**
     * One round of ScheduleTDs: the oldest queued TD is laid out on the ring only if the ring admits one, and
     * whenever it does if its segments are as the driver reckons with.
     */
    method ScheduleOne(detail: AsyncTD -> Detail, ghost pageOffset: AsyncTD -> nat) returns (scheduled: bool)
      requires Valid() && !endpoint.holding && endpoint.queued.s != []
      requires var td := endpoint.queued.s[0]; detail(td).Fits(td.bytesThisTD)
      modifies this`laid, this`spoiled, ring, ring.slots, endpoint.queued, endpoint.scheduled
      modifies endpoint.tds`next, endpoint.tds`lastTrbIndex
      ensures Valid() && ring.Valid() && old(ring.Queue()) <= ring.Queue()
      ensures if scheduled
              then endpoint.scheduled.s == old(endpoint.scheduled.s + endpoint.queued.s[..1])
                   && endpoint.queued.s == old(endpoint.queued.s)[1..]
              else endpoint.scheduled.s == old(endpoint.scheduled.s) && endpoint.queued.s == old(endpoint.queued.s)
      ensures (scheduled ==> old(Admits())) && (old(AllRegular(detail, pageOffset) && Admits()) ==> scheduled)
      ensures !old(Admits()) ==> !Admits() && ring.State() == old(ring.State())
      ensures scheduled || old(AllRegular(detail, pageOffset)) ==> spoiled == old(spoiled)
      ensures if scheduled
              then |laid| == |old(laid)| + 1 && old(laid) <= laid
                   && Carries(laid[|old(laid)|].request, detail(old(endpoint.queued.s)[0]), inEndpoint)
              else laid == old(laid)
      ensures (old(Clean()) && !spoiled ==> Clean()) && (old(spoiled) ==> spoiled)
    {
      hide Valid, OnRing, Clean, Listed, AsyncEndpoint.Valid, TransferRing.Valid, TransferRing.Queue,
        TransferRing.State, TransferRing.HasRoomFor, TransferRing.Room, Survives, Regular, Describes, Request.Valid,
        Request.NoEmptySegments, TDQueue.Valid, Asked, Carries;
      ValidMeans();
      ghost var commands := endpoint.log.Commands();
      endpoint.ValidHeads();
      RingSound();
      scheduled := false;
      var admitted := ring.CanTDFragmentFit(endpoint.maxTDBytes);
      if !admitted {
        return;
      }
      var td := endpoint.queued.head;
      var r := RequestOf(td, detail(td));
      endpoint.LiveAsks(td);
      Described(td, detail(td));
      if td.bytesThisTD <= endpoint.maxTDBytes { RoomForSmaller(ring, r.bytes, endpoint.maxTDBytes); }
      if Regular(Asked(td, detail(td)), pageOffset(td)) { AsRegular(td, detail(td), pageOffset(td)); }
      scheduled := PlaceOne(td, r, pageOffset(td));
    }

    lemma RingValid()
      requires Valid()
      ensures ring.Valid() && ring.first < 0 && endpoint.numTRBs == ring.slots.Length
    {
    }

    lemma ValidMeans()
      requires Valid()
      ensures OnRing() && Listed() && endpoint.Valid() && endpoint.numTRBs == ring.slots.Length
    {
    }

    lemma Whole()
      requires OnRing() && Listed() && endpoint.Valid() && endpoint.numTRBs == ring.slots.Length
      ensures Valid()
    {
    }

    lemma RingSound()
      requires OnRing()
      ensures ring.Valid() && ring.first < 0 && ring.Fits()
    {
    }

    /** The details given for the queued TDs are such as the IOMMU and the callers of CreateTDs give. */
    ghost predicate AllFit(detail: AsyncTD -> Detail)
      reads endpoint.queued, endpoint.queued.s`bytesThisTD
    {
      forall td :: td in endpoint.queued.s ==> detail(td).Fits(td.bytesThisTD)
    }

    /**
     * ScheduleTDs: queued TDs go to the ring one by one, as long as it admits another one and lays it out.
     * If their segments are as the driver reckons with, none fails half-way, and it goes on until none is
     * queued or the ring admits no more.
     */
    method ScheduleTDs(detail: AsyncTD -> Detail, ghost pageOffset: AsyncTD -> nat) returns (ghost n: nat)
      requires Valid() && !endpoint.holding && AllFit(detail)
      modifies this`laid, this`spoiled, ring, ring.slots, endpoint.queued, endpoint.scheduled
      modifies endpoint.tds`next, endpoint.tds`lastTrbIndex
      ensures Valid() && n <= |old(endpoint.queued.s)| && (endpoint.aborting ==> n == 0)
      ensures endpoint.scheduled.s == old(endpoint.scheduled.s + endpoint.queued.s[..n])
      ensures endpoint.queued.s == old(endpoint.queued.s)[n..] && ring.Valid() && old(ring.Queue()) <= ring.Queue()
      ensures old(AllRegular(detail, pageOffset)) ==> Exhausted()
      ensures !old(Admits()) ==> n == 0
      ensures n == 0 && (old(AllRegular(detail, pageOffset)) || !old(Admits())) ==> ring.State() == old(ring.State())
      ensures old(AllRegular(detail, pageOffset)) ==> spoiled == old(spoiled)
      ensures (old(Clean()) && !spoiled ==> Clean()) && (old(spoiled) ==> spoiled)
      ensures LaidFor(old(laid), laid, old(endpoint.queued.s)[..n], detail, inEndpoint)
    {
      hide Valid, OnRing, Clean, Listed, AsyncEndpoint.Valid, TransferRing.Valid, TransferRing.Queue,
        TransferRing.State, Regular, Describes, Detail.Fits, RequestOf, Asked, Admits, Carries, LaidFor;
      ValidMeans();
      ghost var commands, were, tds := endpoint.log.Commands(), laid, endpoint.queued.s;
      n := 0;
      NoneLaidYet(laid, tds[..0], detail);
      QueuedHead();
      if endpoint.queued.head == null || endpoint.aborting {
        return;
      }
      while true
        invariant Valid() && !endpoint.holding && n < |old(endpoint.queued.s)| && AllFit(detail)
        invariant endpoint.scheduled.s == old(endpoint.scheduled.s + endpoint.queued.s[..n])
        invariant endpoint.queued.s == old(endpoint.queued.s)[n..]
        invariant ring.Valid() && old(ring.Queue()) <= ring.Queue()
        invariant old(AllRegular(detail, pageOffset)) ==> AllRegular(detail, pageOffset) && spoiled == old(spoiled)
        invariant (old(Clean()) && !spoiled ==> Clean()) && (old(spoiled) ==> spoiled)
        invariant LaidFor(were, laid, tds[..n], detail, inEndpoint)
        invariant if n == 0 then ring.State() == old(ring.State()) && Admits() == old(Admits()) else old(Admits())
        decreases |endpoint.queued.s|
      {
        ghost var us := laid;
        var scheduled := ScheduleOne(detail, pageOffset);
        if !scheduled {
          break;
        }
        OneMoreLaid(were, us, laid, tds, n, detail, inEndpoint);
        n := n + 1;
        QueuedHead();
        if endpoint.queued.head == null {
          break;
        }
      }
    }

    lemma NoneLaidYet(us: seq<Laid>, tds: seq<AsyncTD>, detail: AsyncTD -> Detail)
      requires tds == []
      ensures LaidFor(us, us, tds, detail, inEndpoint)
    {
    }

    lemma QueuedHead()
      requires Valid()
      ensures endpoint.queued.head == if endpoint.queued.s == [] then null else endpoint.queued.s[0]
      ensures ring.Valid()
    {
      endpoint.ValidHeads();
    }

    // ---- flushing ----

    /**
     * FlushTDs with its SetTRDQPtr: the TDs of a command at the head of the scheduled list are done. If the
     * controller is moved, it goes on behind them: what is pending is what came behind them, and, unless a
     * layout had failed half-way, exactly the TDs that are still scheduled.
     */
    method FlushTDs(command: Command?, updateDequeueOption: int, state: EndpointState, isStreams: bool, result: int)
      returns (moved: bool, ghost n: nat)
      requires Valid() && !endpoint.holding
      modifies this`laid, ring`deq, ring`route, ring`hw, ring`history
      modifies endpoint`holding, endpoint.scheduled, endpoint.done, endpoint.tds`next
      ensures Valid() && !endpoint.holding && n <= |old(endpoint.scheduled.s)|
      ensures endpoint.scheduled.s == old(endpoint.scheduled.s)[n..]
      ensures endpoint.done.s == old(endpoint.done.s + endpoint.scheduled.s[..n])
      ensures AreOf(command, old(AsyncEndpoint.CommandsOf(endpoint.scheduled.s)), n)
      ensures command != null && endpoint.scheduled.s != [] ==> endpoint.scheduled.s[0].command != command
      ensures moved <==>
        && n > 0 && updateDequeueOption != 0 && !(updateDequeueOption == 1 && endpoint.scheduled.s != [])
        && old(ring.Accepts(state, isStreams)) && Succeeds(result)
      ensures moved ==> var k := old(laid)[n - 1].end + 1;
        && 0 <= k <= |old(ring.Queue())| && ring.Queue() == old(ring.Queue())[k..]
        && (!spoiled ==> Clean() && ring.Queue() == TrbsOf(laid, ring.phys))
      ensures !moved ==> ring.Queue() == old(ring.Queue())
    {
      hide Valid, OnRing, Clean, AsyncEndpoint.Valid, TransferRing.Valid, Agree, AreOf, SharesOf, TDQueue.Valid,
        NextSlot, Shifted, Ring.Pending, TransferRing.Queue, TransferRing.State;
      RingValid();
      ghost var q := ring.Queue();
      var reseatAt;
      reseatAt, n := FlushLists(command, updateDequeueOption);
      assert ring.Valid() && ring.Queue() == q;
      moved := GiveUp(n, reseatAt, state, isStreams, result);
      if moved && !spoiled {
        ValidMeans();
        CleanIsAll();
      }
    }

    /**
     * The first n of the TDs laid out are no longer scheduled; the ring is told, and the controller moved if it
     * has to be.
     */
    method GiveUp(ghost n: int, reseatAt: int, state: EndpointState, isStreams: bool, result: int) returns (moved: bool)
      requires OnRing() && endpoint.Valid() && endpoint.numTRBs == ring.slots.Length
      requires 0 <= n <= |laid| && Agree(laid[n..], SharesOf(endpoint.scheduled.s), Burst())
      requires reseatAt >= 0 ==> n > 0 && reseatAt == NextSlot(laid[n - 1].last, ring.slots.Length)
      modifies this`laid, ring`deq, ring`route, ring`hw, ring`history
      ensures Valid() && ring.Valid()
        && moved == (reseatAt >= 0 && old(ring.Accepts(state, isStreams)) && Succeeds(result))
      ensures moved ==> var k := old(laid)[n - 1].end + 1;
        && 0 <= k <= |old(ring.Queue())| && ring.Queue() == old(ring.Queue())[k..]
        && (!spoiled ==> Clean())
      ensures !moved ==> ring.Queue() == old(ring.Queue()) && laid == old(laid)[n..]
    {
      hide Valid, OnRing, Clean, AsyncEndpoint.Valid, TransferRing.Valid, Agree, SharesOf, TDQueue.Valid, NextSlot,
        Shifted, Ring.Pending, TransferRing.Queue;
      ghost var commands, were := endpoint.log.Commands(), laid;
      RingSound();
      moved := FlushOnRing(n, reseatAt, state, isStreams, result);
      RingSound();
      ShiftedAgrees(were[n..], SharesOf(endpoint.scheduled.s), if moved then were[n - 1].end + 1 else 0, Burst());
      Whole();
    }

    /** The lists' part of it. */
    method FlushLists(command: Command?, updateDequeueOption: int) returns (reseatAt: int, ghost n: nat)
      requires Valid() && !endpoint.holding
      modifies endpoint`holding, endpoint.scheduled, endpoint.done, endpoint.tds`next
      ensures OnRing() && endpoint.Valid() && !endpoint.holding && n <= |old(endpoint.scheduled.s)| == |laid|
      ensures endpoint.scheduled.s == old(endpoint.scheduled.s)[n..]
      ensures endpoint.done.s == old(endpoint.done.s + endpoint.scheduled.s[..n])
      ensures AreOf(command, old(AsyncEndpoint.CommandsOf(endpoint.scheduled.s)), n)
      ensures command != null && endpoint.scheduled.s != [] ==> endpoint.scheduled.s[0].command != command
      ensures Agree(laid[n..], SharesOf(endpoint.scheduled.s), Burst())
      ensures reseatAt ==
              if n == 0 || updateDequeueOption == 0 || (updateDequeueOption == 1 && endpoint.scheduled.s != []) then -1
              else NextSlot(laid[n - 1].last, ring.slots.Length)
      ensures reseatAt >= 0 <==>
        n > 0 && updateDequeueOption != 0 && !(updateDequeueOption == 1 && endpoint.scheduled.s != [])
    {
      hide Valid, OnRing, AsyncEndpoint.Valid, TransferRing.Valid, Describes, Agree, SharesOf, TDQueue.Valid, NextSlot,
        Shifted;
      ValidMeans();
      ghost var commands, s, shares := endpoint.log.Commands(), endpoint.scheduled.s, SharesOf(endpoint.scheduled.s);
      reseatAt, n := endpoint.FlushTDs(command, updateDequeueOption);
      AgreeAt(laid, shares, n - 1, Burst());
      SharesBehind(s, n);
      FewerAgree(laid, shares, n, Burst());
    }

    // ---- transfer events ----

    /** TRB k is the last one of TD j; or (j < 0) it is in front of all TDs, left there by TDs that were given up. */
    ghost predicate EventFor(k: int, j: int)
      reads this`laid, ring, ring.slots
    {
      && 0 <= k < |ring.Order()| && j < |laid|
      && if j >= 0 then k == laid[j].end else ring.Valid() && k < Lead(ring.Queue(), laid, ring.phys)
    }

    /** No other TD has its last TRB at the index of such an event. */
    lemma OnlyOne(k: int, j: int, n: int)
      requires OnRing() && EventFor(k, j) && 0 <= n < |laid|
      ensures laid[n].last == ring.Order()[k] <==> n == j
    {
      hide TransferRing.Valid, Ring.Order, Lead, Laid.Trbs, Laid.Start, Tidy;
      OrderFits();
      ghost var q, o, phys := ring.Queue(), ring.Order(), ring.phys;
      if laid[n].last == o[k] {
        LastIsEnd(q, o, laid, phys, n, k);
        LeadIsFirst(q, o, laid, phys, n);
        if 0 <= j < n { EndsGrow(q, o, laid, phys, j, n); }
        if n < j { EndsGrow(q, o, laid, phys, n, j); }
      }
      if n == j {
        assert laid[j].Lies(q, o, phys);
      }
    }

    /** With a TRB pending, the enqueue index is not the dequeue index. */
    lemma Busy()
      requires ring.Valid() && ring.first < 0
      ensures ring.Order() != [] ==> ring.enq != ring.deq
    {
    }

    /** The lists' part of it: the TD is found, and those in front of it are completed. */
    method FindTD(i: int, ghost j: int, ghost k: int) returns (td: AsyncTD?)
      requires Valid() && !endpoint.holding && EventFor(k, j) && ring.Order()[k] == i
      modifies endpoint`log, endpoint`live, endpoint`facts, endpoint`handed, endpoint`holding, endpoint.scheduled,
        endpoint.done, endpoint.free
      modifies endpoint.log.Commands()
      modifies endpoint.tds`next, endpoint.tds`shortfall, endpoint.tds`absoluteShortfall, endpoint.tds`interruptThisTD
      ensures OnRing() && endpoint.Valid() && j < |old(endpoint.scheduled.s)| == |laid|
      ensures endpoint.holding == (j >= 0) && (td == null <==> j < 0)
      ensures j >= 0 ==> td == old(endpoint.scheduled.s)[j] && endpoint.Held(td) && endpoint.HeldUnheard()
      ensures j >= 0 ==> td.interruptThisTD == old(endpoint.scheduled.s[j].interruptThisTD)
      ensures endpoint.scheduled.s == old(endpoint.scheduled.s)[if j < 0 then 0 else j + 1..]
      ensures endpoint.queued.s == old(endpoint.queued.s)
      ensures endpoint.done.s == if j > 0 then [] else old(endpoint.done.s)
      ensures endpoint.log ==
              if j > 0 then old(endpoint.log).(completed := old(endpoint.log.completed + |endpoint.done.s|) + j)
              else old(endpoint.log)
      ensures Agree(laid[if j < 0 then 0 else j + 1..], SharesOf(endpoint.scheduled.s), Burst())
    {
      hide Valid, OnRing, AsyncEndpoint.Valid, TransferRing.Valid, Describes, Agree, SharesOf, TDQueue.Valid, NextSlot,
        Shifted, EventFor, TransferRing.Order, TransferRing.Queue, Log.Commands;
      ValidMeans();
      ghost var s, shares := endpoint.scheduled.s, SharesOf(endpoint.scheduled.s);
      LastAt(k, j);
      AgreeAt(laid, shares, 0, Burst());
      EventForMeans(k, j);
      ghost var orphans: nat;
      td, orphans := endpoint.GetTDFromActiveQueueWithIndex(i);
      assert td == null ==> j < 0 by { if j >= 0 { assert s[j] in s; } }
      assert td != null ==> orphans == j;
      SharesBehind(s, if j < 0 then 0 else j + 1);
      FewerAgree(laid, shares, if j < 0 then 0 else j + 1, Burst());
    }

    /** The TD that it is for, and no other, is scheduled with its last TRB at the event's index. */
    lemma LastAt(k: int, j: int)
      requires OnRing() && Listed() && EventFor(k, j)
      ensures 0 <= k < |ring.Order()| && j < |laid| == |endpoint.scheduled.s|
      ensures forall n :: 0 <= n < |endpoint.scheduled.s| ==>
        (endpoint.scheduled.s[n].lastTrbIndex == ring.Order()[k] <==> n == j)
    {
      hide OnRing, Describes, EventFor, TransferRing.Order, TransferRing.Queue;
      EventForMeans(k, j);
      var s := endpoint.scheduled.s;
      forall n | 0 <= n < |s| ensures s[n].lastTrbIndex == ring.Order()[k] <==> n == j {
        OnlyOne(k, j, n);
        assert SharesOf(s)[n] == s[n].OnRing();
      }
    }

    lemma EventForMeans(k: int, j: int)
      requires EventFor(k, j)
      ensures 0 <= k < |ring.Order()| && j < |laid|
    {
    }

    /**
     * A transfer event for the TRB at index i: everything up to that TRB is done, on the ring and on the lists. All
     * is as it should be if the controller has executed that TRB. Otherwise, as on a halted endpoint, the controller
     * must be moved before it goes on.
     */
    method TakeEvent(i: int, ghost j: int, ghost k: int) returns (td: AsyncTD?)
      requires Valid() && !endpoint.holding && EventFor(k, j) && ring.Order()[k] == i
      modifies this`laid, ring`deq, ring`route
      modifies endpoint`log, endpoint`live, endpoint`facts, endpoint`handed, endpoint`holding, endpoint.scheduled,
        endpoint.done, endpoint.free
      modifies endpoint.log.Commands()
      modifies endpoint.tds`next, endpoint.tds`shortfall, endpoint.tds`absoluteShortfall, endpoint.tds`interruptThisTD
      ensures Kept() && k < |old(ring.Queue())| && ring.State().Pending() == old(ring.Queue())[k + 1..]
      ensures Passes(old(ring.State()), old(ring.hw), i)
      ensures j >= 0 && !spoiled ==> Lead(ring.State().Pending(), laid, ring.phys) == 0
      ensures j < |old(endpoint.scheduled.s)| && endpoint.holding == (j >= 0) && (td == null <==> j < 0)
      ensures j >= 0 ==> td == old(endpoint.scheduled.s)[j] && endpoint.Held(td) && endpoint.HeldUnheard()
      ensures j >= 0 ==> td.interruptThisTD == old(endpoint.scheduled.s[j].interruptThisTD)
      ensures endpoint.scheduled.s == old(endpoint.scheduled.s)[if j < 0 then 0 else j + 1..]
      ensures endpoint.queued.s == old(endpoint.queued.s)
      ensures endpoint.done.s == if j > 0 then [] else old(endpoint.done.s)
      ensures endpoint.log ==
              if j > 0 then old(endpoint.log).(completed := old(endpoint.log.completed + |endpoint.done.s|) + j)
              else old(endpoint.log)
    {
      hide OnRing, Valid, Clean, AsyncEndpoint.Valid, TransferRing.Valid, Agree, SharesOf, TDQueue.Valid, Shifted,
        Log.Commands, TransferRing.Order, TransferRing.Queue, TransferRing.State, Executed, Lead, EventFor, Kept,
        Passes;
      ValidMeans();
      QueueThere(k, j);
      td := FindTD(i, j, k);
      if td != null && ring.enq == ring.deq {
        assert false;
      }
      RetireTaken(i, j, k);
    }

    /** The same, for a TRB that the controller has executed. */
    method TakeExecuted(i: int, ghost j: int, ghost k: int, ghost detail: AsyncTD -> Detail,
                        ghost pageOffset: AsyncTD -> nat)
      returns (td: AsyncTD?)
      requires Valid() && !endpoint.holding && EventFor(k, j) && ring.Order()[k] == i
        && Executed(ring.State(), ring.hw, i)
      modifies this`laid, ring`deq, ring`route
      modifies endpoint`log, endpoint`live, endpoint`facts, endpoint`handed, endpoint`holding, endpoint.scheduled,
        endpoint.done, endpoint.free
      modifies endpoint.log.Commands()
      modifies endpoint.tds`next, endpoint.tds`shortfall, endpoint.tds`absoluteShortfall, endpoint.tds`interruptThisTD
      ensures Valid() && ring.Valid() && k < |old(ring.Queue())| && ring.Queue() == old(ring.Queue())[k + 1..]
      ensures j >= 0 && !spoiled ==> Clean()
      ensures j < |old(endpoint.scheduled.s)| && endpoint.holding == (j >= 0) && (td == null <==> j < 0)
      ensures j >= 0 ==> td == old(endpoint.scheduled.s)[j] && endpoint.Held(td) && endpoint.HeldUnheard()
      ensures j >= 0 ==> td.interruptThisTD == old(endpoint.scheduled.s[j].interruptThisTD)
      ensures endpoint.scheduled.s == old(endpoint.scheduled.s)[if j < 0 then 0 else j + 1..]
      ensures endpoint.queued.s == old(endpoint.queued.s)
      ensures endpoint.done.s == if j > 0 then [] else old(endpoint.done.s)
      ensures endpoint.log ==
              if j > 0 then old(endpoint.log).(completed := old(endpoint.log.completed + |endpoint.done.s|) + j)
              else old(endpoint.log)
      ensures old(AllFit(detail)) ==> AllFit(detail)
      ensures old(AllRegular(detail, pageOffset)) ==> AllRegular(detail, pageOffset)
    {
      hide *;
      ValidMeans();
      endpoint.ValidLists();
      QueueThereNow(k, j);
      ghost var s, hw := ring.State(), ring.hw;
      td := TakeEvent(i, j, k);
      PassedAll(s, hw, i);
    }

    /** The ring's part of it. */
    method RetireTaken(i: int, ghost j: int, ghost k: int)
      requires OnRing() && endpoint.Valid() && endpoint.numTRBs == ring.slots.Length && EventFor(k, j)
        && ring.Order()[k] == i
      requires j < |laid| && Agree(laid[if j < 0 then 0 else j + 1..], SharesOf(endpoint.scheduled.s), Burst())
      modifies this`laid, ring`deq, ring`route
      ensures Kept() && k < |old(ring.Queue())| && ring.State().Pending() == old(ring.Queue())[k + 1..]
      ensures Passes(old(ring.State()), old(ring.hw), i)
      ensures j >= 0 && !spoiled ==> Lead(ring.State().Pending(), laid, ring.phys) == 0
    {
      hide Kept, Stands, OnRing, AsyncEndpoint.Valid, TransferRing.Valid, Agree, SharesOf, TDQueue.Valid,
        Shifted, TransferRing.Order, TransferRing.State, Executed, Lead, Passes;
      ghost var commands, were := endpoint.log.Commands(), laid;
      QueueThere(k, j);
      OnRingIs();
      RingIs();
      RetireOnRing(i, j, k);
      ShiftedAgrees(were[if j < 0 then 0 else j + 1..], SharesOf(endpoint.scheduled.s), k + 1, Burst());
      WholeKept();
    }

    lemma WholeKept()
      requires Stands() && Listed() && endpoint.Valid() && endpoint.numTRBs == ring.slots.Length
      ensures Kept()
    {
    }

    lemma KeptMeans()
      requires Kept()
      ensures Stands() && Listed() && endpoint.Valid() && endpoint.numTRBs == ring.slots.Length
    {
    }

    /** The controller has executed the TRB that the event was for. */
    lemma PassedAll(s: Ring, hw: Controller, i: int)
      requires Kept() && Passes(s, hw, i) && Executed(s, hw, i)
      ensures Valid() && ring.Valid() && ring.Queue() == ring.State().Pending()
      ensures !spoiled && Lead(ring.State().Pending(), laid, ring.phys) == 0 ==> Clean()
    {
      hide Kept, Valid, TransferRing.Valid, Executed, Lead, TransferRing.State;
      OnRingIs();
      RingIs();
    }

    lemma QueueThere(k: int, j: int)
      requires OnRing() && EventFor(k, j)
      ensures ring.Valid() && ring.first < 0 && 0 <= k < |ring.Order()| == |ring.Queue()| && ring.enq != ring.deq
        && j < |laid|
      ensures if j >= 0 then k == laid[j].end else k < Lead(ring.Queue(), laid, ring.phys)
    {
      hide TransferRing.Valid, Ring.Order, Lead, Laid.Trbs, Laid.Start, Tidy;
      OrderFits();
      Busy();
    }

    // ---- an event in the middle of a TD ----

    /** All TDs laid out are such that only their last TRBs raise events, unless there is an error. */
    ghost predicate AllPlain()
      reads this`laid
    {
      forall j :: 0 <= j < |laid| ==> Plain(laid[j].request)
    }

    /** A pending TRB that raises an event without an error is one that ProcessTransferEvent is for. */
    lemma EventsAreFor(k: int) returns (j: int)
      requires OnRing() && !spoiled && AllPlain() && 0 <= k < |ring.Order()| == |ring.Queue()|
      requires ring.Queue()[k].control.ioc || ring.Queue()[k].control.isp
      ensures EventFor(k, j)
    {
      hide TransferRing.Valid, TdTrbs, Ring.Order, TransferRing.Queue, Chained, Tidy, Laid.Lies, Plain, SlotAddress;
      var q, o, phys := ring.Queue(), ring.Order(), ring.phys;
      if k < Lead(q, laid, phys) {
        return -1;
      }
      EndsLast(q, laid, phys);
      j := TidyCovers(q, o, laid, phys, k, |laid|);
      PartOf(q, o, laid, phys, j);
      OnlyLastTells(laid[j].request, SlotAddress(phys, laid[j].last));
      var ts, n := laid[j].Trbs(phys), k - laid[j].Start(phys);
      assert ts[n] == q[k];
    }

    static lemma EndsLast(q: seq<Body>, us: seq<Laid>, phys: nat)
      requires Tidy(q, us, phys)
      ensures |us| > 0 ==> us[|us| - 1].end == |q| - 1
    {
    }

    /** What is pending from the k-th TRB on is the trail from its index. */
    lemma PendingTrail(s: Ring, k: int)
      requires s.Inv() && s.first < 0 && 0 <= k < |s.Order()|
      ensures var i := s.Order()[k];
        && 0 <= i < s.Last() && Names(s, i) && Offset(s.Route(), s.PlaceOf(i)) == k <= |s.Pending()|
        && Executes(Trail(s, i)) == s.Pending()[k..]
        && |Trail(s, i)| > 0 && !Trail(s, i)[0].IsLink()
    {
      OrderNames(s, k);
      var i := s.Order()[k];
      SuffixFrom(s.mem, s.phys, s.Route(), s.PlaceOf(i));
      TrailIsPending(s, i);
      NoLinkThere(s, i);
    }

    lemma NoLinkThere(s: Ring, i: int)
      requires s.Inv() && s.first < 0 && i in s.Order() && 0 <= i < s.Last() && Names(s, i)
      ensures |Trail(s, i)| > 0 && !Trail(s, i)[0].IsLink()
    {
      OrderHas(s, i);
      TrailStart(s, i);
    }

    /**
     * CountRingToED, for an event at any TRB of TD j: it ends at the TD's last TRB, so that the TD is found; and
     * if `rem` bytes of that TRB have not been moved, it comes to the bytes of the TD less those moved.
     */
    lemma WalkFindsTD(j: int, k: int, i: int, m: int, index: int, rem: nat, total: nat)
      requires OnRing() && 0 <= j < |laid| && laid[j].Start(ring.phys) <= k <= laid[j].end && k < |ring.Order()|
        && ring.Order()[k] == i
      requires ring.State().Inv() && 0 <= i < ring.State().Last() && Names(ring.State(), i)
      requires WalksTo(ring.State(), i, m, index, rem, total) && Plain(laid[j].request)
      ensures index == laid[j].last
      ensures var r, q := laid[j].request, k - laid[j].Start(ring.phys);
        r.immediate.None? && !r.IsNoopOrStatus() && r.bytes > 0 && 0 <= q < |DataTrbs(r, 0, r.offset, r.bytes)| ==>
          total == r.bytes - (BytesBefore(DataTrbs(r, 0, r.offset, r.bytes), q + 1) - rem)
    {
      hide TransferRing.Valid, Tidy, TdTrbs, DataTrbs, Ring.Inv, Ring.Pending, Ring.Order, Ring.Route, Names, Trail,
        Executes, WalksTo, Offset, BytesBefore, Plain, Request.IsNoopOrStatus, SlotAddress, MidLink, LinkFits;
      var s, u, phys := ring.State(), laid[j], ring.phys;
      OrderFits();
      LeadIsFirst(ring.Queue(), ring.Order(), laid, phys, j);
      PartOf(ring.Queue(), ring.Order(), laid, phys, j);
      assert u.Lies(ring.Queue(), ring.Order(), phys);
      PendingTrail(s, k);
      var ts, q := u.Trbs(phys), k - u.Start(phys);
      assert ts[q..] == ring.Queue()[k..][..u.end + 1 - k];
      CountsTheRest(s, i, m, index, rem, total, u.request, SlotAddress(phys, u.last), q);
    }

    /**
     * The last TRB of every TD on the ring raises an event. It is chained to the next TD only if both belong to one
     * transaction.
     */
    lemma LastRaises(j: int)
      requires Valid() && 0 <= j < |laid|
      ensures ring.Valid() && 0 <= laid[j].end < |ring.Queue()| && j < |endpoint.scheduled.s|
      ensures var c, td := ring.Queue()[laid[j].end].control, endpoint.scheduled.s[j];
        && c.ioc && td.interruptThisTD
        && (c.chain ==> td.multiTDTransaction && !td.finalTDInTransaction)
        && (laid[j].Start(ring.phys) < laid[j].end && td.multiTDTransaction && !td.finalTDInTransaction ==> c.chain)
    {
      hide OnRing, AsyncEndpoint.Valid, TransferRing.Valid, TdTrbs, DataTrbs, Tidy, Through, Burst, SlotAddress,
        SharesOf, Ring.Order, Ring.Pending;
      ValidMeans();
      LiesOnRing();
      OrderFits();
      var q, o, phys, s := ring.Queue(), ring.Order(), ring.phys, endpoint.scheduled.s;
      PartOf(q, o, laid, phys, j);
      LeadIsFirst(q, o, laid, phys, j);
      assert laid[j].Lies(q, o, phys);
      AgreeAt(laid, SharesOf(s), j, Burst());
      assert SharesOf(s)[j] == s[j].OnRing() && Describes(laid[j].request, SharesOf(s)[j], Burst());
      endpoint.LiveAsks(s[j]);
      LastTells(laid[j].request, SlotAddress(phys, laid[j].last));
      LastOf(q, laid[j].Start(phys), laid[j].end, laid[j].Trbs(phys));
    }

    /** The terminal link continues the chain of the pending TRB in front of it, or ends with it. */
    lemma LinkContinues(k: int)
      requires OnRing() && 0 <= k < |ring.Order()| && ring.Order()[k] == ring.slots.Length - 2
      ensures ring.Valid() && k < |ring.Queue()|
      ensures ring.slots[ring.slots.Length - 1].body.control.chain == ring.Queue()[k].control.chain
    {
      hide TransferRing.Valid, OnRing, Ring.Pending, Ring.Order, LinkFits;
      RingSound();
      RingIs();
      LinkBehind(ring.State(), k);
    }

    static lemma LastOf(q: seq<Body>, lo: int, hi: int, ts: seq<Body>)
      requires 0 <= lo <= hi < |q| && q[lo..hi + 1] == ts
      ensures |ts| == hi + 1 - lo && ts[|ts| - 1] == q[hi]
    {
    }

    // ---- retiring ----

    /** The lists' part of RetireTDs: the TD is done, and with `flush` all others of its command. */
    method RetireLists(td: AsyncTD, flush: bool, state: EndpointState, ghost detail: AsyncTD -> Detail,
                       ghost pageOffset: AsyncTD -> nat)
      returns (reseat: Reseat, reschedule: bool, ghost n: nat, ghost m: nat)
      requires Kept() && endpoint.Held(td)
      modifies endpoint`holding, endpoint.scheduled, endpoint.queued, endpoint.done, endpoint.tds`next
      ensures Stands() && endpoint.Valid() && !endpoint.holding && n <= |old(endpoint.scheduled.s)| == |laid|
        && m <= |old(endpoint.queued.s)|
      ensures endpoint.scheduled.s == old(endpoint.scheduled.s)[n..] && endpoint.queued.s == old(endpoint.queued.s)[m..]
      ensures |endpoint.done.s| == |old(endpoint.done.s)| + 1 + n + m
      ensures AreOf(td.command, old(AsyncEndpoint.CommandsOf(endpoint.scheduled.s)), n)
      ensures AreOf(td.command, old(AsyncEndpoint.CommandsOf(endpoint.queued.s)), m)
      ensures if flush then forall t :: t in endpoint.scheduled.s || t in endpoint.queued.s ==> t.command != td.command
              else n == m == 0
      ensures reschedule == (flush ==> state == Running || state == Stopped)
      ensures reseat ==
              if flush && state == Running && n == |laid| then AtEnqueue
              else if flush && state == Stopped && n > 0 then AtIndex(NextSlot(laid[n - 1].last, ring.slots.Length))
              else Keep
      ensures reseat.AtIndex? ==> reseat.index >= 0
      ensures Agree(laid[n..], SharesOf(endpoint.scheduled.s), Burst())
      ensures old(AllFit(detail)) ==> AllFit(detail)
      ensures old(AllRegular(detail, pageOffset)) ==> AllRegular(detail, pageOffset)
    {
      hide Kept, Stands, AsyncEndpoint.Valid, TransferRing.Valid, Describes, Agree, SharesOf, TDQueue.Valid, NextSlot,
        Shifted, AreOf, AsyncEndpoint.CommandsOf, Detail.Fits, Regular, Asked;
      KeptMeans();
      ghost var commands, shares := endpoint.log.Commands(), SharesOf(endpoint.scheduled.s);
      ghost var s, q := endpoint.scheduled.s, endpoint.queued.s;
      ghost var ss, qs := AsyncEndpoint.CommandsOf(s), AsyncEndpoint.CommandsOf(q);
      endpoint.HeldCommand(td);
      reseat, reschedule, n, m := endpoint.RetireAndFlush(td, flush, state);
      AreThose(td.command, s, n);
      AreThose(td.command, q, m);
      assert AreOf(td.command, ss, n) && AreOf(td.command, qs, m);
      AgreeAt(laid, shares, n - 1, Burst());
      SharesBehind(s, n);
      FewerAgree(laid, shares, n, Burst());
    }

    lemma AreThose(command: Command?, s: seq<AsyncTD>, n: nat)
      requires command != null && n <= |s| && forall k :: 0 <= k < n ==> s[k].command == command
      ensures AreOf(command, AsyncEndpoint.CommandsOf(s), n)
    {
    }

    /** No TD is scheduled any more: the controller, which runs until it is quiesced, goes on at the enqueue index. */
    method GiveUpAll(answers: Answers) returns (moved: bool)
      requires OnRing() && endpoint.Valid() && endpoint.numTRBs == ring.slots.Length && endpoint.scheduled.s == []
      modifies this`laid, ring`deq, ring`route, ring`hw, ring`history
      ensures Valid() && ring.Valid() && laid == []
      ensures moved == (old(ring.Accepts(answers.quiesced, answers.isStreams)) && Succeeds(answers.result))
      ensures if moved then ring.Queue() == [] && (!spoiled ==> Clean()) else ring.Queue() == old(ring.Queue())
    {
      hide Valid, OnRing, Clean, AsyncEndpoint.Valid, TransferRing.Valid, TransferRing.Queue;
      ghost var commands := endpoint.log.Commands();
      RingSound();
      moved := MoveToEnd(answers);
      laid := [];
      NoneLaid();
      Whole();
    }

    method MoveToEnd(answers: Answers) returns (moved: bool)
      requires ring.Valid() && ring.first < 0
      modifies ring`deq, ring`route, ring`hw, ring`history
      ensures ring.Valid() && ring.first < 0
      ensures moved == (old(ring.Accepts(answers.quiesced, answers.isStreams)) && Succeeds(answers.result))
      ensures ring.Queue() == if moved then [] else old(ring.Queue())
      ensures old(ring.Fits()) ==> ring.Fits()
    {
      hide TransferRing.Valid, TransferRing.Queue, TransferRing.Order, Ring.Inv, Ring.Pending, Ring.Order, Behind,
        GoesOnAt;
      RingIs();
      ring.ControllerRuns();
      RingIs();
      ghost var s := ring.State();
      BehindAll(s);
      OrderOnce(s);
      moved := SetDequeue(ring.enq, answers.quiesced, answers.isStreams, answers.result, |s.Order()|);
      RingIs();
      if moved {
        WentOn(s, ring.State(), s.enq, |s.Order()|, ring.hw);
      }
    }

    /** What the ring's functions say of its state. */
    lemma RingIs()
      requires ring.Valid()
      ensures var s := ring.State();
        s.Inv() && ring.Queue() == s.Pending() && ring.Order() == s.Order() && s.first == ring.first
          && s.enq == ring.enq
    {
    }

    lemma NoneLaid()
      requires ring.Valid() && ring.first < 0 && laid == [] && (ring.Fits() || ring.Queue() == [])
      ensures OnRing() && (ring.Queue() == [] && !spoiled ==> Clean())
      ensures endpoint.scheduled.s == [] ==> Listed()
    {
      OrderFits();
      if ring.Queue() == [] { FitsNone(ring.State()); }
    }

    /** What RetireTDs does to the ring when the first n TDs laid out are no longer scheduled. */
    method Follow(reseat: Reseat, ghost n: int, answers: Answers) returns (moved: bool)
      requires OnRing() && endpoint.Valid() && endpoint.numTRBs == ring.slots.Length
      requires 0 <= n <= |laid| && Agree(laid[n..], SharesOf(endpoint.scheduled.s), Burst())
      requires reseat.AtIndex? ==>
        n > 0 && reseat.index == NextSlot(laid[n - 1].last, ring.slots.Length) && reseat.index >= 0
      requires reseat.AtEnqueue? ==> n == |laid|
      modifies this`laid, ring`deq, ring`route, ring`hw, ring`history
      ensures Valid() && ring.Valid()
      ensures var state := if reseat.AtEnqueue? then answers.quiesced else answers.state;
        moved == (reseat != Keep && Succeeds(answers.result) && old(ring.Accepts(state, answers.isStreams)))
      ensures moved && !spoiled ==> Clean()
      ensures moved && reseat.AtEnqueue? ==> ring.Queue() == []
      ensures moved && reseat.AtIndex? ==> var k := old(laid)[n - 1].end + 1;
        0 <= k <= |old(ring.Queue())| && ring.Queue() == old(ring.Queue())[k..]
      ensures !moved ==> ring.Queue() == old(ring.Queue()) && (n == 0 && old(Clean()) ==> Clean())
    {
      hide Valid, OnRing, Clean, AsyncEndpoint.Valid, TransferRing.Valid, Agree, SharesOf, TransferRing.Queue, NextSlot,
        Lead;
      RingSound();
      LiesOnRing();
      match reseat {
        case Keep => moved := GiveUp(n, -1, answers.state, answers.isStreams, answers.result);
        case AtIndex(i) =>
          moved := GiveUp(n, i, answers.state, answers.isStreams, answers.result);
        case AtEnqueue =>
          NoneScheduled(n);
          moved := GiveUpAll(answers);
      }
      LiesOnRing();
    }

    lemma NoneScheduled(n: int)
      requires n == |laid| && Agree(laid[n..], SharesOf(endpoint.scheduled.s), Burst())
      ensures endpoint.scheduled.s == []
    {
    }

    lemma StoppedAccepts(answers: Answers)
      ensures answers.state == Stopped ==> ring.Accepts(answers.state, answers.isStreams)
    {
    }

    /** The first half of RetireTDs: the lists, and the ring. */
    method RetireAndReseat(td: AsyncTD, flush: bool, answers: Answers, ghost detail: AsyncTD -> Detail,
                           ghost pageOffset: AsyncTD -> nat)
      returns (moved: bool, reschedule: bool, ghost n: nat, ghost m: nat)
      requires Valid() && endpoint.Held(td)
      modifies this`laid, ring`deq, ring`route, ring`hw, ring`history
      modifies endpoint`holding, endpoint.scheduled, endpoint.queued, endpoint.done, endpoint.tds`next
      ensures Valid() && ring.Valid() && !endpoint.holding && n <= |old(endpoint.scheduled.s)| == |old(laid)|
        && m <= |old(endpoint.queued.s)|
      ensures endpoint.scheduled.s == old(endpoint.scheduled.s)[n..] && endpoint.queued.s == old(endpoint.queued.s)[m..]
      ensures |endpoint.done.s| == |old(endpoint.done.s)| + 1 + n + m
      ensures AreOf(td.command, old(AsyncEndpoint.CommandsOf(endpoint.scheduled.s)), n)
      ensures AreOf(td.command, old(AsyncEndpoint.CommandsOf(endpoint.queued.s)), m)
      ensures if flush then forall t :: t in endpoint.scheduled.s || t in endpoint.queued.s ==> t.command != td.command
              else n == m == 0
      ensures reschedule == (flush ==> answers.state == Running || answers.state == Stopped)
      ensures moved == (flush && Succeeds(answers.result) &&
                        if answers.state == Running
                        then n == |old(laid)| && old(ring.Accepts(answers.quiesced, answers.isStreams))
                        else answers.state == Stopped && n > 0)
      ensures moved && answers.state == Running ==> ring.Queue() == []
      ensures moved && answers.state == Stopped ==> var k := old(laid)[n - 1].end + 1;
        0 <= k <= |old(ring.Queue())| && ring.Queue() == old(ring.Queue())[k..]
      ensures !moved ==> ring.Queue() == old(ring.Queue())
      ensures moved || (n == 0 && old(Clean())) ==> spoiled || Clean()
      ensures old(AllFit(detail)) ==> AllFit(detail)
      ensures old(AllRegular(detail, pageOffset)) ==> AllRegular(detail, pageOffset)
    {
      hide *;
      ValidMeans();
      OnRingIs();
      StoppedAccepts(answers);
      endpoint.ValidLists();
      RingSound();
      var reseat: Reseat;
      reseat, reschedule, n, m := RetireLists(td, flush, answers.state, detail, pageOffset);
      moved := Follow(reseat, n, answers);
    }

    /** Complete; the TDs on the ring are not touched. */
    method CompleteDone()
      requires Kept()
      modifies endpoint`log, endpoint`live, endpoint`facts, endpoint`handed, endpoint.done, endpoint.free,
        endpoint.log.Commands()
      modifies endpoint.tds`next, endpoint.tds`shortfall, endpoint.tds`absoluteShortfall, endpoint.tds`interruptThisTD
      ensures Kept() && endpoint.done.s == []
      ensures endpoint.scheduled.s == old(endpoint.scheduled.s) && endpoint.queued.s == old(endpoint.queued.s)
      ensures endpoint.log == old(endpoint.log).(completed := old(endpoint.log.completed) + |old(endpoint.done.s)|)
    {
      hide Kept, Stands, AsyncEndpoint.Valid, TransferRing.Valid, Agree, SharesOf, Log.Commands;
      KeptMeans();
      ghost var shares := SharesOf(endpoint.scheduled.s);
      endpoint.Complete();
      assert SharesOf(endpoint.scheduled.s) == shares;
      WholeKept();
    }

    /** The second half: what is done is completed, and the queued TDs go to the ring. */
    method Finish(callCompletion: bool, reschedule: bool, detail: AsyncTD -> Detail, ghost pageOffset: AsyncTD -> nat)
      returns (ghost p: nat)
      requires Valid() && ring.Valid() && !endpoint.holding && AllFit(detail)
      modifies this`laid, this`spoiled, ring, ring.slots, endpoint`log, endpoint`live, endpoint`facts, endpoint`handed
      modifies endpoint.scheduled, endpoint.queued, endpoint.done, endpoint.free, endpoint.log.Commands()
      modifies endpoint.tds`next, endpoint.tds`shortfall, endpoint.tds`absoluteShortfall, endpoint.tds`interruptThisTD,
        endpoint.tds`lastTrbIndex
      ensures Valid() && ring.Valid() && !endpoint.holding && p <= |old(endpoint.queued.s)| && (reschedule || p == 0)
      ensures endpoint.scheduled.s == old(endpoint.scheduled.s) + old(endpoint.queued.s)[..p]
      ensures endpoint.queued.s == old(endpoint.queued.s)[p..]
      ensures endpoint.log ==
              if callCompletion
              then old(endpoint.log).(completed := old(endpoint.log.completed) + |old(endpoint.done.s)|)
              else old(endpoint.log)
      ensures old(ring.Queue()) <= ring.Queue() && (old(Clean()) && !spoiled ==> Clean()) && (old(spoiled) ==> spoiled)
      ensures old(AllRegular(detail, pageOffset)) ==> spoiled == old(spoiled)
      ensures reschedule && old(AllRegular(detail, pageOffset)) ==> Exhausted()
    {
      hide Valid, Kept, OnRing, Stands, Clean, AsyncEndpoint.Valid, TransferRing.Valid, TransferRing.Queue, Detail.Fits,
        Log.Commands, Regular, Asked, Exhausted;
      p := 0;
      if callCompletion {
        OnRingIs();
        CompleteDone();
        OnRingIs();
      }
      if reschedule {
        p := ScheduleTDs(detail, pageOffset);
      }
    }

    /**
     * RetireTDs: a TD is done; with `flush`, so are all others of its command, and unless the endpoint has
     * halted, the controller goes on behind them, if it has to be moved. Then what is done is completed, and
     * the queued TDs go to the ring. If the ring had nothing but the scheduled TDs on it, it still does,
     * unless TDs were flushed and the controller was not moved.
     */
    method RetireTDs(td: AsyncTD, callCompletion: bool, flush: bool, answers: Answers, detail: AsyncTD -> Detail,
                     ghost pageOffset: AsyncTD -> nat)
      returns (moved: bool, ghost n: nat, ghost m: nat, ghost p: nat)
      requires Valid() && ring.Valid() && endpoint.Held(td) && AllFit(detail)
      modifies this`laid, this`spoiled, ring, ring.slots, endpoint`holding, endpoint`log, endpoint`live, endpoint`facts,
        endpoint`handed
      modifies endpoint.scheduled, endpoint.queued, endpoint.done, endpoint.free, endpoint.log.Commands()
      modifies endpoint.tds`next, endpoint.tds`shortfall, endpoint.tds`absoluteShortfall, endpoint.tds`interruptThisTD,
        endpoint.tds`lastTrbIndex
      ensures Valid() && ring.Valid() && !endpoint.holding && n <= |old(endpoint.scheduled.s)| == |old(laid)|
        && m + p <= |old(endpoint.queued.s)|
      ensures endpoint.scheduled.s == old(endpoint.scheduled.s)[n..] + old(endpoint.queued.s)[m..m + p]
      ensures endpoint.queued.s == old(endpoint.queued.s)[m + p..]
      ensures AreOf(td.command, old(AsyncEndpoint.CommandsOf(endpoint.scheduled.s)), n)
      ensures AreOf(td.command, old(AsyncEndpoint.CommandsOf(endpoint.queued.s)), m)
      ensures if flush then forall t :: t in endpoint.scheduled.s || t in endpoint.queued.s ==> t.command != td.command
              else n == m == 0
      ensures flush && answers.state != Running && answers.state != Stopped ==> p == 0
      ensures endpoint.log ==
              if callCompletion
              then old(endpoint.log).(completed := old(endpoint.log.completed + |endpoint.done.s|) + 1 + n + m)
              else old(endpoint.log)
      ensures moved == (flush && Succeeds(answers.result) &&
                        if answers.state == Running
                        then n == |old(laid)| && old(ring.Accepts(answers.quiesced, answers.isStreams))
                        else answers.state == Stopped && n > 0)
      ensures moved && answers.state == Stopped ==> var k := old(laid)[n - 1].end + 1;
        0 <= k <= |old(ring.Queue())| && old(ring.Queue())[k..] <= ring.Queue()
      ensures !moved ==> old(ring.Queue()) <= ring.Queue()
      ensures moved || (n == 0 && old(Clean())) ==> spoiled || Clean()
      ensures (old(spoiled) ==> spoiled) && (old(AllRegular(detail, pageOffset)) ==> spoiled == old(spoiled))
      ensures (flush ==> answers.state == Running || answers.state == Stopped) ==>
        (old(AllRegular(detail, pageOffset)) ==> Exhausted())
    {
      hide *;
      var reschedule;
      ghost var q := endpoint.queued.s;
      moved, reschedule, n, m := RetireAndReseat(td, flush, answers, detail, pageOffset);
      p := Finish(callCompletion, reschedule, detail, pageOffset);
      SliceOfRest(q, m, p);
    }

    static lemma SliceOfRest(s: seq<AsyncTD>, m: nat, p: nat)
      requires m + p <= |s|
      ensures s[m..][..p] == s[m..m + p] && s[m..][p..] == s[m + p..]
    {
    }

    /** What an event says of the TD is noted; the TDs on the ring are not touched. */
    method NoteEvent(td: AsyncTD, ed: bool, count: nat)
      requires Kept() && endpoint.Held(td) && endpoint.HeldUnheard()
      requires Tells(endpoint.log, endpoint.log.completed + |endpoint.done.s|, ed, endpoint.absoluteEDTLA, count)
      modifies endpoint`log, endpoint`facts, td`shortfall, td`absoluteShortfall
      ensures Kept() && endpoint.Held(td)
      ensures endpoint.log == Hear(old(endpoint.log), old(endpoint.log.completed + |endpoint.done.s|),
                                   if ed && endpoint.absoluteEDTLA then Absolute else Relative)
    {
      hide Kept, Stands, AsyncEndpoint.Valid, TransferRing.Valid, Agree, SharesOf, Log.Commands,
        AsyncEndpoint.HeldUnheard;
      KeptMeans();
      ghost var shares := SharesOf(endpoint.scheduled.s);
      endpoint.HeldBytes(td);
      endpoint.RecordEvent(td, ed, count);
      assert SharesOf(endpoint.scheduled.s) == shares;
      WholeKept();
    }

    /** The second half of an event for a TD: the TD is told what the event says, and retired. */
    method RetireTold(td: AsyncTD, ed: bool, count: nat, success: bool, answers: Answers, detail: AsyncTD -> Detail,
                      ghost pageOffset: AsyncTD -> nat)
      returns (ghost n: nat, ghost m: nat, ghost p: nat)
      requires Valid() && ring.Valid() && endpoint.Held(td) && endpoint.HeldUnheard() && AllFit(detail)
      requires Tells(endpoint.log, endpoint.log.completed + |endpoint.done.s|, ed, endpoint.absoluteEDTLA, count)
      modifies this`laid, this`spoiled, ring, ring.slots, endpoint`holding, endpoint`log, endpoint`live, endpoint`facts,
        endpoint`handed
      modifies endpoint.scheduled, endpoint.queued, endpoint.done, endpoint.free, endpoint.log.Commands()
      modifies endpoint.tds`next, endpoint.tds`shortfall, endpoint.tds`absoluteShortfall, endpoint.tds`interruptThisTD,
        endpoint.tds`lastTrbIndex
      ensures Valid() && ring.Valid() && !endpoint.holding && n <= |old(endpoint.scheduled.s)|
        && m + p <= |old(endpoint.queued.s)|
      ensures endpoint.scheduled.s == old(endpoint.scheduled.s)[n..] + old(endpoint.queued.s)[m..m + p]
      ensures endpoint.queued.s == old(endpoint.queued.s)[m + p..]
      ensures if success || td.finalTDInTransaction then n == m == 0
              else forall t :: t in endpoint.scheduled.s || t in endpoint.queued.s ==> t.command != td.command
      ensures endpoint.log ==
        var x := old(endpoint.log.completed + |endpoint.done.s|);
        var told := Hear(old(endpoint.log), x, if ed && endpoint.absoluteEDTLA then Absolute else Relative);
        if success && !old(td.interruptThisTD) then told else told.(completed := x + 1 + n + m)
      ensures td.finalTDInTransaction ==> old(td.interruptThisTD)
      ensures success || td.finalTDInTransaction ==>
        old(ring.Queue()) <= ring.Queue() && (old(Clean()) ==> spoiled || Clean())
      ensures (old(spoiled) ==> spoiled) && (old(AllRegular(detail, pageOffset)) ==> spoiled == old(spoiled))
      ensures success || td.finalTDInTransaction || answers.state == Running || answers.state == Stopped ==>
        (old(AllRegular(detail, pageOffset)) ==> Exhausted())
    {
      hide Valid, Kept, OnRing, Stands, Clean, AsyncEndpoint.Valid, TransferRing.Valid, TransferRing.Queue, Detail.Fits,
        Log.Commands, Regular, Asked, AreOf, AsyncEndpoint.CommandsOf, Tells, AsyncEndpoint.HeldUnheard,
        AsyncEndpoint.Held, Exhausted;
      ghost var l := endpoint.log;
      ValidMeans();
      endpoint.LiveAsks(td);
      endpoint.HeldBytes(td);
      OnRingIs();
      NoteEvent(td, ed, count);
      OnRingIs();
      SameCommands(l, endpoint.log);
      var callCompletion, flush := true, false;
      if success {
        callCompletion := td.interruptThisTD;
      } else {
        flush := !td.finalTDInTransaction;
      }
      var moved;
      moved, n, m, p := RetireTDs(td, callCompletion, flush, answers, detail, pageOffset);
    }

    /** The same, told in terms of the log from before the event, with the TD the j-th of those scheduled then. */
    method RetireEvent(td: AsyncTD, ed: bool, count: nat, success: bool, answers: Answers, detail: AsyncTD -> Detail,
                       ghost pageOffset: AsyncTD -> nat, ghost l: Log, ghost s: seq<AsyncTD>, ghost done: nat,
                       ghost j: nat)
      returns (ghost n: nat, ghost m: nat, ghost p: nat)
      requires Valid() && ring.Valid() && endpoint.Held(td) && endpoint.HeldUnheard() && AllFit(detail)
      requires Tells(l, l.completed + done + j, ed, endpoint.absoluteEDTLA, count)
      requires endpoint.log == if j > 0 then l.(completed := l.completed + done + j) else l
      requires |endpoint.done.s| == if j > 0 then 0 else done
      requires j < |s| && endpoint.scheduled.s == s[j + 1..]
      modifies this`laid, this`spoiled, ring, ring.slots, endpoint`holding, endpoint`log, endpoint`live, endpoint`facts,
        endpoint`handed
      modifies endpoint.scheduled, endpoint.queued, endpoint.done, endpoint.free, endpoint.log.Commands()
      modifies endpoint.tds`next, endpoint.tds`shortfall, endpoint.tds`absoluteShortfall, endpoint.tds`interruptThisTD,
        endpoint.tds`lastTrbIndex
      ensures Valid() && ring.Valid() && !endpoint.holding && j + 1 + n <= |s| && m + p <= |old(endpoint.queued.s)|
      ensures endpoint.scheduled.s == s[j + 1 + n..] + old(endpoint.queued.s)[m..m + p]
      ensures endpoint.queued.s == old(endpoint.queued.s)[m + p..]
      ensures if success || td.finalTDInTransaction then n == m == 0
              else forall t :: t in endpoint.scheduled.s || t in endpoint.queued.s ==> t.command != td.command
      ensures Accounted(l, endpoint.log, done, j, if ed && endpoint.absoluteEDTLA then Absolute else Relative,
                        !success || old(td.interruptThisTD), n + m)
      ensures td.finalTDInTransaction ==> old(td.interruptThisTD)
      ensures success || td.finalTDInTransaction ==>
        old(ring.Queue()) <= ring.Queue() && (old(Clean()) ==> spoiled || Clean())
      ensures (old(spoiled) ==> spoiled) && (old(AllRegular(detail, pageOffset)) ==> spoiled == old(spoiled))
      ensures success || td.finalTDInTransaction || answers.state == Running || answers.state == Stopped ==>
        (old(AllRegular(detail, pageOffset)) ==> Exhausted())
    {
      hide Valid, OnRing, Clean, AsyncEndpoint.Valid, TransferRing.Valid, TransferRing.Queue, AllFit, AllRegular,
        Tells, AsyncEndpoint.HeldUnheard, AsyncEndpoint.Held, Exhausted, Accounted, Hear, Log.Commands;
      ghost var taken, reported := endpoint.log, !success || td.interruptThisTD;
      SameTold(l, taken, l.completed + done + j, ed, endpoint.absoluteEDTLA, count);
      TellsOf(l, l.completed + done + j, ed, endpoint.absoluteEDTLA, count);
      n, m, p := RetireTold(td, ed, count, success, answers, detail, pageOffset);
      AccountedFor(l, taken, endpoint.log, done, j, if ed && endpoint.absoluteEDTLA then Absolute else Relative,
                   reported, n + m);
      SliceOfRest(s, j + 1, n);
    }

    /**
     * processTransferEvent2, for the last TRB of TD j or for a TRB that a TD that was given up has left behind
     * (j < 0). Everything up to it is done. TD j, and no other, is told what the event says and retired;
     * those in front of it are completed without having been heard of.
     */
    method ProcessTransferEvent(i: int, ed: bool, count: nat, success: bool, answers: Answers,
                                detail: AsyncTD -> Detail, ghost pageOffset: AsyncTD -> nat, ghost j: int, ghost k: int)
      returns (ghost n: nat, ghost m: nat, ghost p: nat)
      requires Valid() && !endpoint.holding && EventFor(k, j) && ring.Order()[k] == i
        && Executed(ring.State(), ring.hw, i)
      requires j >= 0 ==>
        AllFit(detail)
          && Tells(endpoint.log, endpoint.log.completed + |endpoint.done.s| + j, ed, endpoint.absoluteEDTLA, count)
      modifies this`laid, this`spoiled, ring, ring.slots, endpoint`holding, endpoint`log, endpoint`live, endpoint`facts,
        endpoint`handed
      modifies endpoint.scheduled, endpoint.queued, endpoint.done, endpoint.free, endpoint.log.Commands()
      modifies endpoint.tds`next, endpoint.tds`shortfall, endpoint.tds`absoluteShortfall, endpoint.tds`interruptThisTD,
        endpoint.tds`lastTrbIndex
      ensures Valid() && ring.Valid() && !endpoint.holding && k < |old(ring.Queue())| && j < |old(endpoint.scheduled.s)|
      ensures j < 0 ==>
        && ring.Queue() == old(ring.Queue())[k + 1..] && endpoint.log == old(endpoint.log)
        && endpoint.scheduled.s == old(endpoint.scheduled.s) && endpoint.queued.s == old(endpoint.queued.s)
      ensures j >= 0 ==>
        && j + 1 + n <= |old(endpoint.scheduled.s)| && m + p <= |old(endpoint.queued.s)|
        && endpoint.scheduled.s == old(endpoint.scheduled.s)[j + 1 + n..] + old(endpoint.queued.s)[m..m + p]
        && endpoint.queued.s == old(endpoint.queued.s)[m + p..]
      ensures j >= 0 ==>
        var td := old(endpoint.scheduled.s)[j];
        if success || td.finalTDInTransaction
        then n == m == 0 && old(ring.Queue())[k + 1..] <= ring.Queue() && (spoiled || Clean())
        else forall t :: t in endpoint.scheduled.s || t in endpoint.queued.s ==> t.command != td.command
      ensures j >= 0 ==>
        Accounted(old(endpoint.log), endpoint.log, old(|endpoint.done.s|), j,
                  if ed && endpoint.absoluteEDTLA then Absolute else Relative,
                  !success || old(endpoint.scheduled.s[j].interruptThisTD), n + m)
      ensures j >= 0 && old(endpoint.scheduled.s)[j].finalTDInTransaction ==>
        old(endpoint.scheduled.s[j].interruptThisTD) && n + m == 0
      ensures j >= 0 && (success || old(endpoint.scheduled.s)[j].finalTDInTransaction
                         || answers.state == Running || answers.state == Stopped) ==>
        (old(AllRegular(detail, pageOffset)) ==> Exhausted())
    {
      hide *;
      n, m, p := 0, 0, 0;
      ValidMeans();
      endpoint.ValidLists();
      ghost var l, done, s := endpoint.log, |endpoint.done.s|, endpoint.scheduled.s;
      var td := TakeExecuted(i, j, k, detail, pageOffset);
      if td == null {
        return;
      }
      SameCommands(l, endpoint.log);
      n, m, p := RetireEvent(td, ed, count, success, answers, detail, pageOffset, l, s, done, j);
    }

    lemma QueueThereNow(k: int, j: int)
      requires Valid() && EventFor(k, j)
      ensures ring.Valid() && 0 <= k < |ring.Queue()| && j < |endpoint.scheduled.s|
    {
      hide TransferRing.Valid, Ring.Order, Lead, Laid.Trbs, Laid.Start, Tidy, AsyncEndpoint.Valid, OnRing;
      QueueThere(k, j);
    }

    static lemma TellsOf(l: Log, x: int, ed: bool, absoluteEDTLA: bool, count: nat)
      requires Tells(l, x, ed, absoluteEDTLA, count)
      ensures 0 <= x < |l.sub| == |l.moved|
    {
    }

    // ---- a halted endpoint ----

    static lemma HearKeeps(l: Log, x: int, told: Told)
      requires 0 <= x < |l.moved|
      ensures Hear(l, x, told).sub == l.sub && Hear(l, x, told).completed == l.completed
    {
    }

    /**
     * The controller has halted at the k-th of the pending TRBs, one of TD j and not its last, with `rem` bytes of it
     * not moved.
     */
    ghost predicate HaltedIn(l: Log, done: nat, j: int, k: int, rem: nat)
      reads this`laid, ring, ring.slots
    {
      && 0 <= j < |laid| && 0 <= k < |ring.Order()| && laid[j].Start(ring.phys) <= k < laid[j].end
      && var r, q, x := laid[j].request, k - laid[j].Start(ring.phys), l.completed + done + j;
         && Plain(r) && r.immediate.None? && !r.IsNoopOrStatus() && r.bytes > 0
         && q < |DataTrbs(r, 0, r.offset, r.bytes)| && 0 <= x < |l.moved|
         && l.moved[x].bytes == BytesBefore(DataTrbs(r, 0, r.offset, r.bytes), q + 1) - rem
    }

    lemma HaltedMeans(l: Log, done: nat, j: int, k: int, rem: nat)
      requires OnRing() && HaltedIn(l, done, j, k, rem)
      ensures 0 <= j < |laid| && ring.Valid() && 0 <= k < |ring.Order()| == |ring.Queue()|
      ensures ring.State().Inv() && ring.State().first == ring.first < 0 && 0 <= ring.Order()[k] < ring.slots.Length - 1
      ensures var i := ring.Order()[k]; 0 <= i < ring.State().Last() && Names(ring.State(), i) && i != ring.enq
      ensures 0 <= laid[j].end < |ring.Queue()| && EventFor(laid[j].end, j)
      ensures ring.Order()[laid[j].end] == laid[j].last != ring.Order()[k]
    {
      hide TransferRing.Valid, TdTrbs, Ring.Inv, Ring.Pending, Ring.Order, Ring.Route, Names, Trail, Tidy, Through,
        Plain, Executes, Offset, Ring.PlaceOf;
      OrderFits();
      RingIs();
      PendingTrail(ring.State(), k);
      PendingIsNotEnd(ring.State(), k);
      assert laid[j].Lies(ring.Queue(), ring.Order(), ring.phys);
    }

    static lemma PendingIsNotEnd(s: Ring, k: int)
      requires s.Inv() && s.first < 0 && 0 <= k < |s.Order()|
      ensures s.Order()[k] != s.enq
    {
      OrderHas(s, s.Order()[k]);
    }

    /** No TD has its last TRB there. */
    lemma NoLastAt(l: Log, done: nat, j: int, k: int, rem: nat)
      requires OnRing() && Listed() && HaltedIn(l, done, j, k, rem)
      ensures 0 <= k < |ring.Order()|
      ensures forall t :: t in endpoint.scheduled.s ==> t.lastTrbIndex != ring.Order()[k]
    {
      hide TransferRing.Valid, Ring.Order, Laid.Trbs, Laid.Start, Tidy, Through, Plain;
      OrderFits();
      var q, o, phys, s := ring.Queue(), ring.Order(), ring.phys, endpoint.scheduled.s;
      forall n | 0 <= n < |s| ensures s[n].lastTrbIndex != o[k] {
        assert SharesOf(s)[n] == s[n].OnRing();
        AgreeAt(laid, SharesOf(s), n, Burst());
        if laid[n].last == o[k] {
          LastIsEnd(q, o, laid, phys, n, k);
          LeadIsFirst(q, o, laid, phys, n);
        }
      }
    }

    /** The walk from there comes to the TD, and to what has not been moved of it. */
    lemma WalkTells(j: int, k: int, rem: nat, m: int, index: int, total: nat)
      requires Valid() && !endpoint.holding && HaltedIn(endpoint.log, |endpoint.done.s|, j, k, rem)
      requires ring.State().Inv() && ring.first < 0 && 0 <= k < |ring.Order()|
      requires var i := ring.Order()[k];
        && 0 <= i < ring.State().Last() && Names(ring.State(), i)
        && WalksTo(ring.State(), i, m, index, rem, total)
      ensures 0 <= j < |laid| && index == laid[j].last
      ensures Tells(endpoint.log, endpoint.log.completed + |endpoint.done.s| + j, false, endpoint.absoluteEDTLA, total)
    {
      hide OnRing, AsyncEndpoint.Valid, WalksTo, Names, Ring.Inv, Ring.Order, DataTrbs, BytesBefore, Plain, Laid.Start,
        Request.IsNoopOrStatus;
      WalkFindsTD(j, k, ring.Order()[k], m, index, rem, total);
      var s := endpoint.scheduled.s;
      AgreeAt(laid, SharesOf(s), j, Burst());
      assert SharesOf(s)[j] == s[j].OnRing() && Describes(laid[j].request, SharesOf(s)[j], Burst());
      endpoint.ScheduledAs(j);
    }

    /** The first part of an event on a halted endpoint: no TD has that index, but the walk leads to one. */
    method WalkToTD(at: int, rem: nat, ghost j: int, ghost k: int) returns (i: int, count: nat)
      requires Valid() && !endpoint.holding && HaltedIn(endpoint.log, |endpoint.done.s|, j, k, rem)
        && ring.Order()[k] == at
      modifies endpoint`log, endpoint`live, endpoint`facts, endpoint`handed, endpoint`holding, endpoint.scheduled,
        endpoint.done, endpoint.free
      modifies endpoint.log.Commands()
      modifies endpoint.tds`next, endpoint.tds`shortfall, endpoint.tds`absoluteShortfall, endpoint.tds`interruptThisTD
      ensures Valid() && !endpoint.holding && endpoint.log == old(endpoint.log)
      ensures endpoint.scheduled.s == old(endpoint.scheduled.s) && endpoint.queued.s == old(endpoint.queued.s)
        && endpoint.done.s == old(endpoint.done.s)
      ensures j < |laid| == |endpoint.scheduled.s| && i == laid[j].last && i != at
      ensures Tells(endpoint.log, endpoint.log.completed + |endpoint.done.s| + j, false, endpoint.absoluteEDTLA, count)
    {
      hide Valid, OnRing, Listed, AsyncEndpoint.Valid, TransferRing.Valid, TransferRing.State, TransferRing.Order,
        EventFor, HaltedIn, WalksTo, Names, Tells, Ring.Inv;
      ValidMeans();
      HaltedMeans(endpoint.log, |endpoint.done.s|, j, k, rem);
      NoLastAt(endpoint.log, |endpoint.done.s|, j, k, rem);
      endpoint.ValidLists();
      LastAt(laid[j].end, j);
      ghost var commands := endpoint.log.Commands();
      var td;
      ghost var orphans;
      td, orphans := endpoint.GetTDFromActiveQueueWithIndex(at);
      assert td == null;
      Whole();
      i, count := ring.CountRingToED(at, rem);
      ghost var m :| WalksTo(ring.State(), at, m, i, rem, count);
      WalkTells(j, k, rem, m, i, count);
    }

    /** The first n of the TDs laid out are no longer scheduled; the ring is not touched. */
    ghost method LeaveOnRing(n: int)
      requires Stands() && endpoint.Valid() && endpoint.numTRBs == ring.slots.Length
      requires 0 <= n <= |laid| && Agree(laid[n..], SharesOf(endpoint.scheduled.s), Burst())
      modifies this`laid
      ensures Kept()
    {
      hide Kept, LieOn, AsyncEndpoint.Valid, TransferRing.State, Agree, SharesOf;
      ghost var commands := endpoint.log.Commands();
      FewerLie(ring.State(), laid, spoiled, n);
      laid := laid[n..];
      WholeKept();
    }

    /** The lists' part of RetireTDs on a halted endpoint. */
    method FlushHalted(td: AsyncTD, ghost detail: AsyncTD -> Detail, ghost pageOffset: AsyncTD -> nat)
      returns (reschedule: bool, ghost n: nat, ghost m: nat)
      requires Kept() && endpoint.Held(td)
      modifies this`laid, endpoint`holding, endpoint.scheduled, endpoint.queued, endpoint.done, endpoint.tds`next
      ensures Kept() && !endpoint.holding && n <= |old(endpoint.scheduled.s)| && m <= |old(endpoint.queued.s)|
      ensures endpoint.scheduled.s == old(endpoint.scheduled.s)[n..] && endpoint.queued.s == old(endpoint.queued.s)[m..]
      ensures |endpoint.done.s| == |old(endpoint.done.s)| + 1 + n + m
      ensures if td.finalTDInTransaction then n == m == 0
              else forall t :: t in endpoint.scheduled.s || t in endpoint.queued.s ==> t.command != td.command
      ensures reschedule == td.finalTDInTransaction
      ensures old(AllFit(detail)) ==> AllFit(detail)
      ensures old(AllRegular(detail, pageOffset)) ==> AllRegular(detail, pageOffset)
    {
      hide *;
      KeptMeans();
      endpoint.ValidLists();
      var reseat: Reseat;
      reseat, reschedule, n, m := RetireLists(td, !td.finalTDInTransaction, Halted, detail, pageOffset);
      LeaveOnRing(n);
    }

    /**
     * RetireTDs on a halted endpoint, for an error: the TD, and unless it is its command's final one all others of
     * its command, are completed, and nothing is done to the ring.
     */
    method RetireHalted(td: AsyncTD, ghost detail: AsyncTD -> Detail, ghost pageOffset: AsyncTD -> nat)
      returns (reschedule: bool, ghost n: nat, ghost m: nat)
      requires Kept() && endpoint.Held(td)
      modifies this`laid, endpoint`holding, endpoint`log, endpoint`live, endpoint`facts, endpoint`handed
      modifies endpoint.scheduled, endpoint.queued, endpoint.done, endpoint.free, endpoint.log.Commands()
      modifies endpoint.tds`next, endpoint.tds`shortfall, endpoint.tds`absoluteShortfall, endpoint.tds`interruptThisTD
      ensures Kept() && !endpoint.holding && n <= |old(endpoint.scheduled.s)| && m <= |old(endpoint.queued.s)|
      ensures endpoint.scheduled.s == old(endpoint.scheduled.s)[n..] && endpoint.queued.s == old(endpoint.queued.s)[m..]
      ensures if td.finalTDInTransaction then n == m == 0
              else forall t :: t in endpoint.scheduled.s || t in endpoint.queued.s ==> t.command != td.command
      ensures endpoint.log ==
        old(endpoint.log).(completed := old(endpoint.log.completed + |endpoint.done.s|) + 1 + n + m)
      ensures reschedule == td.finalTDInTransaction
      ensures old(AllFit(detail)) ==> AllFit(detail)
      ensures old(AllRegular(detail, pageOffset)) ==> AllRegular(detail, pageOffset)
    {
      hide *;
      KeptMeans();
      endpoint.ValidLists();
      reschedule, n, m := FlushHalted(td, detail, pageOffset);
      CompleteDone();
    }

    /** The TD that the walk has come to is taken off its list and the ring. */
    method TakeHalted(at: int, rem: nat, ghost j: int, ghost k: int) returns (td: AsyncTD, count: nat)
      requires Valid() && !endpoint.holding && HaltedIn(endpoint.log, |endpoint.done.s|, j, k, rem)
        && ring.Order()[k] == at
      modifies this`laid, ring`deq, ring`route
      modifies endpoint`log, endpoint`live, endpoint`facts, endpoint`handed, endpoint`holding, endpoint.scheduled,
        endpoint.done, endpoint.free
      modifies endpoint.log.Commands()
      modifies endpoint.tds`next, endpoint.tds`shortfall, endpoint.tds`absoluteShortfall, endpoint.tds`interruptThisTD
      ensures Kept() && 0 <= j < |old(endpoint.scheduled.s)| == |old(laid)|
      ensures 0 <= old(laid)[j].end < |old(ring.Queue())|
        && ring.State().Pending() == old(ring.Queue())[old(laid)[j].end + 1..]
      ensures Passes(old(ring.State()), old(ring.hw), old(laid)[j].last)
      ensures endpoint.holding && td == old(endpoint.scheduled.s)[j] && endpoint.Held(td) && endpoint.HeldUnheard()
      ensures endpoint.scheduled.s == old(endpoint.scheduled.s)[j + 1..] && endpoint.queued.s == old(endpoint.queued.s)
      ensures endpoint.done.s == if j > 0 then [] else old(endpoint.done.s)
      ensures endpoint.log ==
              if j > 0 then old(endpoint.log).(completed := old(endpoint.log.completed + |endpoint.done.s|) + j)
              else old(endpoint.log)
      ensures Tells(old(endpoint.log), old(endpoint.log.completed + |endpoint.done.s|) + j, false,
                    endpoint.absoluteEDTLA, count)
    {
      hide *;
      ValidMeans();
      HaltedMeans(endpoint.log, |endpoint.done.s|, j, k, rem);
      ghost var e := laid[j].end;
      var i;
      i, count := WalkToTD(at, rem, j, k);
      td := TakeEvent(i, j, e);
    }

    /** It is told what has not been moved of it, and retired. */
    method RetireStopped(td: AsyncTD, count: nat, ghost detail: AsyncTD -> Detail, ghost pageOffset: AsyncTD -> nat,
                         ghost l: Log, ghost done: nat, ghost j: nat)
      returns (reschedule: bool, ghost n: nat, ghost m: nat)
      requires Kept() && endpoint.Held(td) && endpoint.HeldUnheard()
      requires Tells(l, l.completed + done + j, false, endpoint.absoluteEDTLA, count)
      requires endpoint.log == if j > 0 then l.(completed := l.completed + done + j) else l
      requires |endpoint.done.s| == if j > 0 then 0 else done
      modifies this`laid, endpoint`holding, endpoint`log, endpoint`live, endpoint`facts, endpoint`handed
      modifies endpoint.scheduled, endpoint.queued, endpoint.done, endpoint.free, endpoint.log.Commands()
      modifies endpoint.tds`next, endpoint.tds`shortfall, endpoint.tds`absoluteShortfall, endpoint.tds`interruptThisTD
      ensures Kept() && !endpoint.holding && n <= |old(endpoint.scheduled.s)| && m <= |old(endpoint.queued.s)|
      ensures endpoint.scheduled.s == old(endpoint.scheduled.s)[n..] && endpoint.queued.s == old(endpoint.queued.s)[m..]
      ensures if td.finalTDInTransaction then n == m == 0
              else forall t :: t in endpoint.scheduled.s || t in endpoint.queued.s ==> t.command != td.command
      ensures Accounted(l, endpoint.log, done, j, Relative, true, n + m)
      ensures reschedule == td.finalTDInTransaction
      ensures old(AllFit(detail)) ==> AllFit(detail)
      ensures old(AllRegular(detail, pageOffset)) ==> AllRegular(detail, pageOffset)
    {
      hide *;
      ghost var taken := endpoint.log;
      KeptMeans();
      endpoint.ValidLists();
      endpoint.HeldBytes(td);
      SameTold(l, taken, l.completed + done + j, false, endpoint.absoluteEDTLA, count);
      TellsOf(l, l.completed + done + j, false, endpoint.absoluteEDTLA, count);
      NoteEvent(td, false, count);
      HearKeeps(taken, l.completed + done + j, Relative);
      SameCommands(taken, endpoint.log);
      reschedule, n, m := RetireHalted(td, detail, pageOffset);
      AccountedFor(l, taken, endpoint.log, done, j, Relative, true, n + m);
    }

    /**
     * processTransferEvent2 for an error at a TRB inside TD j on which the endpoint has halted. CountRingToED finds the
     * TD; everything up to the TD's last TRB is done, though the controller has not executed it; the TD is told what
     * has not been moved and, with the others of its command, completed. The ring is not valid until its controller
     * has been moved (`ReinitTransferRing`).
     */
    method ProcessHaltedEvent(at: int, rem: nat, ghost detail: AsyncTD -> Detail, ghost pageOffset: AsyncTD -> nat,
                              ghost j: int, ghost k: int)
      returns (reschedule: bool, ghost n: nat, ghost m: nat)
      requires Valid() && !endpoint.holding && HaltedIn(endpoint.log, |endpoint.done.s|, j, k, rem)
        && ring.Order()[k] == at
      modifies this`laid, ring`deq, ring`route, endpoint`holding, endpoint`log, endpoint`live, endpoint`facts,
        endpoint`handed
      modifies endpoint.scheduled, endpoint.queued, endpoint.done, endpoint.free, endpoint.log.Commands()
      modifies endpoint.tds`next, endpoint.tds`shortfall, endpoint.tds`absoluteShortfall, endpoint.tds`interruptThisTD
      ensures Kept() && !endpoint.holding && 0 <= j < |old(endpoint.scheduled.s)| == |old(laid)|
      ensures 0 <= old(laid)[j].end < |old(ring.Queue())|
        && ring.State().Pending() == old(ring.Queue())[old(laid)[j].end + 1..]
      ensures Passes(old(ring.State()), old(ring.hw), old(laid)[j].last)
      ensures j + 1 + n <= |old(endpoint.scheduled.s)| && m <= |old(endpoint.queued.s)|
        && endpoint.scheduled.s == old(endpoint.scheduled.s)[j + 1 + n..]
        && endpoint.queued.s == old(endpoint.queued.s)[m..]
      ensures var td := old(endpoint.scheduled.s)[j];
        && reschedule == td.finalTDInTransaction
        && if reschedule then n == m == 0
           else forall t :: t in endpoint.scheduled.s || t in endpoint.queued.s ==> t.command != td.command
      ensures Accounted(old(endpoint.log), endpoint.log, old(|endpoint.done.s|), j, Relative, true, n + m)
      ensures old(AllFit(detail)) ==> AllFit(detail)
      ensures old(AllRegular(detail, pageOffset)) ==> AllRegular(detail, pageOffset)
    {
      hide *;
      ValidMeans();
      endpoint.ValidLists();
      ghost var l, done, s := endpoint.log, |endpoint.done.s|, endpoint.scheduled.s;
      var td, count := TakeHalted(at, rem, j, k);
      SameCommands(l, endpoint.log);
      reschedule, n, m := RetireStopped(td, count, detail, pageOffset, l, done, j);
      SliceOfRest(s, j + 1, n);
    }

    /**
     * ReinitTransferRing: the controller is moved to the dequeue index, and a ring on which nothing is pending is
     * wiped. If the command succeeds, all is as it should be. If it fails, a ring whose controller the dequeue index
     * has passed stays invalid; one that was valid stays so, unless it is wiped and was not at its start already.
     */
    method ReinitTransferRing(answers: Answers) returns (moved: bool)
      requires Kept()
      modifies this`spoiled, ring, ring.slots
      ensures Kept() && laid == old(laid)
      ensures moved == (old(ring.Accepts(answers.state, answers.isStreams)) && Succeeds(answers.result))
      ensures ring.State().Pending() == old(ring.State().Pending())
      ensures moved ==> Valid()
      ensures old(ring.Valid()) || old(ring.hw.taken) != old(ring.history) ==>
        (Valid() <==>
          moved || (old(ring.Valid()) && (old(ring.deq == ring.enq) ==> old(ring.enq == 0 && ring.cycleState))))
    {
      hide Valid, Kept, Stands, OnRing, AsyncEndpoint.Valid, TransferRing.Valid, TransferRing.State, Agree, SharesOf,
        Ring.Pending;
      ghost var commands := endpoint.log.Commands();
      KeptMeans();
      moved := ReinitRing(answers);
      WholeKept();
      OnRingIs();
    }

    /** The ring's part of it. */
    method ReinitRing(answers: Answers) returns (moved: bool)
      requires Stands() && Listed()
      modifies this`spoiled, ring, ring.slots
      ensures Stands() && laid == old(laid)
      ensures moved == (old(ring.Accepts(answers.state, answers.isStreams)) && Succeeds(answers.result))
      ensures ring.State().Pending() == old(ring.State().Pending())
      ensures moved ==> ring.Valid()
      ensures old(ring.Valid()) || old(ring.hw.taken) != old(ring.history) ==>
        (ring.Valid() <==>
         moved || (old(ring.Valid()) && (old(ring.deq == ring.enq) ==> old(ring.enq == 0 && ring.cycleState))))
    {
      hide LieOn, TransferRing.Valid, Agree, SharesOf, Fresh, Ring.Inv, Ring.Pending, Listed;
      StandsMeans();
      ghost var empty := ring.deq == ring.enq;
      if empty { NothingScheduled(); }
      moved := ring.Accepts(answers.state, answers.isStreams) && Succeeds(answers.result);
      var ret := ring.ReinitTransferRing(answers.state, answers.isStreams, answers.result);
      if empty {
        spoiled := false;
        FreshIsNone(ring.State());
        NoneStands();
      }
    }

    // ---- the controller ----

    /**
     * The controller executes TRBs, and moves bytes of a TD: of one that is scheduled (`ScheduledSilent`), or of one
     * that has been given up and is still on the ring.
     */
    method ControllerRuns(ghost i: int, ghost bytes: nat)
      requires Valid() && endpoint.log.Silent(i) && bytes <= endpoint.log.sub[i].bytes
      modifies ring`hw, endpoint`log
      ensures Valid() && ring.Valid() && old(ring.hw.taken) <= ring.hw.taken && ring.Queue() == old(ring.Queue())
        && laid == old(laid)
      ensures endpoint.scheduled.s == old(endpoint.scheduled.s) && endpoint.queued.s == old(endpoint.queued.s)
      ensures endpoint.log == old(endpoint.log).(moved := old(endpoint.log.moved)[i := Move(bytes, Nothing)])
    {
      hide Valid, OnRing, AsyncEndpoint.Valid, TransferRing.Valid, TransferRing.State, Agree, SharesOf, Chained, Tidy,
        Log.First;
      ghost var commands := endpoint.log.Commands();
      ValidMeans();
      LiesOnRing();
      RingSound();
      ring.ControllerRuns();
      LiesOnRing();
      endpoint.ControllerMoves(i, bytes);
      Whole();
    }

    // ---- the other calls ----

    /** CreateTDs: nothing of it concerns the ring. */
    method CreateTDs(command: Command, immediateDataSize: nat, hasMemory: bool) returns (rc: CreateResult)
      requires Valid() && endpoint.Idle(command)
      modifies endpoint`log, endpoint`live, endpoint`facts, endpoint`tds, endpoint.queued, endpoint.free, endpoint.tds,
        command
      ensures Valid() && endpoint.scheduled.s == old(endpoint.scheduled.s) && laid == old(laid)
      ensures rc == if endpoint.aborting then NotPermitted
                    else if command.request >= ABSOLUTE_EDTLA_LIMIT && endpoint.absoluteEDTLA then Unsupported
                    else if command.request > 0 && !hasMemory then CreateResult.BadArgument
                    else Created
      ensures rc != Created ==> endpoint.log == old(endpoint.log) && endpoint.queued.s == old(endpoint.queued.s)
      ensures rc == Created ==>
        var total := if immediateDataSize <= MAX_IMMEDIATE then immediateDataSize else command.request;
        var max := if immediateDataSize <= MAX_IMMEDIATE || total <= endpoint.maxTDBytes then total
                   else endpoint.maxTDBytes;
        && endpoint.log.sub == old(endpoint.log.sub) + Pieces(command, total, max, 0)
        && endpoint.log.completed == old(endpoint.log.completed)
        && |endpoint.queued.s| == |old(endpoint.queued.s)| + |Pieces(command, total, max, 0)|
        && old(endpoint.queued.s) <= endpoint.queued.s
      ensures BurstsFit() && old(AtBursts(endpoint.log, Burst())) ==> AtBursts(endpoint.log, Burst())
    {
      hide Valid, OnRing, AsyncEndpoint.Valid, TransferRing.Valid, Agree, AsyncEndpoint.Idle, Log.Commands,
        AsyncEndpoint.Sound, Pieces, AtBursts, Burst, BurstsFit;
      ValidMeans();
      endpoint.ValidLists();
      ghost var s, l, shares := endpoint.scheduled.s, endpoint.log, SharesOf(endpoint.scheduled.s);
      ghost var whole := immediateDataSize <= MAX_IMMEDIATE || command.request <= endpoint.maxTDBytes;
      ghost var total := if immediateDataSize <= MAX_IMMEDIATE then immediateDataSize else command.request;
      rc := endpoint.CreateTDs(command, immediateDataSize, hasMemory);
      assert SharesOf(s) == shares;
      Whole();
      if rc == Created && BurstsFit() && AtBursts(l, Burst()) {
        CreatedAtBursts(command, total, whole);
        MoreAtBursts(l, endpoint.log, Pieces(command, total, if whole then total else endpoint.maxTDBytes, 0), Burst());
      }
    }

    /** The TDs are as long as the endpoint's bursts, which are shorter than the longest TD, allow. */
    ghost predicate BurstsFit()
      reads endpoint`maxTDBytes
    {
      && maxPacket > 0 && Burst() < MAX_FRAGMENT_SIZE && endpoint.maxTDBytes == MaxTDBytes(Burst())
    }

    /** However a command is split, its TDs start behind whole bursts. */
    lemma CreatedAtBursts(command: Command, total: nat, whole: bool)
      requires BurstsFit() && (whole || total > endpoint.maxTDBytes > 0)
      ensures Burst() > 0
      ensures var max := if whole then total else endpoint.maxTDBytes;
        forall k :: 0 <= k < |Pieces(command, total, max, 0)| ==>
          Pieces(command, total, max, 0)[k].preceding % Burst() == 0
    {
      hide Pieces;
      BurstSome();
      TDsHoldWholeBursts(Burst());
      if !whole { DivisionIsUnique(endpoint.maxTDBytes, Burst(), MAX_FRAGMENT_SIZE / Burst(), 0); }
      PiecesStartAtBursts(command, total, if whole then total else endpoint.maxTDBytes, 0, Burst());
    }

    lemma BurstSome()
      requires maxPacket > 0
      ensures Burst() > 0
    {
    }

    /** Every TD on the ring starts behind whole bursts, if those submitted do. */
    lemma LaidAtBursts(j: int)
      requires Valid() && 0 <= j < |laid| && AtBursts(endpoint.log, Burst())
      ensures laid[j].request.offset % Burst() == 0 && laid[j].request.BurstBytes() == Burst()
    {
      hide OnRing, AsyncEndpoint.Valid, Burst, Request.BurstBytes;
      var s := endpoint.scheduled.s;
      AgreeAt(laid, SharesOf(s), j, Burst());
      assert SharesOf(s)[j] == s[j].OnRing() && Describes(laid[j].request, SharesOf(s)[j], Burst());
      endpoint.ScheduledAs(j);
    }

    /**
     * So that between two places where a TD on the ring is cut into fragments, and from its start to the first of
     * them, whole bursts are moved.
     */
    lemma FragmentsOnRing(j: int, a: nat, b: nat)
      requires Valid() && 0 <= j < |laid| && AtBursts(endpoint.log, Burst())
      requires Plain(laid[j].request) && laid[j].request.immediate.None? && !laid[j].request.IsNoopOrStatus()
      requires var r := laid[j].request;
        && r.bytes > 0 && a < b <= |DataTrbs(r, 0, r.offset, r.bytes)| && (a == 0 || IsCut(r, a)) && IsCut(r, b)
      ensures var r := laid[j].request;
        var ts := DataTrbs(r, 0, r.offset, r.bytes);
        Burst() > 0 && (BytesBefore(ts, b) - BytesBefore(ts, a)) % Burst() == 0
    {
      hide Valid, DataTrbs, BytesBefore, IsCut, Request.IsNoopOrStatus, Available, Request.NoEmptySegments, Burst,
        Request.BurstBytes;
      LaidAtBursts(j);
      FragmentsHoldWholeBursts(laid[j].request, a, b);
    }

    /** Abort: the TRBs of the TDs that were scheduled stay on the ring, and are nobody's. */
    method Abort() returns (ghost n: nat, ghost m: nat)
      requires Kept() && !endpoint.holding
      modifies this`laid, endpoint`aborting, endpoint`log, endpoint`live, endpoint`facts, endpoint`handed,
        endpoint`holding
      modifies endpoint.scheduled, endpoint.queued, endpoint.done, endpoint.free, endpoint.log.Commands()
      modifies endpoint.tds`next, endpoint.tds`shortfall, endpoint.tds`absoluteShortfall, endpoint.tds`interruptThisTD
      ensures Kept() && (old(ring.Valid()) ==> Valid()) && !endpoint.holding && !endpoint.aborting
      ensures endpoint.scheduled.s == [] && endpoint.done.s == [] && laid == []
      ensures n == |old(endpoint.scheduled.s)| && m <= |old(endpoint.queued.s)|
        && endpoint.queued.s == old(endpoint.queued.s)[m..]
      ensures endpoint.log == old(endpoint.log).(completed := old(endpoint.log.completed + |endpoint.done.s|) + n + m)
    {
      hide Valid, Kept, OnRing, Stands, AsyncEndpoint.Valid, TransferRing.Valid, Agree, SharesOf, Log.Commands,
        AsyncEndpoint.Split;
      KeptMeans();
      StandsMeans();
      n, m := endpoint.Abort();
      ghost var commands := endpoint.log.Commands();
      laid := [];
      NoneStands();
      WholeKept();
      OnRingIs();
    }

    static lemma FreshIsNone(s: Ring)
      requires Fresh(s)
      ensures s.first < 0
    {
    }

    /** An empty ring has no TD scheduled on it. */
    lemma NothingScheduled()
      requires Stands() && Listed() && ring.deq == ring.enq
      ensures ring.State().Pending() == [] && laid == [] && endpoint.scheduled.s == []
    {
      hide Lead, Laid.Trbs, Laid.Start, Tidy;
      NothingPending(ring.State());
      Within(ring.State().Pending(), ring.Order(), laid, ring.phys);
    }

    static lemma NothingPending(s: Ring)
      requires s.Inv() && s.first < 0 && s.deq == s.enq
      ensures s.Pending() == []
    {
    }

    lemma StandsMeans()
      requires Stands()
      ensures ring.State().Inv() && ring.first < 0 && ring.Fits()
    {
    }

    lemma NoneStands()
      requires ring.State().Inv() && ring.first < 0 && laid == [] && (ring.Fits() || ring.State().Pending() == [])
      ensures Stands() && (endpoint.scheduled.s == [] ==> Listed())
    {
      OrderOnce(ring.State());
      if ring.State().Pending() == [] { FitsNone(ring.State()); }
    }

    /**
     * ReturnAllTransfersAndReinitRing: nothing is scheduled any more, and the ring is wiped. If the controller
     * has been moved to its start, all is as in the beginning, whatever had been left on the ring.
     */
    method ReturnAllTransfersAndReinitRing(answers: Answers) returns (ghost n: nat, ghost m: nat)
      requires Kept() && !endpoint.holding
      modifies this`laid, this`spoiled, ring, ring.slots
      modifies endpoint`aborting, endpoint`log, endpoint`live, endpoint`facts, endpoint`handed, endpoint`holding
      modifies endpoint.scheduled, endpoint.queued, endpoint.done, endpoint.free, endpoint.log.Commands()
      modifies endpoint.tds`next, endpoint.tds`shortfall, endpoint.tds`absoluteShortfall, endpoint.tds`interruptThisTD
      ensures Fresh(ring.State()) && laid == [] && !spoiled
      ensures endpoint.Valid() && !endpoint.holding && endpoint.scheduled.s == []
      ensures n == |old(endpoint.scheduled.s)| && m <= |old(endpoint.queued.s)|
        && endpoint.queued.s == old(endpoint.queued.s)[m..]
      ensures (answers.state == Stopped || answers.state == Error || (answers.state == Running && answers.isStreams))
        && Succeeds(answers.result)
        ==> Valid() && Clean() && ring.Queue() == []
    {
      hide Valid, Kept, OnRing, Stands, Clean, AsyncEndpoint.Valid, TransferRing.Valid, TransferRing.State, Agree,
        SharesOf, Log.Commands, Fresh, Ring.Inv, Ring.Pending;
      KeptMeans();
      StandsMeans();
      n, m := 0, 0;
      if ring.deq != ring.enq {
        n, m := Abort();
        KeptMeans();
        StandsMeans();
      } else {
        NothingScheduled();
      }
      WipeRing(answers);
    }

    /** The ring's part of it. */
    method WipeRing(answers: Answers)
      requires ring.State().Inv() && ring.first < 0 && endpoint.Valid() && endpoint.numTRBs == ring.slots.Length
        && endpoint.scheduled.s == []
      modifies this`laid, this`spoiled, ring, ring.slots
      ensures Fresh(ring.State()) && laid == [] && !spoiled && endpoint.Valid()
      ensures (answers.state == Stopped || answers.state == Error || (answers.state == Running && answers.isStreams))
        && Succeeds(answers.result)
        ==> Valid() && Clean() && ring.Queue() == []
    {
      hide Valid, OnRing, Clean, AsyncEndpoint.Valid, TransferRing.Valid, TransferRing.State, TransferRing.Queue, Fresh,
        Ring.Inv, Ring.Pending;
      ghost var commands := endpoint.log.Commands();
      var ret := ring.ReturnAllTransfersAndReinitRing(answers.state, answers.isStreams, answers.result);
      laid, spoiled := [], false;
      if (answers.state == Stopped || answers.state == Error || (answers.state == Running && answers.isStreams))
        && Succeeds(answers.result) {
        RingIs();
        NoneLaid();
        Whole();
      }
    }
  }
}
