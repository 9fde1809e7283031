/** The producer's state changes, each of them proved to keep the ring invariant. */
module RingSteps {
  import opened Basics
  import opened Trb
  import opened Hardware
  import opened RingState

  /** When the producer refuses to hand out another slot. */
  predicate Refuses(s: Ring) {
    if s.enq == s.Last() - 1 then s.deq == 0
    else if s.Straddles() then s.deq < s.Last() - s.first + 2
    else s.enq + 1 == s.deq
  }

  /** The enqueue index, the first slot of the open fragment and the cycle state once a slot is taken. */
  function AfterTake(s: Ring): (int, int, bool) {
    var first := if s.first < 0 then s.enq else s.first;
    if s.enq == s.Last() - 1 then (0, first, !s.cs)
    else if s.Straddles() then (s.Last() - s.first + 1, 0, s.cs)
    else (s.enq + 1, first, s.cs)
  }

  function Clear1(t: TRB): TRB { t.(body := CLEARED_BODY) }
  function Flip(t: TRB): TRB { t.(cycle := !t.cycle) }

  /** A slot taken away from both ends of the ring. */
  function TakePlain(s: Ring): Ring
    requires 0 <= s.enq < |s.mem|
  {
    s.(mem := s.mem[s.enq := Clear1(s.mem[s.enq])],
       enq := s.enq + 1,
       first := if s.first < 0 then s.enq else s.first,
       hole := s.first >= 0)
  }

  /** The last slot taken, with the terminal link handed to the controller and the cycle state toggled. */
  function TakeLast(s: Ring, chain: bool): Ring
    requires 0 <= s.enq < |s.mem| && |s.mem| > 0
  {
    var link := s.mem[s.Last()];
    var published := TRB(link.body.(control := link.body.control.(chain := chain)), s.cs);
    s.(mem := s.mem[s.Last() := published][s.enq := Clear1(s.mem[s.enq])],
       enq := 0, cs := !s.cs,
       first := if s.first < 0 then s.enq else s.first,
       hole := s.first >= 0,
       turn := s.Last())
  }

  /** The copy of the terminal link that takes the place of a relocated fragment's first TRB. */
  function MidRingLink(link: TRB, chain: bool): TRB {
    link.(body := link.body.(control := link.body.control.(chain := chain)))
  }

  /** Slots f up to the terminal link are repeated at the start of the ring with their cycle bits flipped. */
  ghost predicate Copied(mem: seq<TRB>, mem': seq<TRB>, f: int) {
    var n := |mem| - 1 - f;
    && 0 <= n < f && |mem'| == |mem|
    && (forall k :: 0 <= k < n ==> mem'[k] == Flip(mem[f + k]))
    && (forall k :: n <= k < |mem| ==> mem'[k] == mem[k])
  }

  /** The open fragment moved to the start of the ring, with one more slot taken behind it. */
  ghost predicate Relocated(s: Ring, s': Ring, chain: bool)
    requires s.Indices() && s.Straddles()
  {
    var f, n := s.first, s.Last() - s.first;
    exists copied :: Copied(s.mem, copied, f) &&
      s' == s.(mem := copied[f := MidRingLink(s.mem[s.Last()], chain)][n := Clear1(s.mem[n])],
               enq := n + 1, first := 0, hole := true, turn := f)
  }

  /** Slot was handed out as the next one of the open fragment. */
  ghost predicate Took(s: Ring, s': Ring, slot: int) {
    && s.Indices() && s'.Indices()
    && s'.phys == s.phys && |s'.mem| == |s.mem| && s'.deq == s.deq
    && (s'.enq, s'.first, s'.cs) == AfterTake(s)
    && s'.turn == (if s.enq == s.Last() - 1 then s.Last() else if s.Straddles() then s.first else s.turn)
    && s'.first >= 0 && slot == s'.End() - 1 && s'.hole == (slot != s'.first)
    && s'.mem[slot].body == CLEARED_BODY
    && s'.Fragment() == s.Fragment() + [CLEARED_BODY]
  }

  /** Taking a slot, even with the fragment relocated, touches no pending TRB. */
  lemma TookPending(s: Ring, s': Ring, slot: int, i: int)
    requires Took(s, s', slot) && !Refuses(s)
    ensures s'.PendingAt(i) == s.PendingAt(i)
  {
  }

  lemma TookOrder(s: Ring, s': Ring, slot: int)
    requires Took(s, s', slot) && !Refuses(s)
    ensures s'.Order() == s.Order()
  {
  }

  /** The invariant goes over to s', and what is pending stays the same. */
  ghost predicate Keeps(s: Ring, s': Ring) {
    s.Inv() && s'.Inv() && s'.Pending() == s.Pending()
  }

  /** The slots that a step writes are out of the controller's reach. */
  lemma HidesNext(s: Ring)
    requires s.Inv()
    ensures s.Route().Hides(s.enq, |s.mem|)
  {
  }

  lemma HidesSlot(s: Ring)
    requires s.Inv() && s.first >= 0
    ensures var slot := s.End() - 1;
      s.Route().Hides(slot, |s.mem|) && (slot == s.Route().stop.index <==> slot == s.first)
  {
  }

  lemma HidesLink(s: Ring)
    requires s.Inv() && s.deq != 0 && (s.enq == s.Last() - 1 || s.Straddles())
    ensures s.Route().Hides(s.Last(), |s.mem|) && s.Last() != s.Route().stop.index
  {
  }

  lemma TakePlainShape(s: Ring)
    requires s.Inv() && !s.hole && !Refuses(s) && s.enq != s.Last() - 1 && !s.Straddles()
    ensures var s' := TakePlain(s);
            s'.Indices() && s'.Cycles() && s'.NoLinkInFragment() && s'.Route() == s.Route()
  {
    var s' := TakePlain(s);
    assert forall i :: 0 <= i < |s.mem| && i != s.enq ==> s'.Cycle(i) == s.Cycle(i);
    assert s'.Cycle(s.enq) == s.Cycle(s.enq);
    assert forall i :: 0 <= i < |s.mem| && i != s.enq ==> s'.mem[i] == s.mem[i];
    assert !s'.mem[s.enq].IsLink();
    forall i | s'.first <= i < s'.End() ensures 0 <= i < |s'.mem| && !s'.mem[i].IsLink() {
      assert i == s.enq || s.first <= i < s.End();
    }
  }

  lemma TakePlainKeeps(s: Ring)
    requires s.Inv() && !s.hole && !Refuses(s) && s.enq != s.Last() - 1 && !s.Straddles()
    ensures TakePlain(s).Inv() && TakePlain(s).Route() == s.Route() && Keeps(s, TakePlain(s))
  {
    TakePlainShape(s);
    UnreadFrom(s.mem, s.Route(), TakePlain(s).mem, s.phys);
  }

  lemma TakePlainTook(s: Ring)
    requires s.Indices() && !s.hole && !Refuses(s) && s.enq != s.Last() - 1 && !s.Straddles()
    ensures Took(s, TakePlain(s), s.enq)
  {
    if s.first >= 0 { BodiesKept(s.mem, TakePlain(s).mem, s.first, s.enq); }
  }

  lemma TakeLastShape(s: Ring, chain: bool)
    requires s.Inv() && !s.hole && !Refuses(s) && s.enq == s.Last() - 1
    ensures var s' := TakeLast(s, chain);
            s'.Indices() && s'.Cycles() && s'.NoLinkInFragment() && s'.Route() == s.Route()
    ensures var s' := TakeLast(s, chain); IsHomeLink(s'.mem[s'.Last()], s'.phys)
  {
    var s' := TakeLast(s, chain);
    forall i | 0 <= i < |s.mem| ensures s'.mem[i].cycle == s'.Cycle(i) {
      assert s.mem[i].cycle == s.Cycle(i);
    }
    forall i | s'.first <= i < s'.End() ensures 0 <= i < |s'.mem| && !s'.mem[i].IsLink() {
      assert i == s.enq || (s.first <= i < s.End() && s'.mem[i] == s.mem[i]);
    }
  }

  lemma TakeLastKeeps(s: Ring, chain: bool)
    requires s.Inv() && !s.hole && !Refuses(s) && s.enq == s.Last() - 1
    ensures TakeLast(s, chain).Inv() && TakeLast(s, chain).Route() == s.Route() && Keeps(s, TakeLast(s, chain))
  {
    TakeLastShape(s, chain);
    UnreadFrom(s.mem, s.Route(), TakeLast(s, chain).mem, s.phys);
  }

  lemma TakeLastTook(s: Ring, chain: bool)
    requires s.Indices() && !s.hole && !Refuses(s) && s.enq == s.Last() - 1
    ensures Took(s, TakeLast(s, chain), s.enq)
  {
    if s.first >= 0 { BodiesKept(s.mem, TakeLast(s, chain).mem, s.first, s.enq); }
  }

  /** What relocating starts from. */
  lemma RelocationReady(s: Ring)
    requires s.Inv() && !s.hole && !Refuses(s) && s.Straddles()
    ensures var r, f := s.Route(), s.first;
            && !r.Turns() && r.stop == Place(f, !s.cs)
            && s.Last() - f + 1 < r.start.index <= f < s.Last()
            && s.mem[s.Last()].cycle == !s.cs && IsHomeLink(s.mem[s.Last()], s.phys) && s.mem[f].cycle == s.cs
            && r.start == s.Start()
  {
  }

  lemma CopiedAt(mem: seq<TRB>, mem': seq<TRB>, f: int)
    requires Copied(mem, mem', f) && f < |mem| - 1
    ensures |mem'| == |mem| && mem'[|mem| - 1] == mem[|mem| - 1] && mem'[|mem| - 1 - f] == mem[|mem| - 1 - f]
    ensures mem'[0] == Flip(mem[f])
  {
    assert mem'[0] == Flip(mem[f + 0]);
  }

  lemma IsRelocated(s: Ring, copied: seq<TRB>, chain: bool)
    requires s.Indices() && s.Straddles() && Copied(s.mem, copied, s.first)
    ensures var n := s.Last() - s.first;
            |copied| == |s.mem| && n < |s.mem| &&
            Relocated(s, s.(mem := copied[s.first := MidRingLink(s.mem[s.Last()], chain)][n := Clear1(s.mem[n])],
                            enq := n + 1, first := 0, hole := true, turn := s.first), chain)
  {
  }

  lemma RelocatedShape(s: Ring, s': Ring, chain: bool)
    requires s.Inv() && !s.hole && !Refuses(s) && s.Straddles() && Relocated(s, s', chain)
    ensures s'.Indices() && s'.Cycles() && s'.NoLinkInFragment()
    ensures IsHomeLink(s'.mem[s.first], s.phys) && s'.mem[s.first].cycle == !s.cs
    ensures IsHomeLink(s'.mem[s'.Last()], s.phys)
  {
    var f, n := s.first, s.Last() - s.first;
    forall i | 0 <= i < |s.mem| ensures s'.mem[i].cycle == s'.Cycle(i) {
      if i < n {
        assert s'.mem[i] == Flip(s.mem[f + i]) && s.mem[f + i].cycle == s.Cycle(f + i);
      } else {
        assert s.mem[i].cycle == s.Cycle(i);
      }
    }
    assert !s'.mem[n].IsLink();
    forall i | 0 <= i < n ensures !s'.mem[i].IsLink() {
      assert s'.mem[i] == Flip(s.mem[f + i]);
    }
  }

  lemma RelocatedKeeps(s: Ring, s': Ring, chain: bool)
    requires s.Inv() && !s.hole && !Refuses(s) && s.Straddles() && Relocated(s, s', chain)
    ensures s'.Inv() && Keeps(s, s') && s'.Route() == Route(s.Start(), s.first, Place(0, s.cs))
  {
    RelocatedShape(s, s', chain);
    assert s'.mem[0].cycle == s'.Cycle(0);
    BodiesKept(s.mem, s'.mem, s.deq, s.first);
  }

  lemma RelocatedTook(s: Ring, s': Ring, chain: bool)
    requires s.Indices() && !s.hole && !Refuses(s) && s.Straddles() && Relocated(s, s', chain)
    ensures Took(s, s', s.Last() - s.first)
  {
    BodiesCopied(s.mem, s'.mem, s.first, s.Last() - s.first);
  }

  // ---------------------------------------------------------------- writing, publishing and rolling back

  /** The slot handed out last with its TRB in it; the first slot of a fragment keeps its cycle bit. */
  function Fill(s: Ring, body: Body): Ring
    requires 0 < s.End() <= |s.mem|
  {
    var slot := s.End() - 1;
    s.(mem := s.mem[slot := TRB(body, if slot == s.first then s.mem[slot].cycle else !s.mem[slot].cycle)],
       hole := false)
  }

  lemma FillShape(s: Ring, body: Body)
    requires s.Inv() && s.first >= 0 && s.hole == (s.End() - 1 != s.first) && body.control.kind != Link
    ensures var s' := Fill(s, body); s'.Indices() && s'.Cycles() && s'.NoLinkInFragment() && s'.Route() == s.Route()
    ensures var s' := Fill(s, body); IsHomeLink(s'.mem[s'.Last()], s'.phys)
  {
    var s', slot := Fill(s, body), s.End() - 1;
    assert forall i :: 0 <= i < |s.mem| && i != slot ==> s'.Cycle(i) == s.Cycle(i);
    assert s.mem[slot].cycle == s.Cycle(slot);
  }

  lemma FillKeeps(s: Ring, body: Body)
    requires s.Inv() && s.first >= 0 && s.hole == (s.End() - 1 != s.first) && body.control.kind != Link
    ensures Fill(s, body).Inv() && Fill(s, body).Route() == s.Route() && Keeps(s, Fill(s, body))
  {
    FillShape(s, body);
    UnreadFrom(s.mem, s.Route(), Fill(s, body).mem, s.phys);
  }

  lemma FillFragment(s: Ring, body: Body)
    requires s.Indices() && s.first >= 0
    ensures Fill(s, body).Fragment() == s.Fragment()[..|s.Fragment()| - 1] + [body]
  {
    BodiesKept(s.mem, Fill(s, body).mem, s.first, s.End() - 1);
  }

  /** The open fragment published, its first TRB with control word `fourth`. */
  function Publish(s: Ring, fourth: Control): Ring
    requires 0 <= s.first < |s.mem|
  {
    var t := s.mem[s.first];
    s.(mem := s.mem[s.first := TRB(t.body.(control := fourth), !t.cycle)], first := -1)
  }

  /** What publishing adds to the pending TRBs. */
  function Published(s: Ring, fourth: Control): seq<Body>
    requires s.Indices() && s.first >= 0
  {
    [s.mem[s.first].body.(control := fourth)] + Bodies(s.mem, s.first + 1, s.End())
  }

  lemma PublishedFragment(s: Ring, fourth: Control)
    requires s.Indices() && s.first >= 0
    ensures Published(s, fourth) == [s.Fragment()[0].(control := fourth)] + s.Fragment()[1..]
  {
    BodiesSplit(s.mem, s.first, s.first + 1, s.End());
    assert Bodies(s.mem, s.first, s.first + 1) == [s.mem[s.first].body];
  }

  /** The fragment occupies one contiguous range of slots, in front of the terminal link. */
  lemma PublishedInPlace(s: Ring, fourth: Control)
    requires s.Indices() && s.first >= 0
    ensures s.first + |s.Fragment()| == s.End() <= s.Last()
    ensures Bodies(Publish(s, fourth).mem, s.first, s.End()) == Published(s, fourth)
  {
    BodiesExtend(s.mem, s.first, s.first, Publish(s, fourth).mem[s.first], s.End());
  }

  /** No slot of the open fragment is pending; publishing adds exactly these slots. */
  lemma PublishedSlots(s: Ring, fourth: Control, i: int)
    requires s.Indices() && s.first >= 0
    ensures s.first <= i < s.End() ==> !s.PendingAt(i)
    ensures Publish(s, fourth).PendingAt(i) <==> s.PendingAt(i) || s.first <= i < s.End()
  {
  }

  /** The fragment's slots come behind those that were pending. */
  lemma PublishedOrder(s: Ring, fourth: Control)
    requires s.Indices() && s.first >= 0
    ensures Publish(s, fourth).Order() == s.Order() + Range(s.first, s.End())
  {
    var r, r' := s.Route(), Publish(s, fourth).Route();
    RangeSplit(r.start.index, s.first, s.End());
    RangeSplit(0, s.first, s.End());
    assert Slots(r') == Slots(r) + Range(s.first, s.End()) by {
      if r'.Turns() && !r.Turns() {
        assert Slots(r') == Range(r.start.index, s.End()) + [];
      }
    }
  }

  lemma RangeSplit(lo: int, mid: int, hi: int)
    ensures lo <= mid <= hi ==> Range(lo, hi) == Range(lo, mid) + Range(mid, hi)
  {
  }

  lemma PublishShape(s: Ring, fourth: Control)
    requires s.Inv() && s.first >= 0 && !s.hole && fourth.kind != Link
    ensures var s' := Publish(s, fourth);
            s'.Indices() && s'.Cycles() && s'.NoLinkInFragment() && IsHomeLink(s'.mem[s'.Last()], s'.phys)
  {
  }

  lemma PublishGrows(s: Ring, fourth: Control)
    requires s.Inv() && s.first >= 0 && !s.hole && fourth.kind != Link
    ensures var s' := Publish(s, fourth);
            s'.Inv() && Grows(s.mem, s.Route(), s'.mem, s'.Route(), Published(s, fourth), s.phys)
  {
    PublishShape(s, fourth);
    if s.enq == 0 { PublishAtLink(s, fourth); } else { PublishInLap(s, fourth); }
    hide Clear;
  }

  lemma PublishInLap(s: Ring, fourth: Control)
    requires s.Inv() && s.first >= 0 && !s.hole && fourth.kind != Link && s.enq > 0
    ensures Grows(s.mem, s.Route(), Publish(s, fourth).mem, Publish(s, fourth).Route(), Published(s, fourth), s.phys)
  {
    hide Contents, Grows;
    var v := Publish(s, fourth).mem[s.first];
    assert Publishable(s.mem, s.Route(), v, s.enq);
    Publishes(s.mem, s.Route(), v, s.enq, s.phys);
  }

  lemma PublishAtLink(s: Ring, fourth: Control)
    requires s.Inv() && s.first >= 0 && !s.hole && fourth.kind != Link && s.enq == 0
    ensures Grows(s.mem, s.Route(), Publish(s, fourth).mem, Publish(s, fourth).Route(), Published(s, fourth), s.phys)
  {
    hide Contents, Grows;
    var v := Publish(s, fourth).mem[s.first];
    assert ReachesLink(s.mem, s.Stop(), v, s.Last(), s.phys);
    PublishesToLink(s.mem, s.Route(), v, s.Last(), s.phys);
  }

  lemma PublishPending(s: Ring, fourth: Control)
    requires s.Inv() && s.first >= 0 && !s.hole && fourth.kind != Link
    ensures Publish(s, fourth).Inv() && Publish(s, fourth).Pending() == s.Pending() + Published(s, fourth)
  {
    PublishGrows(s, fourth);
    assert s.Route().On(s.Start());
    assert s.Route().From(s.Start()) == s.Route();
    assert Publish(s, fourth).Route().From(s.Start()) == Publish(s, fourth).Route();
  }

  /** The terminal link with its chain bit cleared. */
  function UnchainLink(s: Ring): Ring
    requires |s.mem| > 0
  {
    var link := s.mem[s.Last()];
    s.(mem := s.mem[s.Last() := link.(body := link.body.(control := link.body.control.(chain := false)))])
  }

  lemma UnchainLinkShape(s: Ring)
    requires s.Inv() && s.first >= 0 && s.deq != 0
    ensures var s' := UnchainLink(s);
            s'.Indices() && s'.Cycles() && s'.NoLinkInFragment() && s'.Route() == s.Route()
              && IsHomeLink(s'.mem[s'.Last()], s'.phys)
  {
    var s' := UnchainLink(s);
    assert forall i :: 0 <= i < s.Last() ==> s'.mem[i] == s.mem[i];
    assert s'.mem[s.Last()].cycle == s.mem[s.Last()].cycle;
    assert forall i :: 0 <= i < |s.mem| ==> s'.Cycle(i) == s.Cycle(i);
    assert IsHomeLink(s'.mem[s'.Last()], s'.phys);
  }

  lemma UnchainLinkKeeps(s: Ring)
    requires s.Inv() && s.Straddles()
    ensures UnchainLink(s).Inv() && UnchainLink(s).Route() == s.Route() && Keeps(s, UnchainLink(s))
    ensures UnchainLink(s).Fragment() == s.Fragment()
  {
    UnchainLinkShape(s);
    UnreadFrom(s.mem, s.Route(), UnchainLink(s).mem, s.phys);
    BodiesKept(s.mem, UnchainLink(s).mem, s.first, s.Last());
  }

  /** Memory in which the slots between lo and hi, both excluded, hold cycle bit `cycle`. */
  function Rewind(mem: seq<TRB>, lo: int, hi: int, cycle: bool): (r: seq<TRB>)
    ensures |r| == |mem|
  {
    seq(|mem|, k requires 0 <= k < |mem| => if lo < k < hi then mem[k].(cycle := cycle) else mem[k])
  }

  lemma RewindNone(mem: seq<TRB>, lo: int, hi: int, cycle: bool)
    requires hi <= lo + 1
    ensures Rewind(mem, lo, hi, cycle) == mem
  {
  }

  lemma RewindStep(mem: seq<TRB>, lo: int, hi: int, cycle: bool)
    requires 0 <= lo < hi <= |mem|
    ensures var r := Rewind(mem, lo, hi, cycle); r[lo := r[lo].(cycle := cycle)] == Rewind(mem, lo - 1, hi, cycle)
  {
  }

  /** The open fragment given up: its slots, and the terminal link if it was crossed, are taken back. */
  function RollBack(s: Ring): Ring {
    var lap := s.Stop().cs;
    s.(mem := Rewind(s.mem, s.first, s.Top(), !lap), enq := s.first, cs := lap, first := -1, hole := false)
  }

  lemma RollBackShape(s: Ring)
    requires s.Inv() && s.first >= 0
    ensures var s' := RollBack(s);
            s'.Indices() && s'.Cycles() && s'.NoLinkInFragment() && s'.Route() == s.Route()
    ensures var s' := RollBack(s); IsHomeLink(s'.mem[s'.Last()], s'.phys)
  {
  }

  lemma RollBackKeeps(s: Ring)
    requires s.Inv() && s.first >= 0
    ensures RollBack(s).Inv() && RollBack(s).Route() == s.Route() && Keeps(s, RollBack(s))
  {
    RollBackShape(s);
    UnreadFrom(s.mem, s.Route(), RollBack(s).mem, s.phys);
  }

  lemma RollBackRange(s: Ring)
    requires s.Inv() && s.first >= 0
    ensures s.RollsBackTo(s.first) && s.first == s.Stop().index
  {
  }

  /**
   * However many slots a fragment has taken, across the terminal link or not, giving it up leads back
   * to the enqueue index and the cycle state at which it was opened; only relocation moves them on,
   * to the start of the ring.
   */
  lemma RollBackUndoesTake(s: Ring, s': Ring, slot: int)
    requires s.Indices() && !Refuses(s) && Took(s, s', slot)
    ensures var (back, origin) := (RollBack(s'), if s.first < 0 then s else RollBack(s));
            if s.Straddles() then back.enq == 0 && back.cs == !origin.cs
            else back.enq == origin.enq && back.cs == origin.cs
  {
  }

  // ---------------------------------------------------------------- moving the dequeue index

  /** Index i names a TRB that is pending, or the link or the end that the pending TRBs lead to. */
  predicate Names(s: Ring, i: int) {
    s.Route().On(s.PlaceOf(i))
  }

  function Reseat(s: Ring, i: int): Ring { s.(deq := i) }

  /** With no fragment open, the dequeue index may move to any place in the pending region. */
  lemma ReseatKeeps(s: Ring, i: int)
    requires s.Inv() && s.first < 0 && 0 <= i < s.Last() && Names(s, i)
    ensures Reseat(s, i).Inv()
    ensures var p := s.PlaceOf(i);
            && Clear(s.mem, s.phys, s.Route().From(p))
            && 0 <= Offset(s.Route(), p) <= |s.Pending()|
            && Reseat(s, i).Pending() == s.Pending()[Offset(s.Route(), p)..]
            && Reseat(s, i).Pending() == Contents(s.mem, s.phys, s.Route().From(p))
  {
    var s', p := Reseat(s, i), s.PlaceOf(i);
    SuffixFrom(s.mem, s.phys, s.Route(), p);
    if i == 0 {
      assert Bodies(s.mem, s.Last(), s.Last()) == [];
      assert s'.Route() == Route(Place(s.Last(), !s.cs), s.Last(), s.Stop());
    } else if s.Route().Turns() && p.cs == s.cs {
      assert s'.Route().start == p && s'.Route().stop == s.Stop();
    } else {
      assert s'.Route() == s.Route().From(p);
    }
  }

  /**
   * The cycle state chosen by SetTRDQPtr: that of the producer at the enqueue index, else the cycle
   * bit found in the slot. It is the one the controller would have there had it come in order.
   */
  lemma ReseatCycle(s: Ring, i: int)
    requires s.Inv() && s.first < 0 && 0 <= i < s.Last() && Names(s, i)
    ensures (if i == s.enq then s.cs else s.mem[i].cycle) == s.PlaceOf(i).cs
  {
  }

  /** Behind TRB i comes the next place on the route, exactly one TRB further on. */
  lemma NextIndexNames(s: Ring, i: int)
    requires s.Inv() && s.first < 0 && 0 <= i < s.Last() && Names(s, i)
    requires Place(i, s.PlaceOf(i).cs) != s.Stop()
      && !(s.Route().Turns() && s.PlaceOf(i).cs == s.Start().cs && i == s.Route().turn)
    ensures var n := s.NextIndex(i);
            && 0 <= n < s.Last() && Names(s, n)
            && Offset(s.Route(), s.PlaceOf(n)) == Offset(s.Route(), s.PlaceOf(i)) + 1
  {
  }

  /** The dequeue index moved to a place, the slots behind it are left. */
  lemma ReseatOrder(s: Ring, i: int)
    requires s.Indices() && s.first < 0 && 0 <= i < s.Last() && Names(s, i)
    requires s.Route().Turns() ==> s.Route().start.index <= s.Route().turn
    ensures 0 <= Offset(s.Route(), s.PlaceOf(i)) <= |s.Order()|
    ensures Reseat(s, i).Order() == s.Order()[Offset(s.Route(), s.PlaceOf(i))..]
  {
    SlotsFrom(s.Route(), s.PlaceOf(i));
  }

  /** Each slot is pending once. */
  lemma OrderOnce(s: Ring)
    requires s.Inv()
    ensures NoDuplicates(s.Order()) && |s.Order()| == |s.Pending()|
  {
    SlotsHold(s.mem, s.phys, s.Route());
  }

  lemma OrderHas(s: Ring, i: int)
    requires s.Inv()
    ensures i in s.Order() <==> s.PendingAt(i)
    ensures s.PendingAt(i) ==> 0 <= i < s.Last()
  {
    var r := s.Route();
    InRange(r.start.index, if r.Turns() then r.turn else r.stop.index, i);
    InRange(0, r.stop.index, i);
  }

  /** The k-th pending TRB: where it lies, and that its index names it and nothing else. */
  lemma OrderNames(s: Ring, k: int)
    requires s.Inv() && s.first < 0 && 0 <= k < |s.Order()|
    ensures var i := s.Order()[k];
            && 0 <= i < s.Last() && Names(s, i) && Offset(s.Route(), s.PlaceOf(i)) == k
            && s.PlaceOf(i) != s.Stop() && !(s.Route().Turns() && s.PlaceOf(i) == Place(s.Route().turn, s.Start().cs))
  {
  }

  /** The controller has executed the pending TRB at index i. */
  predicate Executed(s: Ring, hw: Controller, i: int) {
    && 0 <= i < s.Last() && Names(s, i) && s.Route().On(hw.place)
    && Offset(s.Route(), s.PlaceOf(i)) < Offset(s.Route(), hw.place)
    && !(s.Route().Turns() && s.PlaceOf(i) == Place(s.Route().turn, s.Start().cs))
  }

  /** The queue has lost exactly the TRBs up to the one at index i. */
  ghost predicate Retired(s: Ring, s': Ring, i: int) {
    && s.Inv() && s'.Inv() && 0 <= i < s.Last() && Names(s, i)
    && s' == Reseat(s, s.NextIndex(i))
    && var k := Offset(s.Route(), s.PlaceOf(i)) + 1;
       && 0 <= k <= |s.Pending()| && s'.Pending() == s.Pending()[k..]
       && k <= |s.Order()| && s'.Order() == s.Order()[k..]
  }

  /**
   * Retiring a pending TRB drops the TRBs up to it. The controller is on the new route if it has executed that TRB,
   * and only then; otherwise it still has some to execute that the driver does not wait for.
   */
  lemma RetireFollows(s: Ring, i: int, hw: Controller, history: seq<Body>)
    requires s.Inv() && s.first < 0 && s.PendingAt(i)
    ensures var s' := Reseat(s, s.NextIndex(i));
      && Retired(s, s', i)
      && (Follows(s.mem, s.phys, s.Route(), hw, history) ==>
            && (Follows(s.mem, s.phys, s'.Route(), hw, history) <==> Executed(s, hw, i))
            && (hw.taken == history ==> Executed(s, hw, i)))
  {
    RetireReseats(s, i);
    hide Retired, Ring.Inv, Ring.Route, Contents, Clear, Executed, Ring.PendingAt;
    if Follows(s.mem, s.phys, s.Route(), hw, history) {
      if Executed(s, hw, i) {
        RetiredRoute(s, i, hw);
        RetiredClear(s, i);
      } else {
        PassedRoute(s, i, hw, history);
      }
    }
  }

  lemma RetireReseats(s: Ring, i: int)
    requires s.Inv() && s.first < 0 && s.PendingAt(i)
    ensures Retired(s, Reseat(s, s.NextIndex(i)), i)
  {
    hide Ring.Inv, Clear, Contents, Slots, Ring.Pending, Ring.Order, Ring.Route, Offset, Ring.PendingAt;
    PendingNames(s, i);
    ReseatOrder(s, s.NextIndex(i));
    ReseatKeeps(s, s.NextIndex(i));
  }

  lemma RetiredClear(s: Ring, i: int)
    requires Retired(s, Reseat(s, s.NextIndex(i)), i)
    ensures Clear(s.mem, s.phys, Reseat(s, s.NextIndex(i)).Route())
  {
  }

  lemma PendingNames(s: Ring, i: int)
    requires s.Inv() && s.first < 0 && s.PendingAt(i)
    ensures 0 <= i < s.Last() && Names(s, i)
    ensures var n := s.NextIndex(i);
            && 0 <= n < s.Last() && Names(s, n) && 0 <= s.enq < s.Last() && s.Indices()
            && Offset(s.Route(), s.PlaceOf(n)) == Offset(s.Route(), s.PlaceOf(i)) + 1
    ensures s.Route().Turns() ==> s.Route().start.index <= s.Route().turn
  {
    NextIndexNames(s, i);
  }

  lemma RetiredRoute(s: Ring, i: int, hw: Controller)
    requires s.Inv() && s.first < 0 && Executed(s, hw, i)
    requires Clear(s.mem, s.phys, s.Route().From(hw.place))
    ensures var r' := Reseat(s, s.NextIndex(i)).Route();
            && r'.On(hw.place) && Clear(s.mem, s.phys, r'.From(hw.place))
            && Contents(s.mem, s.phys, r'.From(hw.place)) == Contents(s.mem, s.phys, s.Route().From(hw.place))
  {
  }

  lemma PassedRoute(s: Ring, i: int, hw: Controller, history: seq<Body>)
    requires s.Inv() && s.first < 0 && s.PendingAt(i) && !Executed(s, hw, i)
    requires Follows(s.mem, s.phys, s.Route(), hw, history)
    ensures !Reseat(s, s.NextIndex(i)).Route().On(hw.place) && hw.taken != history
  {
    PassedPlace(s, i, hw);
    SuffixFrom(s.mem, s.phys, s.Route(), hw.place);
  }

  lemma PassedPlace(s: Ring, i: int, hw: Controller)
    requires s.Inv() && s.first < 0 && s.PendingAt(i) && s.Route().On(hw.place) && !Executed(s, hw, i)
    ensures !Reseat(s, s.NextIndex(i)).Route().On(hw.place) && Offset(s.Route(), hw.place) < |s.Pending()|
  {
  }

  /** A controller put at index i with the cycle state of that place sees exactly what is pending from there on. */
  lemma ReseatFollows(s: Ring, i: int, taken: seq<Body>)
    requires s.Inv() && s.first < 0 && 0 <= i < s.Last() && Names(s, i) && Reseat(s, i).Inv()
    requires Reseat(s, i).Pending() == Contents(s.mem, s.phys, s.Route().From(s.PlaceOf(i)))
    requires Clear(s.mem, s.phys, s.Route().From(s.PlaceOf(i)))
    ensures Follows(s.mem, s.phys, Reseat(s, i).Route(), Controller(s.PlaceOf(i), taken),
                    taken + Reseat(s, i).Pending())
  {
  }

  /**
   * A controller moved to index i with the cycle state it would have had there in order: what is
   * pending from there on is all that it will see.
   */
  ghost predicate Reseated(s: Ring, s': Ring, i: int, dcs: bool, hw: Controller, hw': Controller, history: seq<Body>) {
    && s.Inv() && 0 <= i < s.Last() && Names(s, i) && s'.Inv()
    && s' == Reseat(s, i)
    && dcs == s.PlaceOf(i).cs
    && 0 <= Offset(s.Route(), s.PlaceOf(i)) <= |s.Pending()|
    && s'.Pending() == s.Pending()[Offset(s.Route(), s.PlaceOf(i))..]
    && 0 <= Offset(s.Route(), s.PlaceOf(i)) <= |s.Order()|
    && s'.Order() == s.Order()[Offset(s.Route(), s.PlaceOf(i))..]
    && hw' == Controller(Place(i, dcs), hw.taken)
    && history == hw.taken + s'.Pending()
  }

  /** Re-seating with the cycle state that the driver chooses. */
  lemma ReseatedBy(s: Ring, i: int, dcs: bool, hw: Controller)
    requires s.Inv() && s.first < 0 && 0 <= i < s.Last() && Names(s, i)
    requires dcs == if i == s.enq then s.cs else s.mem[i].cycle
    ensures var s', hw' := Reseat(s, i), Controller(Place(i, dcs), hw.taken);
            && s'.Inv() && Clear(s.mem, s.phys, s'.Route())
            && Reseated(s, s', i, dcs, hw, hw', hw.taken + s'.Pending())
            && Follows(s.mem, s.phys, s'.Route(), hw', hw.taken + s'.Pending())
  {
    ReseatCycle(s, i);
    ReseatKeeps(s, i);
    ReseatOrder(s, i);
    ReseatFollows(s, i, hw.taken);
    hide Follows, Contents, Clear, Ring.Inv;
  }

  // ---------------------------------------------------------------- the link in the middle

  /**
   * The link in the middle of the ring through which the pending TRBs go, if they do: how many of them are in front of
   * it, and whether it is chained.
   */
  function MidLink(s: Ring): Option<(int, bool)> {
    var r := s.Route();
    if r.Turns() && 0 <= r.turn < s.Last() then Some((r.turn - r.start.index, s.mem[r.turn].body.control.chain))
    else None
  }

  /** Taking a slot leaves it as it is; relocation makes one behind all that is pending. */
  predicate MidAfter(s: Ring, s': Ring, chain: bool) {
    MidLink(s') == if s.Straddles() then Some((|s.Order()|, chain)) else MidLink(s)
  }

  /** k TRBs in front are gone; it may be among them. */
  predicate MidShifted(mid: Option<(int, bool)>, mid': Option<(int, bool)>, k: int) {
    mid' == None || (mid.Some? && mid' == Some((mid.value.0 - k, mid.value.1)))
  }

  lemma MidTakePlain(s: Ring, chain: bool)
    requires s.Inv() && !s.hole && !Refuses(s) && s.enq != s.Last() - 1 && !s.Straddles()
    ensures MidAfter(s, TakePlain(s), chain)
  {
    hide Ring.Cycles, Ring.NoLinkInFragment, IsHomeLink;
  }

  lemma MidTakeLast(s: Ring, link: bool, chain: bool)
    requires s.Inv() && !s.hole && !Refuses(s) && s.enq == s.Last() - 1
    ensures MidAfter(s, TakeLast(s, link), chain)
  {
    hide Clear, Ring.Cycles, Ring.NoLinkInFragment, IsHomeLink;
  }

  lemma MidRelocated(s: Ring, s': Ring, chain: bool)
    requires s.Inv() && s.Straddles() && !Refuses(s) && Relocated(s, s', chain)
    ensures MidAfter(s, s', chain)
  {
    hide Clear, Ring.Cycles, Ring.NoLinkInFragment, IsHomeLink;
  }

  lemma MidFill(s: Ring, body: Body)
    requires s.Inv() && s.first >= 0
    ensures MidLink(Fill(s, body)) == MidLink(s)
  {
    hide Ring.Cycles, Ring.NoLinkInFragment, IsHomeLink;
  }

  lemma MidPublish(s: Ring, fourth: Control)
    requires s.Inv() && s.first >= 0
    ensures MidLink(Publish(s, fourth)) == MidLink(s)
  {
    hide Ring.Cycles, Ring.NoLinkInFragment, IsHomeLink;
  }

  lemma MidUnchained(s: Ring)
    requires s.Inv() && s.Straddles()
    ensures MidLink(UnchainLink(s)) == MidLink(s)
  {
    hide Clear, Ring.Cycles, Ring.NoLinkInFragment, IsHomeLink;
  }

  lemma MidRolledBack(s: Ring)
    requires s.Inv() && s.first >= 0
    ensures MidLink(RollBack(s)) == MidLink(s)
  {
    hide Clear, Ring.Cycles, Ring.NoLinkInFragment, IsHomeLink;
  }

  lemma MidReseated(s: Ring, i: int)
    requires s.Inv() && s.first < 0 && 0 <= i < s.Last() && Names(s, i)
    ensures MidShifted(MidLink(s), MidLink(Reseat(s, i)), Offset(s.Route(), s.PlaceOf(i)))
  {
    hide Clear, Ring.Cycles, Ring.NoLinkInFragment, IsHomeLink;
  }

  /** It is not behind all that is pending. */
  lemma MidWithin(s: Ring)
    requires s.Inv()
    ensures MidLink(s).Some? ==> 0 <= MidLink(s).value.0 <= |s.Order()|
  {
  }

  // ---------------------------------------------------------------- the link at the end

  /** The terminal link is chained exactly if the pending TRB in front of it is. */
  predicate LinkFits(s: Ring) {
    |s.mem| >= 2 && s.PendingAt(s.Last() - 1) ==>
      s.mem[s.Last()].body.control.chain == s.mem[s.Last() - 1].body.control.chain
  }

  /** Taking a slot keeps it so; and the last slot itself is not pending then. */
  lemma FitsTakePlain(s: Ring)
    requires s.Inv() && !s.hole && !Refuses(s) && s.enq != s.Last() - 1 && !s.Straddles()
    ensures LinkFits(s) ==> LinkFits(TakePlain(s))
  {
    hide Clear, Ring.Cycles, Ring.NoLinkInFragment, IsHomeLink;
  }

  lemma FitsTakeLast(s: Ring, chain: bool)
    requires s.Inv() && !s.hole && !Refuses(s) && s.enq == s.Last() - 1
    ensures LinkFits(TakeLast(s, chain))
  {
    hide Ring.Cycles, Ring.NoLinkInFragment, IsHomeLink;
  }

  lemma FitsRelocated(s: Ring, s': Ring, chain: bool)
    requires s.Inv() && s.Straddles() && !Refuses(s) && Relocated(s, s', chain)
    ensures LinkFits(s')
  {
    hide Ring.Cycles, Ring.NoLinkInFragment, IsHomeLink;
  }

  lemma FitsFill(s: Ring, body: Body)
    requires s.Inv() && s.first >= 0
    ensures LinkFits(s) ==> LinkFits(Fill(s, body))
  {
    hide Ring.Cycles, Ring.NoLinkInFragment, IsHomeLink;
  }

  /** Publishing does if the link fits to the last TRB of the fragment, when that one is in front of it. */
  lemma FitsPublish(s: Ring, fourth: Control)
    requires s.Inv() && s.first >= 0
    requires s.End() == s.Last() ==>
      s.mem[s.Last()].body.control.chain
      == if s.first == s.Last() - 1 then fourth.chain else s.mem[s.Last() - 1].body.control.chain
    ensures LinkFits(s) ==> LinkFits(Publish(s, fourth))
  {
    hide Ring.Cycles, Ring.NoLinkInFragment, IsHomeLink;
  }

  lemma FitsUnchained(s: Ring)
    requires s.Inv() && s.Straddles()
    ensures LinkFits(UnchainLink(s))
  {
    hide Ring.Cycles, Ring.NoLinkInFragment, IsHomeLink;
  }

  lemma FitsRolledBack(s: Ring)
    requires s.Inv() && s.first >= 0
    ensures LinkFits(s) ==> LinkFits(RollBack(s))
  {
    hide Ring.Cycles, Ring.NoLinkInFragment, IsHomeLink;
  }

  /** A link that fits still does when TRBs in front are gone. */
  lemma FitsReseated(s: Ring, i: int)
    requires s.Inv() && s.first < 0 && 0 <= i < s.Last() && Names(s, i)
    ensures LinkFits(s) ==> LinkFits(Reseat(s, i))
  {
    hide Clear, Ring.Cycles, Ring.NoLinkInFragment, IsHomeLink;
  }

  lemma LinkBehind(s: Ring, k: int)
    requires s.Inv() && LinkFits(s) && 0 <= k < |s.Order()| && s.Order()[k] == s.Last() - 1
    ensures k < |s.Pending()| && s.mem[s.Last()].body.control.chain == s.Pending()[k].control.chain
  {
    SlotsHold(s.mem, s.phys, s.Route());
    OrderHas(s, s.Last() - 1);
  }

  lemma FitsNone(s: Ring)
    requires s.Inv() && s.Pending() == []
    ensures LinkFits(s)
  {
    OrderOnce(s);
    OrderHas(s, s.Last() - 1);
  }

  // ---------------------------------------------------------------- initial state

  /** A ring whose slots are all clear but for the link at its end. */
  predicate Fresh(s: Ring) {
    && |s.mem| >= 2
    && s.enq == 0 && s.deq == 0 && s.cs && s.first == -1 && !s.hole
    && (forall i :: 0 <= i < s.Last() ==> s.mem[i] == TRB(CLEARED_BODY, false))
    && IsHomeLink(s.mem[s.Last()], s.phys) && !s.mem[s.Last()].cycle
  }

  lemma FreshIsEmpty(s: Ring)
    requires Fresh(s)
    ensures s.Inv() && s.Pending() == []
    ensures Follows(s.mem, s.phys, s.Route(), Controller(Place(0, true), []), [])
  {
  }

  // ---------------------------------------------------------------- wiping a ring under a controller that is not moved

  /** Only these two places, the first slot and the link that leads to it, are on a new ring's route. */
  lemma FreshRoute(f: Ring, p: Place)
    requires Fresh(f)
    ensures f.Route().On(p) <==> p == Place(0, true) || p == Place(f.Last(), false)
  {
  }

  /**
   * A controller that has drained a ring and is not moved when the ring is wiped stands on the new
   * route if and only if the ring was at its start, in its first cycle state.
   */
  lemma WipedUnder(s: Ring, f: Ring, hw: Controller, history: seq<Body>)
    requires s.Inv() && s.first < 0 && s.deq == s.enq && s.Route().On(hw.place)
    requires Fresh(f) && |f.mem| == |s.mem| && f.phys == s.phys
    ensures f.Route().On(hw.place) <==> s.enq == 0 && s.cs
    ensures Follows(s.mem, s.phys, s.Route(), hw, history) ==>
      (Follows(f.mem, f.phys, f.Route(), hw, history) <==> s.enq == 0 && s.cs)
  {
    FreshRoute(f, hw.place);
    assert hw.taken + [] == hw.taken;
  }

  /** If TRBs are given up, the controller may be anywhere on the old route, which then must not have been longer. */
  lemma WipedUnderAny(s: Ring, f: Ring)
    requires s.Inv() && s.first < 0 && Fresh(f) && |f.mem| == |s.mem|
    ensures (forall p :: s.Route().On(p) ==> f.Route().On(p)) <==> s.deq == 0 && s.enq == 0 && s.cs
  {
    forall p ensures f.Route().On(p) <==> p == Place(0, true) || p == Place(f.Last(), false) { FreshRoute(f, p); }
    assert s.Route().On(s.Start()) && s.Route().On(s.Stop());
  }

  /**
   * Off the new route the controller either executes slots that were never written, or waits at its
   * slot and does not see what is published in front of it.
   */
  lemma UnmovedGoesWrong(f: Ring, hw: Controller, mem: seq<TRB>)
    requires Fresh(f) && 0 <= hw.place.index < |f.mem| && !f.Route().On(hw.place)
    requires |mem| == |f.mem| && mem[hw.place.index] == f.mem[hw.place.index]
    ensures if hw.place.cs then Step(mem, f.phys, hw) == hw
            else Step(mem, f.phys, hw).taken == hw.taken + [CLEARED_BODY]
  {
    FreshRoute(f, hw.place);
  }

  /**
   * An input: a ring on which a single TRB has been published, executed and retired. Wiped while the
   * controller waits at index 1 and is not moved, it is a new ring again, but the controller is off its route.
   */
  lemma UnmovedInput(f: Ring)
    requires Fresh(f) && |f.mem| >= 3
    ensures var s := f.(mem := f.mem[0 := TRB(CLEARED_BODY, true)], enq := 1, deq := 1);
            s.Inv() && s.Route().On(Place(1, true)) && s.Pending() == [] && !f.Route().On(Place(1, true))
  {
  }
}
