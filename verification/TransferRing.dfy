/** The producer of a transfer ring, and the controller that consumes it between any two stores. */
module TransferRings {
  import opened Basics
  import opened Trb
  import opened Hardware
  import opened RingState
  import opened RingSteps
  import opened RingWalk
  import opened Admission

  datatype EndpointState = Disabled | Running | Halted | Stopped | Error

  const ERROR_CONTEXT_STATE := -1019

  /** A command's result that says that it was carried out. */
  predicate Succeeds(result: int) {
    result != -1 && result > -1000
  }

  class TransferRing {
    const slots: array<TRB>
    const phys: nat
    var enq: int
    var deq: int
    var cycleState: bool
    /** The caller's pFirstTrbInFragment, as an index; -1 is its null pointer. */
    var first: int

    ghost var hole: bool
    ghost var turn: int
    ghost var route: Route
    ghost var hw: Controller
    /** Every TRB published so far, in order. */
    ghost var history: seq<Body>

    ghost function State(): Ring
      reads this, slots
    {
      Ring(slots[..], phys, enq, deq, cycleState, first, hole, turn)
    }

    ghost predicate Valid()
      reads this, slots
    {
      State().Inv() && route == State().Route() && Follows(slots[..], phys, route, hw, history)
    }

    /** The published TRBs that are not retired yet. */
    ghost function Queue(): seq<Body>
      reads this, slots
      requires Valid()
    {
      State().Pending()
    }

    /** The slots that hold pending TRBs, in order. */
    ghost function Order(): seq<int>
      reads this, slots
    {
      State().Order()
    }

    /** Each pending TRB is in a slot of its own. */
    lemma OrderOfQueue()
      requires Valid()
      ensures NoDuplicates(Order()) && |Order()| == |Queue()|
    {
      OrderOnce(State());
    }

    /** k more slots can be taken, however the fragments fall. */
    ghost predicate HasRoomFor(k: nat)
      reads this, slots
    {
      HasRoom(State(), k)
    }

    /** The link in the middle of the ring that the pending TRBs go through, if they do. */
    ghost function Mid(): Option<(int, bool)>
      reads this, slots
    {
      MidLink(State())
    }

    /** The terminal link is chained exactly if the pending TRB in front of it is. */
    ghost predicate Fits()
      reads this, slots
    {
      LinkFits(State())
    }

    /** Behind the slot handed out last, the terminal link is chained or not. */
    ghost predicate AtLink(chain: bool)
      reads this, slots
    {
      slots.Length >= 2 && LastSlot() == slots.Length - 2 ==> slots[slots.Length - 1].body.control.chain == chain
    }

    /** How many slots that can be. */
    ghost function Room(): nat
      reads this, slots
    {
      MostRoom(State())
    }

    lemma RoomIs()
      ensures forall k: nat :: HasRoomFor(k) <==> k <= Room()
    {
      hide HasRoom, MostRoom;
      RoomIsMost(State());
    }

    /** The slot handed out last, while a fragment is open. */
    ghost function LastSlot(): int
      reads this, slots
    {
      State().End() - 1
    }

    /** The TRBs of the open fragment so far. */
    ghost function Open(): seq<Body>
      reads this, slots
      requires Valid()
    {
      State().Fragment()
    }

    lemma ValidMeans()
      requires Valid()
      ensures State().Inv() && State().Indices() && route == State().Route()
        && Follows(slots[..], phys, route, hw, history)
    {
    }

    lemma ValidIs()
      ensures Valid() <==>
        State().Inv() && route == State().Route() && Follows(slots[..], phys, route, hw, history)
    {
    }

    lemma MakesValid()
      requires State().Inv() && route == State().Route() && Follows(slots[..], phys, route, hw, history)
      ensures Valid()
    {
    }

    /** One word-sized store to ring memory, after which the controller runs for as long as it likes. */
    method Store(i: int, v: TRB, ghost r: Route, ghost more: seq<Body>)
      requires 0 <= i < slots.Length
      requires Follows(slots[..], phys, route, hw, history)
      requires Grows(slots[..], route, slots[..][i := v], r, more, phys)
      modifies slots, this`route, this`hw, this`history
      ensures slots[..] == old(slots[..])[i := v]
      ensures route == r && history == old(history) + more
      ensures Follows(slots[..], phys, route, hw, history) && old(hw.taken) <= hw.taken
    {
      slots[i] := v;
      assert slots[..] == old(slots[..])[i := v];
      GrowsFollows(old(slots[..]), route, slots[..], r, more, phys, hw, history);
      ghost var steps: nat := *;
      route, history := r, history + more;
      AdvanceFollows(slots[..], phys, route, hw, history, steps);
      hw := Advance(slots[..], phys, hw, steps);
    }

    /** A store that the controller cannot notice. */
    method StoreHidden(i: int, v: TRB)
      requires Follows(slots[..], phys, route, hw, history)
      requires route.Hides(i, slots.Length) && (i == route.stop.index ==> v.cycle == slots[i].cycle)
      modifies slots, this`hw
      ensures slots[..] == old(slots[..])[i := v]
      ensures Follows(slots[..], phys, route, hw, history) && old(hw.taken) <= hw.taken
    {
      Invisible(slots[..], route, slots[..][i := v], phys);
      slots[i] := v;
      assert slots[..] == old(slots[..])[i := v];
      GrowsFollows(old(slots[..]), route, slots[..], route, [], phys, hw, history);
      assert history + [] == history;
      ghost var steps: nat := *;
      AdvanceFollows(slots[..], phys, route, hw, history, steps);
      hw := Advance(slots[..], phys, hw, steps);
    }

    /** The controller goes on by itself. */
    method ControllerRuns()
      requires Valid()
      modifies this`hw
      ensures Valid() && State() == old(State()) && old(hw.taken) <= hw.taken
    {
      hide Ring.Inv, Ring.Route;
      ghost var steps: nat := *;
      AdvanceFollows(slots[..], phys, route, hw, history, steps);
      hw := Advance(slots[..], phys, hw, steps);
    }

    /** ClearTRB(trb, false): every word but the cycle bit. */
    method ClearTRB(i: int)
      requires Follows(slots[..], phys, route, hw, history) && route.Hides(i, slots.Length)
      modifies slots, this`hw
      ensures slots[..] == old(slots[..])[i := Clear1(old(slots[i]))]
      ensures Follows(slots[..], phys, route, hw, history) && old(hw.taken) <= hw.taken
    {
      hide Follows;
      StoreHidden(i, slots[i].(body := slots[i].body.(a := 0)));
      StoreHidden(i, slots[i].(body := slots[i].body.(b := 0)));
      StoreHidden(i, slots[i].(body := slots[i].body.(bytes := 0, tdSize := 0)));
      StoreHidden(i, slots[i].(body := slots[i].body.(control := CLEARED_CONTROL)));
    }

    /**
     * Hands out the slot for one more TRB of the open fragment, or -1. The slots of a fragment are
     * contiguous: one that would continue behind the terminal link is moved to the start of the ring.
     */
    method GetNextTRB(lastInTransaction: bool, firstFragmentInTransaction: bool) returns (slot: int)
      requires Valid() && !hole
      modifies slots, this`enq, this`cycleState, this`first, this`hole, this`turn, this`route, this`hw, this`history
      ensures Valid() && old(hw.taken) <= hw.taken && history == old(history)
      ensures slot < 0 <==> Refuses(old(State()))
      ensures slot < 0 ==> slot == -1 && State() == old(State())
      ensures slot >= 0 ==> Took(old(State()), State(), slot) && Keeps(old(State()), State())
      ensures slot >= 0 ==> MidAfter(old(State()), State(), !firstFragmentInTransaction)
      ensures old(LinkFits(State())) ==> LinkFits(State())
      ensures slot >= 0 && old(enq) == slots.Length - 2 ==>
        slots[slots.Length - 1].body.control.chain == !lastInTransaction
      ensures slot >= 0 && old(State()).Straddles() ==>
        slots[old(first)] == MidRingLink(old(slots[slots.Length - 1]), !firstFragmentInTransaction)
    {
      var link := slots.Length - 1;
      hide Follows, Clear, Ring.Cycles, Ring.NoLinkInFragment, Ring.Route, Took, Keeps, TakePlain, TakeLast, Relocated,
        MidLink, LinkFits;
      assert State().Indices();
      hide Valid, Ring.Inv;
      if enq >= link {
        assert false;
      }
      if enq == link - 1 {
        if deq == 0 {
          return -1;
        }
        slot := TakeAtLink(if lastInTransaction then false else true);
      } else if enq == 0 && first >= 0 {
        if deq < link - first + 2 {
          return -1;
        }
        slot := Relocate(if firstFragmentInTransaction then false else true);
      } else {
        if enq + 1 == deq {
          return -1;
        }
        slot := TakeNext();
      }
    }

    method TakeNext() returns (slot: int)
      requires Valid() && !hole && !Refuses(State()) && enq != slots.Length - 2 && !State().Straddles()
      modifies slots, this`enq, this`first, this`hole, this`hw
      ensures Valid() && old(hw.taken) <= hw.taken
      ensures slot == old(enq) && State() == TakePlain(old(State()))
      ensures Took(old(State()), State(), slot) && Keeps(old(State()), State())
      ensures MidAfter(old(State()), State(), true) && (old(LinkFits(State())) ==> LinkFits(State()))
    {
      hide Valid, Follows, Ring.Inv, Ring.Route, Took, Keeps, MidAfter, LinkFits;
      ghost var s := State();
      ValidMeans();
      TakePlainKeeps(s);
      MidTakePlain(s, true);
      FitsTakePlain(s);
      TakePlainTook(s);
      HidesNext(s);
      slot := enq;
      ClearTRB(slot);
      enq := enq + 1;
      hole := first >= 0;
      if first < 0 {
        first := slot;
      }
      assert State() == TakePlain(s);
      MakesValid();
    }

    method TakeAtLink(chain: bool) returns (slot: int)
      requires Valid() && !hole && !Refuses(State()) && enq == slots.Length - 2
      modifies slots, this`enq, this`cycleState, this`first, this`hole, this`turn, this`hw
      ensures Valid() && old(hw.taken) <= hw.taken
      ensures slot == old(enq) && State() == TakeLast(old(State()), chain)
        && slots[slots.Length - 1].body.control.chain == chain
      ensures Took(old(State()), State(), slot) && Keeps(old(State()), State())
      ensures MidAfter(old(State()), State(), true) && LinkFits(State())
    {
      hide Valid, Follows, Ring.Inv, Ring.Route, Took, Keeps, MidAfter, LinkFits;
      ghost var s := State();
      ValidMeans();
      TakeLastKeeps(s, chain);
      MidTakeLast(s, chain, true);
      FitsTakeLast(s, chain);
      TakeLastTook(s, chain);
      HidesNext(s);
      HidesLink(s);
      var link := slots.Length - 1;
      var fourth := slots[link].body.control.(chain := chain);
      StoreHidden(link, TRB(slots[link].body.(control := fourth), cycleState));
      cycleState := !cycleState;
      slot := enq;
      enq := 0;
      ClearTRB(slot);
      hole := first >= 0;
      turn := link;
      if first < 0 {
        first := slot;
      }
      assert State() == TakeLast(s, chain);
      MakesValid();
    }

    /**
     * Moves the open fragment to the start of the ring and turns its old first slot, at which the
     * controller stops, into a link to it.
     */
    method Relocate(chain: bool) returns (slot: int)
      requires Valid() && !hole && !Refuses(State()) && State().Straddles()
      modifies slots, this`enq, this`first, this`hole, this`turn, this`route, this`hw, this`history
      ensures Valid() && old(hw.taken) <= hw.taken && history == old(history)
      ensures Relocated(old(State()), State(), chain)
      ensures slot == slots.Length - 1 - old(first)
      ensures slots[old(first)] == MidRingLink(old(slots[slots.Length - 1]), chain)
      ensures Took(old(State()), State(), slot) && Keeps(old(State()), State())
      ensures MidAfter(old(State()), State(), chain) && LinkFits(State())
    {
      hide Valid, Follows, Ring.Inv, Ring.Route, Took, Keeps, Copied, Relocated, IsHomeLink, MidRingLink, MidAfter,
        LinkFits;
      ghost var s := State();
      ValidMeans();
      RelocationReady(s);
      var old1st := first;
      slot := CopyToStart(old1st);
      ghost var copied := slots[..];
      CopiedAt(s.mem, copied, old1st);
      LinkBack(old1st, chain);
      enq := slot + 1;
      first := 0;
      ClearTRB(slot);
      hole := true;
      turn := old1st;
      IsRelocated(s, copied, chain);
      RelocatedKeeps(s, State(), chain);
      RelocatedTook(s, State(), chain);
      MidRelocated(s, State(), chain);
      FitsRelocated(s, State(), chain);
      MakesValid();
    }

    /** Copies the TRBs from `index` up to the terminal link to the start of the ring, with their cycle bits flipped. */
    method CopyToStart(fragment: int) returns (reposition: int)
      requires Follows(slots[..], phys, route, hw, history)
      requires !route.Turns()
        && slots.Length - fragment < route.start.index <= fragment == route.stop.index < slots.Length - 1
      modifies slots, this`hw
      ensures Follows(slots[..], phys, route, hw, history) && old(hw.taken) <= hw.taken
      ensures reposition == slots.Length - 1 - fragment && Copied(old(slots[..]), slots[..], fragment)
    {
      hide Follows, Flip;
      var link, index := slots.Length - 1, fragment;
      reposition := 0;
      while index < link
        invariant fragment <= index <= link && reposition == index - fragment
        invariant Follows(slots[..], phys, route, hw, history) && old(hw.taken) <= hw.taken
        invariant forall k :: 0 <= k < reposition ==> slots[k] == Flip(old(slots[fragment + k]))
        invariant forall k :: reposition <= k < slots.Length ==> slots[k] == old(slots[k])
      {
        StoreHidden(reposition, slots[index]);
        StoreHidden(reposition, Flip(slots[reposition]));
        index, reposition := index + 1, reposition + 1;
      }
    }

    /** Publishes a link home at the slot where the controller stops. */
    method LinkBack(i: int, chain: bool)
      requires Follows(slots[..], phys, route, hw, history)
      requires !route.Turns() && 0 < route.start.index <= i == route.stop.index < slots.Length - 1
      requires IsHomeLink(slots[slots.Length - 1], phys) && slots[slots.Length - 1].cycle == route.stop.cs
      requires slots[0].cycle == route.stop.cs
      modifies slots, this`route, this`hw, this`history
      ensures slots[..] == old(slots[..])[i := MidRingLink(old(slots[slots.Length - 1]), chain)]
      ensures Follows(slots[..], phys, route, hw, history) && old(hw.taken) <= hw.taken && history == old(history)
      ensures route == Route(old(route.start), i, Place(0, !old(route.stop.cs)))
    {
      hide Clear, Contents, Grows;
      var link := slots.Length - 1;
      StoreHidden(i, slots[i].(body := slots[i].body.(a := slots[link].body.a)));
      StoreHidden(i, slots[i].(body := slots[i].body.(b := slots[link].body.b)));
      StoreHidden(i,
                  slots[i].(body :=
                    slots[i].body.(bytes := slots[link].body.bytes, tdSize := slots[link].body.tdSize)));
      var fourth := slots[link].body.control.(chain := chain);
      var v := TRB(slots[i].body.(control := fourth), slots[link].cycle);
      TurnsHome(slots[..], route, v, phys);
      Store(i, v, Route(route.start, i, Place(0, !route.stop.cs)), []);
      assert old(history) + [] == old(history);
    }

    /**
     * Writes the slot handed out last. Its control word, which carries the cycle bit, comes last,
     * and not at all in the first TRB of a fragment.
     */
    method FillTRB(slot: int, body: Body)
      requires Valid() && first >= 0 && slot == State().End() - 1 && hole == (slot != first)
        && body.control.kind != Link
      requires slot == first ==> body.control == slots[slot].body.control
      modifies slots, this`hole, this`hw
      ensures Valid() && old(hw.taken) <= hw.taken
      ensures State() == Fill(old(State()), body) && Keeps(old(State()), State())
    {
      hide Valid, Follows, Ring.Inv, Ring.Route, Keeps;
      ghost var s := State();
      ValidMeans();
      FillKeeps(s, body);
      HidesSlot(s);
      WriteWords(slot, body);
      if slot != first {
        StoreHidden(slot, TRB(slots[slot].body.(control := body.control), !slots[slot].cycle));
      }
      hole := false;
      assert State() == Fill(s, body);
      MakesValid();
    }

    /** Every word of a slot but the fourth. */
    method WriteWords(slot: int, body: Body)
      requires Follows(slots[..], phys, route, hw, history) && route.Hides(slot, slots.Length)
      modifies slots, this`hw
      ensures slots[..] ==
        old(slots[..])[slot := TRB(body.(control := old(slots[slot].body.control)), old(slots[slot].cycle))]
      ensures Follows(slots[..], phys, route, hw, history) && old(hw.taken) <= hw.taken
    {
      hide Follows;
      StoreHidden(slot, slots[slot].(body := slots[slot].body.(a := body.a)));
      StoreHidden(slot, slots[slot].(body := slots[slot].body.(b := body.b)));
      StoreHidden(slot, slots[slot].(body := slots[slot].body.(bytes := body.bytes, tdSize := body.tdSize)));
    }

    /** Publishes the open fragment by toggling the cycle bit of its first TRB. */
    method CloseFragment(newFourth: Control)
      requires Valid() && !hole && newFourth.kind != Link
      modifies slots, this`first, this`route, this`hw, this`history
      ensures Valid() && first == -1 && old(hw.taken) <= hw.taken
      ensures old(first) < 0 ==> State() == old(State()) && history == old(history)
      ensures old(first) >= 0 ==>
        && State() == Publish(old(State()), newFourth)
        && history == old(history) + Published(old(State()), newFourth)
        && State().Pending() == old(State().Pending()) + Published(old(State()), newFourth)
    {
      hide Valid, Follows, Ring.Inv, Ring.Route, Ring.Pending, Grows, Published;
      ghost var s := State();
      ValidMeans();
      if first < 0 {
        return;
      }
      PublishPending(s, newFourth);
      PublishGrows(s, newFourth);
      var fourth := TRB(slots[first].body.(control := newFourth), !slots[first].cycle);
      Store(first, fourth, Publish(s, newFourth).Route(), Published(s, newFourth));
      first := -1;
      assert State() == Publish(s, newFourth);
      MakesValid();
    }

    /** Gives up the open fragment. */
    method PutBackTRB(index: int)
      requires Valid() && index == first
      modifies slots, this`enq, this`cycleState, this`first, this`hole, this`hw
      ensures Valid() && first == -1 && old(hw.taken) <= hw.taken
      ensures State() == if old(first) < 0 then old(State()) else RollBack(old(State()))
      ensures Keeps(old(State()), State())
    {
      hide Valid, Follows, Ring.Inv, Ring.Route, Ring.RollsBackTo, Rewind, Ring.Pending;
      ghost var s := State();
      ValidMeans();
      if index < 0 || index >= slots.Length {
        return;
      }
      RollBackKeeps(s);
      RollBackRange(s);
      WalkBack(index, s);
      first := -1;
      hole := false;
      MakesValid();
    }

    /** Walks the enqueue index back, taking every slot but the first one met away from the controller's lap. */
    method WalkBack(index: int, ghost s: Ring)
      requires State() == s && 0 <= index == s.Stop().index && route == s.Route() && s.RollsBackTo(index)
      requires Follows(slots[..], phys, route, hw, history)
      modifies slots, this`enq, this`cycleState, this`hw
      ensures State() == s.(enq := index, cs := s.Stop().cs, mem := Rewind(s.mem, index, s.Top(), !s.Stop().cs))
      ensures Follows(slots[..], phys, route, hw, history) && old(hw.taken) <= hw.taken
    {
      hide Follows, Ring.Route, Ring.Stop, Route.Hides, Rewind;
      var isFirst := true;
      while enq != index
        invariant if isFirst then State() == s
                  else index <= enq < s.Top() &&
                       State() == s.(enq := enq, cs := s.Stop().cs, mem := Rewind(s.mem, enq, s.Top(), !s.Stop().cs))
        invariant Follows(slots[..], phys, route, hw, history) && old(hw.taken) <= hw.taken
        decreases isFirst, enq
      {
        if isFirst {
          isFirst := false;
        } else {
          RewindStep(s.mem, enq, s.Top(), !s.Stop().cs);
          StoreHidden(enq, slots[enq].(cycle := !cycleState));
        }
        if enq == deq {
          break;
        }
        RewindNone(s.mem, s.Top() - 1, s.Top(), !s.Stop().cs);
        if enq != 0 {
          enq := enq - 1;
          continue;
        }
        enq := slots.Length - 1;
        cycleState := !cycleState;
      }
    }

    /** A ring in zeroed memory: AllocRing and InitPreallocedRing. */
    constructor (numTRBs: nat, physAddr: nat)
      requires numTRBs >= 2
      requires physAddr % TRB_SIZE == 0 && physAddr < 0x1_0000_0000_0000_0000
      ensures Valid() && slots.Length == numTRBs && phys == physAddr && fresh(slots)
      ensures Fresh(State()) && State().Pending() == [] && history == [] && first == -1
      ensures hw == Controller(Place(0, true), [])
    {
      slots := new TRB[numTRBs](_ => TRB(CLEARED_BODY, false));
      phys := physAddr;
      enq, deq, cycleState, first := 0, 0, true, -1;
      hole, turn, history := false, 0, [];
      hw := Controller(Place(0, true), []);
      new;
      slots[numTRBs - 1] := HomeLink(physAddr);
      FreshIsEmpty(State());
      route := State().Route();
    }

    /** Whether a transfer of that many bytes can be laid out now; exact for the worst page offset and fragments. */
    method CanTDFragmentFit(numBytes: nat) returns (fits: bool)
      requires Valid() && first < 0
      ensures fits <==> Survives(State(), ReservedTrbs(numBytes))
    {
      var numFit, spaceInStart;
      var maxNumPages := numBytes / PAGE_SIZE + 2;
      if numBytes % PAGE_SIZE > 1 {
        maxNumPages := maxNumPages + 1;
      }
      if enq < deq {
        numFit := deq - 1 - enq;
      } else {
        numFit := slots.Length - enq;
        spaceInStart := deq;
        if spaceInStart != 0 {
          if numFit != 0 {
            numFit := numFit - 1;
          }
          spaceInStart := spaceInStart - 1;
          if numFit < spaceInStart {
            numFit := spaceInStart;
          }
        } else {
          numFit := if numFit > 2 then numFit - 2 else 0;
        }
      }
      RoomSurvives(State(), maxNumPages);
      return maxNumPages <= numFit;
    }

    /**
     * A transfer event for TRB i: everything up to it is done. The ring stays valid if the controller has executed
     * that TRB; if it has halted in front of it, the controller must be moved before it goes on.
     */
    method Retire(i: int)
      requires State().Inv() && first < 0 && State().PendingAt(i)
      modifies this`deq, this`route
      ensures Retired(old(State()), State(), i) && State().Inv()
      ensures old(Valid()) ==>
        (Valid() <==> old(Executed(State(), hw, i))) && (hw.taken == history ==> old(Executed(State(), hw, i)))
    {
      hide Valid, Follows, Ring.Inv, Ring.Route, Retired, Executed;
      ghost var s, was := State(), Valid();
      if was { ValidMeans(); }
      RetireFollows(s, i, hw, history);
      var next := i + 1;
      if next >= slots.Length - 1 {
        next := 0;
      }
      deq := next;
      assert State() == Reseat(s, s.NextIndex(i));
      route := State().Route();
      RetiredInv(s, State(), i);
      ValidIs();
    }

    lemma RetiredInv(s: Ring, s': Ring, i: int)
      requires Retired(s, s', i)
      ensures s'.Inv()
    {
    }

    /** Whether a Set TR Dequeue Pointer command is sent at all. */
    predicate Accepts(state: EndpointState, isStreams: bool)
      reads this`deq, this`enq
    {
      state == Stopped || state == Error || (state == Running && isStreams && deq == enq)
    }

    /**
     * Moves the controller of a stopped endpoint, wherever it stands, to index i. `result` is what the
     * Set TR Dequeue Pointer command comes back with; `dcs` is the cycle state sent along with it.
     */
    method SetTRDQPtr(i: int, state: EndpointState, isStreams: bool, result: int) returns (ret: int, dcs: bool)
      requires State().Inv() && first < 0 && 0 <= i < slots.Length - 1 && Names(State(), i)
      modifies this`deq, this`route, this`hw, this`history
      ensures ret == if old(Accepts(state, isStreams)) then result else ERROR_CONTEXT_STATE
      ensures Valid() <==> old(Valid()) || (old(Accepts(state, isStreams)) && Succeeds(result))
      ensures if old(Accepts(state, isStreams)) && Succeeds(result)
              then Valid() && Reseated(old(State()), State(), i, dcs, old(hw), hw, history)
              else State() == old(State()) && route == old(route) && hw == old(hw) && history == old(history)
    {
      dcs := false;
      match state {
        case Stopped =>
        case Error =>
        case Running =>
          if !(isStreams && deq == enq) {
            return ERROR_CONTEXT_STATE, dcs;
          }
        case _ =>
          return ERROR_CONTEXT_STATE, dcs;
      }
      if i == enq {
        dcs := cycleState;
      } else {
        dcs := slots[i].cycle;
      }
      ret := result;
      if ret != -1 && ret > -1000 {
        MoveController(i, dcs);
      }
    }

    /** The controller carries out a Set TR Dequeue Pointer command, and the driver takes over its index. */
    method MoveController(i: int, dcs: bool)
      requires State().Inv() && first < 0 && 0 <= i < slots.Length - 1 && Names(State(), i)
      requires dcs == if i == enq then cycleState else slots[i].cycle
      modifies this`deq, this`route, this`hw, this`history
      ensures Valid() && Reseated(old(State()), State(), i, dcs, old(hw), hw, history)
    {
      hide Valid, Follows, Ring.Inv, Ring.Pending, Ring.Route, Names, Reseated;
      ghost var s := State();
      ReseatedBy(s, i, dcs, hw);
      deq := i;
      assert State() == Reseat(s, i);
      route := State().Route();
      hw := Controller(Place(i, dcs), hw.taken);
      history := hw.taken + State().Pending();
      MakesValid();
    }

    /**
     * Gives a ring back to its initial state if it is empty, and moves the controller to the dequeue
     * index. A ring whose controller the dequeue index has passed becomes valid again exactly when the command
     * that moves it succeeds. If the command fails, a ring that was wiped is usable if and only if it was
     * at its start and in its first cycle state already: only then does the controller, wherever it
     * waited, stand where the producer goes on.
     */
    method ReinitTransferRing(state: EndpointState, isStreams: bool, result: int) returns (ret: int)
      requires State().Inv() && first < 0
      modifies this, slots
      ensures ret == if old(Accepts(state, isStreams)) then result else ERROR_CONTEXT_STATE
      ensures old(deq) != old(enq) ==> State() == old(State())
      ensures old(deq) == old(enq) ==> Fresh(State()) && State().Inv() && State().Pending() == []
      ensures var moved := old(Accepts(state, isStreams)) && Succeeds(result);
              if moved then
                && Valid() && hw == Controller(Place(deq, State().PlaceOf(deq).cs), old(hw.taken))
                && history == hw.taken + Queue()
              else hw == old(hw) && history == old(history)
      ensures old(deq) != old(enq) ==>
        (Valid() <==> (old(Accepts(state, isStreams)) && Succeeds(result)) || old(Valid()))
      ensures old(deq) == old(enq) && (old(Valid()) || old(hw.taken) != old(history)) ==>
        (Valid() <==> (old(Accepts(state, isStreams)) && Succeeds(result))
                      || (old(Valid()) && old(enq) == 0 && old(cycleState)))
    {
      ghost var s := State();
      hide Follows, Clear, Ring.Inv, Ring.Route, Ring.Pending, Fresh, Names, Ring.PlaceOf;
      if deq == enq {
        WipeDrained();
      }
      ghost var t := State();
      AtDequeue(t);
      ReseatSame(t);
      var dcs;
      ret, dcs := SetTRDQPtr(deq, state, isStreams, result);
    }

    /**
     * ReturnAllTransfersAndReinitRing: all that is pending is given up, wherever the controller is, and the ring
     * wiped.
     */
    method ReturnAllTransfersAndReinitRing(state: EndpointState, isStreams: bool, result: int) returns (ret: int)
      requires State().Inv() && first < 0
      modifies this, slots
      ensures Fresh(State()) && State().Inv() && State().Pending() == []
      ensures var accepted := state == Stopped || state == Error || (state == Running && isStreams);
              && ret == (if accepted then result else ERROR_CONTEXT_STATE)
              && if accepted && Succeeds(result) then
                   Valid() && hw == Controller(Place(0, true), old(hw.taken)) && history == hw.taken
                 else hw == old(hw)
    {
      ghost var s := State();
      EnqueueIsNamed(s);
      ReseatKeeps(s, s.enq);
      deq := enq;
      assert State() == Reseat(s, s.enq);
      ret := ReinitTransferRing(state, isStreams, result);
    }

    /** The dequeue index names a place, and moving the dequeue index there changes nothing. */
    lemma AtDequeue(s: Ring)
      requires s.Inv() && s.first < 0
      ensures Names(s, s.deq) && 0 <= s.deq < s.Last()
    {
    }

    lemma ReseatSame(s: Ring)
      ensures Reseat(s, s.deq) == s
    {
    }

    lemma EnqueueIsNamed(s: Ring)
      requires s.Inv() && s.first < 0
      ensures Names(s, s.enq) && 0 <= s.enq < s.Last()
    {
    }

    /** Wiping an empty ring under a controller that has drained it. */
    method WipeDrained()
      requires State().Inv() && first < 0 && deq == enq
      modifies slots, this`enq, this`deq, this`cycleState, this`first, this`hole, this`route
      ensures Fresh(State()) && State().Inv() && State().Pending() == [] && enq == deq == 0 && first == -1
      ensures old(Valid()) ==> (Valid() <==> old(enq) == 0 && old(cycleState))
      ensures hw.taken != history ==> !Valid()
    {
      ghost var s := State();
      ghost var drained := Valid();
      hide Clear, Ring.Inv, Ring.Route, Ring.Pending, Fresh;
      Wipe();
      if drained {
        WipedUnder(s, State(), hw, history);
      }
      if Valid() {
        NothingLeft(State(), hw, history);
      }
    }

    lemma NothingLeft(s: Ring, hw: Controller, history: seq<Body>)
      requires s.Inv() && Follows(s.mem, s.phys, s.Route(), hw, history) && s.Pending() == []
      ensures hw.taken == history
    {
      SuffixFrom(s.mem, s.phys, s.Route(), hw.place);
    }

    /** Clears an empty ring under the controller's feet. */
    method Wipe()
      requires State().Inv() && first < 0 && deq == enq
      modifies slots, this`enq, this`deq, this`cycleState, this`first, this`hole, this`route
      ensures Fresh(State()) && State().Inv() && State().Pending() == [] && route == State().Route()
      ensures enq == deq == 0 && first == -1
    {
      hide Ring.Inv, Ring.Route, Ring.Pending, Address;
      ghost var s := State();
      assert slots.Length >= 2 && IsHomeLink(slots[slots.Length - 1], phys) by { LinkAtEnd(s); }
      forall i | 0 <= i < slots.Length - 1 {
        slots[i] := TRB(CLEARED_BODY, false);
      }
      var link := slots[slots.Length - 1].body;
      SameAddress(link, CLEARED_CONTROL.(kind := Link, bit1 := true));
      slots[slots.Length - 1] := TRB(link.(control := CLEARED_CONTROL.(kind := Link, bit1 := true)), false);
      cycleState := true;
      enq, deq := 0, 0;
      first, hole := -1, false;
      FreshIsEmpty(State());
      route := State().Route();
    }

    lemma LinkAtEnd(s: Ring)
      requires s.Inv()
      ensures |s.mem| >= 2 && IsHomeLink(s.mem[s.Last()], s.phys)
    {
    }

    lemma SameAddress(body: Body, control: Control)
      ensures Address(body.(control := control)) == Address(body)
    {
    }

    /**
     * Walks from TRB i to the end of its chain and adds up the byte counts of the NORMAL TRBs behind it.
     */
    method CountRingToED(i: int, shortfall: nat) returns (index: int, total: nat)
      requires Valid() && first < 0 && 0 <= i < slots.Length - 1 && Names(State(), i)
      ensures i == enq ==> index == i && total == shortfall
      ensures i != enq ==> exists k :: WalksTo(State(), i, k, index, shortfall, total)
    {
      hide Follows, Clear, Ring.Inv, Names, Trail;
      index, total := i, shortfall;
      if i == enq {
        return;
      }
      ghost var s, k := State(), 0;
      ghost var trail := Trail(s, i);
      TrailStart(s, i);
      hide TrailIndex;
      var kind := slots[index].body.control.kind;
      while kind != EventData && slots[index].body.control.chain
        invariant 0 <= k < |trail| && index == TrailIndex(s, i, k) && 0 <= index < slots.Length
          && slots[index] == trail[k]
        invariant kind == trail[k].body.control.kind
        invariant forall j :: 0 <= j < k ==> Continues(trail[j])
        invariant total == shortfall + NormalBytes(trail[1..], k)
        decreases |trail| - k
      {
        TrailStep(s, i, k);
        var next := index + 1;
        if kind == Link || next >= slots.Length - 1 {
          next := 0;
        }
        if next == enq {
          break;
        }
        index := next;
        k := k + 1;
        TrailStep(s, i, k);
        kind := slots[index].body.control.kind;
        if kind == Normal {
          total := total + slots[index].body.bytes;
        }
      }
      assert WalksTo(State(), i, k, index, shortfall, total);
    }

    // ---------------------------------------------------------------- the same calls as a queue's client sees them

    method TakeSlot(lastInTransaction: bool, firstFragmentInTransaction: bool) returns (slot: int)
      requires Valid() && !hole
      modifies slots, this`enq, this`cycleState, this`first, this`hole, this`turn, this`route, this`hw, this`history
      ensures Valid() && Queue() == old(Queue()) && history == old(history) && old(hw.taken) <= hw.taken
      ensures Order() == old(Order())
      ensures old(Room()) >= 1 ==> slot >= 0
      ensures slot < 0 ==> State() == old(State()) && Open() == old(Open())
      ensures slot >= 0 ==>
        && 0 <= slot < slots.Length - 1 && slot == LastSlot() && slots[slot].body == CLEARED_BODY
        && first >= 0 && hole == (slot != first) && (slot == first <==> old(first) < 0)
        && Open() == old(Open()) + [CLEARED_BODY]
      ensures slot >= 0 ==> Room() + 1 >= old(Room())
      ensures Mid() == old(Mid()) || (slot >= 0 && Mid() == Some((|old(Order())|, !firstFragmentInTransaction)))
      ensures (old(Fits()) ==> Fits()) && (slot >= 0 ==> AtLink(!lastInTransaction))
    {
      hide Ring.Order, HasRoom, MostRoom, Refuses, Valid, Follows, Ring.Inv, Ring.Route, MidLink, LinkFits;
      ghost var s := State();
      ValidMeans();
      RoomNotRefused(s);
      slot := GetNextTRB(lastInTransaction, firstFragmentInTransaction);
      if slot >= 0 {
        TookView(s, State(), slot);
      }
    }

    lemma TookView(s: Ring, s': Ring, slot: int)
      requires Took(s, s', slot) && !Refuses(s)
      ensures 0 <= slot < s'.Last() && (slot == s'.first <==> s.first < 0)
      ensures MostRoom(s') + 1 >= MostRoom(s) && forall k: nat :: HasRoom(s, k + 1) ==> HasRoom(s', k)
      ensures s'.Order() == s.Order() && (slot == s.Last() - 1 ==> s.enq == s.Last() - 1)
    {
      TookOrder(s, s', slot);
      RoomLeft(s, s', 1);
    }

    lemma RoomNotRefused(s: Ring)
      requires s.Indices()
      ensures MostRoom(s) >= 1 ==> !Refuses(s)
    {
    }

    method FillSlot(slot: int, body: Body)
      requires Valid() && first >= 0 && slot == LastSlot() && hole == (slot != first) && body.control.kind != Link
      requires slot == first ==> body.control == slots[slot].body.control
      modifies slots, this`hole, this`hw
      ensures Valid() && !hole && Queue() == old(Queue()) && old(hw.taken) <= hw.taken
      ensures |old(Open())| > 0 && Open() == old(Open())[..|old(Open())| - 1] + [body]
      ensures LastSlot() == old(LastSlot()) && Order() == old(Order())
      ensures slots[slots.Length - 1] == old(slots[slots.Length - 1]) && (old(Fits()) ==> Fits())
      ensures Room() >= old(Room())
      ensures Mid() == old(Mid())
    {
      hide Valid, Follows, Ring.Inv, Ring.Pending, Slots, MidLink, LinkFits;
      ghost var s := State();
      ValidMeans();
      MidFill(s, body);
      FitsFill(s, body);
      FillFragment(s, body);
      FillKeeps(s, body);
      FillTRB(slot, body);
    }

    method Close(newFourth: Control)
      requires Valid() && !hole && first >= 0 && newFourth.kind != Link
      modifies slots, this`first, this`route, this`hw, this`history
      ensures Valid() && first == -1 && !hole && old(hw.taken) <= hw.taken && Open() == []
      ensures |old(Open())| > 0
      ensures var published := [old(Open())[0].(control := newFourth)] + old(Open())[1..];
              && Queue() == old(Queue()) + published && history == old(history) + published
              && 0 <= old(first) && old(first) + |published| == old(LastSlot()) + 1 < slots.Length
              && Bodies(slots[..], old(first), old(first) + |published|) == published
      ensures Order() == old(Order()) + Range(old(first), old(LastSlot()) + 1)
      ensures LastSlot() == old(LastSlot())
      ensures slots[slots.Length - 1] == old(slots[slots.Length - 1])
      ensures Room() >= old(Room())
      ensures Mid() == old(Mid())
      ensures var open := old(Open());
        old(Fits() && AtLink(if |open| == 1 then newFourth.chain else open[|open| - 1].control.chain)) ==> Fits()
    {
      hide Valid, Follows, Ring.Inv, Ring.Route, Ring.Pending, Ring.Order, MidLink, LinkFits;
      ghost var s := State();
      ValidMeans();
      MidPublish(s, newFourth);
      PublishFits(s, newFourth);
      PublishedOrder(s, newFourth);
      PublishedFragment(s, newFourth);
      PublishedInPlace(s, newFourth);
      CloseFragment(newFourth);
      RoomAfterPublish(s, newFourth);
    }

    static lemma PublishFits(s: Ring, fourth: Control)
      requires s.Inv() && s.first >= 0
      ensures var open := s.Fragment();
        && |open| > 0
        && (LinkFits(s)
            && (s.End() == s.Last() ==>
                  s.mem[s.Last()].body.control.chain
                  == if |open| == 1 then fourth.chain else open[|open| - 1].control.chain)
            ==> LinkFits(Publish(s, fourth)))
    {
      hide LinkFits, Clear, Ring.Cycles, Ring.NoLinkInFragment, IsHomeLink, Ring.Route;
      BodiesAt(s.mem, s.first, s.End(), s.End() - 1);
      if s.End() == s.Last() ==>
         s.mem[s.Last()].body.control.chain
         == if s.first == s.Last() - 1 then fourth.chain else s.mem[s.Last() - 1].body.control.chain {
        FitsPublish(s, fourth);
      }
    }

    lemma RoomAfterPublish(s: Ring, fourth: Control)
      requires s.Indices() && s.first >= 0
      ensures MostRoom(Publish(s, fourth)) >= MostRoom(s)
      ensures forall k: nat :: HasRoom(s, k) ==> HasRoom(Publish(s, fourth), k)
    {
    }

    method Abandon()
      requires Valid()
      modifies slots, this`enq, this`cycleState, this`first, this`hole, this`hw
      ensures Valid() && first == -1 && !hole && old(hw.taken) <= hw.taken
      ensures Queue() == old(Queue()) && Open() == [] && Order() == old(Order()) && Mid() == old(Mid())
      ensures old(Fits()) ==> Fits()
    {
      hide Valid, Follows, Ring.Inv, Ring.Pending, Clear, Contents, Ring.Route, Slots, MidLink, LinkFits;
      ValidMeans();
      if first >= 0 {
        FitsRolledBack(State());
        RollBackKeeps(State());
        MidRolledBack(State());
      }
      PutBackTRB(first);
    }

    /** Clears the chain bit of the terminal link behind an open fragment that ends there. */
    method EndChainAtLink()
      requires Valid() && first >= 0 && LastSlot() == slots.Length - 2
      modifies slots, this`hw
      ensures Valid() && Queue() == old(Queue()) && Open() == old(Open()) && old(hw.taken) <= hw.taken
      ensures LastSlot() == old(LastSlot()) && Order() == old(Order())
      ensures !slots[slots.Length - 1].body.control.chain && AtLink(false) && Fits()
      ensures Room() >= old(Room())
      ensures Mid() == old(Mid())
    {
      hide Valid, Follows, Ring.Inv, Ring.Route, Ring.Pending, Ring.Fragment, MidLink, LinkFits;
      ghost var s := State();
      ValidMeans();
      MidUnchained(s);
      FitsUnchained(s);
      UnchainLinkKeeps(s);
      HidesLink(s);
      var link := slots.Length - 1;
      StoreHidden(link, slots[link].(body := slots[link].body.(control := slots[link].body.control.(chain := false))));
      assert State() == UnchainLink(s);
      MakesValid();
    }
  }
}
