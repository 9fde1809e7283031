/** The state of a transfer ring's producer and the invariant that ties it to ring memory. */
module RingState {
  import opened Basics
  import opened Trb
  import opened Hardware

  /**
   * A snapshot of the producer. `first` is the first slot of the open fragment, or -1; `hole` says
   * that the slot handed out last has not had its control word written and is not the first one.
   * `turn` is the index of the link through which the pending TRBs go, when they do.
   */
  datatype Ring = Ring(mem: seq<TRB>, phys: nat, enq: int, deq: int, cs: bool, first: int, hole: bool, turn: int) {

    function Last(): int { |mem| - 1 }

    /** The open fragment has reached the terminal link and nothing of it is at the ring's start yet. */
    predicate Straddles() { first >= 0 && enq == 0 }

    /** One past the slot handed out last. */
    function End(): int { if enq == 0 then Last() else enq }

    /** One past the last slot whose cycle bit tells of the open fragment: the terminal link once it is crossed. */
    function Top(): int { if enq == 0 then |mem| else enq }

    /** What rolling back to slot f may touch, from the enqueue index down, is out of the controller's reach. */
    ghost predicate RollsBackTo(f: int) {
      && 0 <= f < Top() <= |mem| && f != enq && (enq == 0 ==> f < Last())
      && !(f < deq < Top()) && deq != enq
      && Stop().cs == (if enq == 0 then !cs else cs)
      && forall i :: f < i < Top() ==> Route().Hides(i, |mem|) && i != Route().stop.index
    }

    /** The first place where the controller must not yet find a TRB. */
    function Stop(): Place {
      if first < 0 then Place(enq, cs)
      else Place(first, if enq == 0 then !cs else cs)
    }

    /**
     * The earliest place where the controller may still be: the dequeue index or, when that is 0,
     * the terminal link, which leads to 0 without an event of its own.
     */
    function Start(): Place {
      if enq < deq then Place(deq, !cs)
      else if deq == 0 then Place(Last(), !cs)
      else Place(deq, cs)
    }

    function Route(): Route {
      Hardware.Route(Start(), if enq < deq then turn else Last(), Stop())
    }

    /** The place in the pending region, or at its end, that has index i. */
    function PlaceOf(i: int): Place {
      Place(i, if enq < deq <= i then !cs else cs)
    }

    /** The index behind TRB i; the terminal link is skipped. */
    function NextIndex(i: int): int { NextSlot(i, |mem|) }

    /** The cycle bit that slot i must hold. */
    function Cycle(i: int): bool {
      var lap := if i < enq then cs else !cs;
      if i == first || (hole && i == End() - 1) then !lap else lap
    }

    ghost predicate Indices() {
      && |mem| >= 2
      && 0 <= enq < Last() && 0 <= deq < Last() && -1 <= first < Last()
      && (first >= 0 && enq > 0 ==> first < enq && (deq <= enq ==> deq <= first))
      && (first >= 0 && enq == 0 ==> 0 < deq <= first && turn == Last())
      && (hole ==> first >= 0 && first != End() - 1)
    }

    ghost predicate Cycles() {
      forall i :: 0 <= i < |mem| ==> mem[i].cycle == Cycle(i)
    }

    ghost predicate NoLinkInFragment() {
      first >= 0 ==> forall i :: first <= i < End() ==> 0 <= i < |mem| && !mem[i].IsLink()
    }

    ghost predicate Inv() {
      && Indices()
      && IsHomeLink(mem[Last()], phys)
      && Cycles()
      && NoLinkInFragment()
      && Clear(mem, phys, Route())
    }

    /** Slot i holds a pending TRB. */
    predicate PendingAt(i: int) {
      var r := Route();
      if !r.Turns() then r.start.index <= i < r.stop.index
      else r.start.index <= i < r.turn || 0 <= i < r.stop.index
    }

    /** The published TRBs that the driver has not retired, oldest first. */
    function Pending(): seq<Body>
      requires Clear(mem, phys, Route())
    {
      Contents(mem, phys, Route())
    }

    /** Their slots, in the same order. */
    function Order(): seq<int> { Slots(Route()) }

    /** The TRBs of the open fragment, in order. */
    function Fragment(): seq<Body>
      requires |mem| > 0 && 0 <= End() <= |mem| && first < End()
    {
      if first < 0 then [] else Bodies(mem, first, End())
    }
  }
}
