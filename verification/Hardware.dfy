/**
 * The consumer of a transfer ring: how a host controller walks TRBs (xHCI 1.0 section 4.9.2),
 * and the routes through ring memory on which the producer's stores are proved invisible.
 */
module Hardware {
  import opened Basics
  import opened Trb

  /** Where the controller stands: its dequeue index and its consumer cycle state. */
  datatype Place = Place(index: int, cs: bool)

  /** The controller's position and the TRBs it has executed so far. */
  datatype Controller = Controller(place: Place, taken: seq<Body>)

  /** The index a link TRB leads to, or -1 when it leads off the ring. */
  function LinkTarget(mem: seq<TRB>, phys: nat, t: TRB): (r: int)
    ensures -1 <= r < |mem|
  {
    var d := Address(t.body) - phys;
    if d >= 0 && d % TRB_SIZE == 0 && d / TRB_SIZE < |mem| then d / TRB_SIZE else -1
  }

  /** One controller step: stop on a cycle mismatch, follow a link, or execute a TRB. */
  function Step(mem: seq<TRB>, phys: nat, hw: Controller): (r: Controller)
    requires 0 <= hw.place.index < |mem|
    ensures 0 <= r.place.index < |mem|
  {
    var t := mem[hw.place.index];
    if t.cycle != hw.place.cs then hw
    else if t.IsLink() then
      var target := LinkTarget(mem, phys, t);
      if target < 0 then hw
      else hw.(place := Place(target, if t.body.control.bit1 then !hw.place.cs else hw.place.cs))
    else if hw.place.index + 1 < |mem| then
      Controller(hw.place.(index := hw.place.index + 1), hw.taken + [t.body])
    else hw
  }

  function Advance(mem: seq<TRB>, phys: nat, hw: Controller, steps: nat): (r: Controller)
    requires 0 <= hw.place.index < |mem|
    ensures 0 <= r.place.index < |mem|
    decreases steps
  {
    if steps == 0 then hw else Advance(mem, phys, Step(mem, phys, hw), steps - 1)
  }

  // ---------------------------------------------------------------- routes

  /**
   * The way from a place to the place where the controller must stop. When the two cycle states
   * agree there is no link in between; otherwise the link at `turn` leads to index 0.
   */
  datatype Route = Route(start: Place, turn: int, stop: Place) {
    predicate Turns() { start.cs != stop.cs }

    function From(p: Place): Route { Route(p, turn, stop) }

    /** The places that a controller following this route can stand at. */
    predicate On(p: Place) {
      if !Turns() then p.cs == start.cs && start.index <= p.index <= stop.index
      else if p.cs == start.cs then start.index <= p.index <= turn
      else 0 <= p.index <= stop.index
    }

    /** The slots that a controller following this route reads. */
    predicate Reads(i: int) {
      if !Turns() then start.index <= i <= stop.index
      else start.index <= i <= turn || 0 <= i <= stop.index
    }

    /** Slot i of n is out of the controller's reach, or is the one at which it stops. */
    predicate Hides(i: int, n: int) {
      && 0 <= i < n && 0 <= stop.index < n
      && (i == stop.index || !Reads(i))
      && (Turns() ==> !(start.index <= stop.index <= turn))
    }
  }

  predicate Run(mem: seq<TRB>, lo: int, hi: int, cs: bool) {
    0 <= lo <= hi <= |mem| && forall i :: lo <= i < hi ==> mem[i].cycle == cs && !mem[i].IsLink()
  }

  /** Memory in which the controller, from r.start, takes exactly this route and stops at r.stop. */
  predicate Clear(mem: seq<TRB>, phys: nat, r: Route) {
    && 0 <= r.stop.index < |mem|
    && mem[r.stop.index].cycle != r.stop.cs
    && if !r.Turns() then Run(mem, r.start.index, r.stop.index, r.start.cs)
       else
         && r.turn < |mem|
         && Run(mem, r.start.index, r.turn, r.start.cs)
         && IsHomeLink(mem[r.turn], phys) && mem[r.turn].cycle == r.start.cs
         && Run(mem, 0, r.stop.index, r.stop.cs)
  }

  /** What lies on a clear route: the published TRBs from r.start on, in order. */
  function Contents(mem: seq<TRB>, phys: nat, r: Route): seq<Body>
    requires Clear(mem, phys, r)
  {
    if !r.Turns() then Bodies(mem, r.start.index, r.stop.index)
    else Bodies(mem, r.start.index, r.turn) + Bodies(mem, 0, r.stop.index)
  }

  /** How many TRBs a controller that started at r.start has executed when it stands at p. */
  function Offset(r: Route, p: Place): int {
    if p.cs == r.start.cs then p.index - r.start.index
    else r.turn - r.start.index + p.index
  }

  lemma TailOf<T>(whole: seq<T>, before: seq<T>, rest: seq<T>)
    requires whole == before + rest
    ensures rest == whole[|before|..]
  {
  }

  lemma SuffixStraight(mem: seq<TRB>, phys: nat, r: Route, p: Place)
    requires Clear(mem, phys, r) && r.On(p) && !r.Turns()
    ensures Clear(mem, phys, r.From(p)) && 0 <= Offset(r, p) <= |Contents(mem, phys, r)|
    ensures Contents(mem, phys, r.From(p)) == Contents(mem, phys, r)[Offset(r, p)..]
  {
    BodiesSplit(mem, r.start.index, p.index, r.stop.index);
    TailOf(Contents(mem, phys, r), Bodies(mem, r.start.index, p.index), Contents(mem, phys, r.From(p)));
  }

  lemma SuffixToTurn(mem: seq<TRB>, phys: nat, r: Route, p: Place)
    requires Clear(mem, phys, r) && r.On(p) && r.Turns() && p.cs == r.start.cs
    ensures Clear(mem, phys, r.From(p)) && 0 <= Offset(r, p) <= |Contents(mem, phys, r)|
    ensures Contents(mem, phys, r.From(p)) == Contents(mem, phys, r)[Offset(r, p)..]
  {
    BodiesSplit(mem, r.start.index, p.index, r.turn);
    var before, rest := Bodies(mem, r.start.index, p.index), Contents(mem, phys, r.From(p));
    assert Contents(mem, phys, r) == before + rest;
    TailOf(Contents(mem, phys, r), before, rest);
  }

  lemma SuffixBehindTurn(mem: seq<TRB>, phys: nat, r: Route, p: Place)
    requires Clear(mem, phys, r) && r.On(p) && r.Turns() && p.cs != r.start.cs
    ensures Clear(mem, phys, r.From(p)) && 0 <= Offset(r, p) <= |Contents(mem, phys, r)|
    ensures Contents(mem, phys, r.From(p)) == Contents(mem, phys, r)[Offset(r, p)..]
  {
    BodiesSplit(mem, 0, p.index, r.stop.index);
    var before, rest := Bodies(mem, r.start.index, r.turn) + Bodies(mem, 0, p.index), Contents(mem, phys, r.From(p));
    assert Contents(mem, phys, r) == before + rest;
    TailOf(Contents(mem, phys, r), before, rest);
  }

  lemma SuffixFrom(mem: seq<TRB>, phys: nat, r: Route, p: Place)
    requires Clear(mem, phys, r) && r.On(p)
    ensures Clear(mem, phys, r.From(p))
    ensures 0 <= Offset(r, p) <= |Contents(mem, phys, r)|
    ensures Contents(mem, phys, r.From(p)) == Contents(mem, phys, r)[Offset(r, p)..]
  {
    hide Clear, Contents, Offset;
    if !r.Turns() {
      SuffixStraight(mem, phys, r, p);
    } else if p.cs == r.start.cs {
      SuffixToTurn(mem, phys, r, p);
    } else {
      SuffixBehindTurn(mem, phys, r, p);
    }
  }

  /** The indices from lo up to hi. */
  function Range(lo: int, hi: int): (r: seq<int>)
    ensures |r| == if lo < hi then hi - lo else 0
    ensures forall k :: 0 <= k < |r| ==> r[k] == lo + k
  {
    if lo < hi then seq(hi - lo, k => lo + k) else []
  }

  lemma InRange(lo: int, hi: int, i: int)
    ensures i in Range(lo, hi) <==> lo <= i < hi
  {
    if lo <= i < hi { assert Range(lo, hi)[i - lo] == i; }
  }

  /** The slots of the TRBs on a route, in order. */
  function Slots(r: Route): seq<int> {
    if !r.Turns() then Range(r.start.index, r.stop.index)
    else Range(r.start.index, r.turn) + Range(0, r.stop.index)
  }

  /** These bodies are in these slots. */
  predicate Hold(mem: seq<TRB>, slots: seq<int>, bodies: seq<Body>) {
    && |slots| == |bodies|
    && forall k :: 0 <= k < |slots| ==> 0 <= slots[k] < |mem| && bodies[k] == mem[slots[k]].body
  }

  lemma RangeHolds(mem: seq<TRB>, lo: int, hi: int)
    requires 0 <= lo <= hi <= |mem|
    ensures Hold(mem, Range(lo, hi), Bodies(mem, lo, hi))
  {
    forall k | lo <= k < hi ensures Bodies(mem, lo, hi)[k - lo] == mem[k].body { BodiesAt(mem, lo, hi, k); }
  }

  lemma HoldBoth(mem: seq<TRB>, s: seq<int>, t: seq<int>, a: seq<Body>, b: seq<Body>)
    requires Hold(mem, s, a) && Hold(mem, t, b)
    ensures Hold(mem, s + t, a + b)
  {
  }

  /** What lies on a route is in its slots. */
  lemma SlotsHold(mem: seq<TRB>, phys: nat, r: Route)
    requires Clear(mem, phys, r)
    ensures Hold(mem, Slots(r), Contents(mem, phys, r))
  {
    hide Hold;
    if r.Turns() {
      RangeHolds(mem, r.start.index, r.turn);
      RangeHolds(mem, 0, r.stop.index);
      HoldBoth(mem, Range(r.start.index, r.turn), Range(0, r.stop.index),
               Bodies(mem, r.start.index, r.turn), Bodies(mem, 0, r.stop.index));
    } else {
      RangeHolds(mem, r.start.index, r.stop.index);
    }
  }

  /** From a place on the route on, they are a suffix. */
  lemma SlotsFrom(r: Route, p: Place)
    requires r.On(p) && (r.Turns() ==> r.start.index <= r.turn && 0 <= r.stop.index)
    ensures 0 <= Offset(r, p) <= |Slots(r)| && Slots(r.From(p)) == Slots(r)[Offset(r, p)..]
  {
  }

  // ---------------------------------------------------------------- the controller on a route

  /** The controller is on the route, and what it took plus what it still sees is `history`. */
  predicate Follows(mem: seq<TRB>, phys: nat, r: Route, hw: Controller, history: seq<Body>) {
    && Clear(mem, phys, r)
    && r.On(hw.place)
    && Clear(mem, phys, r.From(hw.place))
    && hw.taken + Contents(mem, phys, r.From(hw.place)) == history
  }

  /** Where a controller at the start of a clear route goes next. */
  function Next(r: Route): Place {
    if r.Turns() && r.start.index == r.turn then Place(0, r.stop.cs) else Place(r.start.index + 1, r.start.cs)
  }

  lemma NextAtTurn(mem: seq<TRB>, phys: nat, r: Route)
    requires Clear(mem, phys, r) && r.Turns() && r.start.index == r.turn
    ensures 0 <= r.start.index < |mem| && mem[r.start.index].cycle == r.start.cs && mem[r.start.index].IsLink()
    ensures r.On(Next(r)) && Clear(mem, phys, r.From(Next(r)))
    ensures Contents(mem, phys, r) == Contents(mem, phys, r.From(Next(r)))
    ensures Step(mem, phys, Controller(r.start, [])) == Controller(Next(r), [])
  {
  }

  lemma NextInRun(mem: seq<TRB>, phys: nat, r: Route)
    requires Clear(mem, phys, r) && r.start != r.stop && r.On(r.start) && !(r.Turns() && r.start.index == r.turn)
    ensures 0 <= r.start.index < |mem| && mem[r.start.index].cycle == r.start.cs && !mem[r.start.index].IsLink()
    ensures r.On(Next(r)) && Clear(mem, phys, r.From(Next(r)))
    ensures Step(mem, phys, Controller(r.start, [])) == Controller(Next(r), [mem[r.start.index].body])
  {
  }

  lemma OneInRun(mem: seq<TRB>, phys: nat, r: Route)
    requires Clear(mem, phys, r) && r.start != r.stop && r.On(r.start) && !(r.Turns() && r.start.index == r.turn)
    requires Clear(mem, phys, r.From(Next(r)))
    ensures 0 <= r.start.index < |mem|
    ensures Contents(mem, phys, r) == [mem[r.start.index].body] + Contents(mem, phys, r.From(Next(r)))
  {
    var s, e := r.start.index, if r.Turns() then r.turn else r.stop.index;
    BodiesSplit(mem, s, s + 1, e);
    assert Bodies(mem, s, s + 1) == [mem[s].body];
  }

  lemma NextOnRoute(mem: seq<TRB>, phys: nat, r: Route)
    requires Clear(mem, phys, r) && r.start != r.stop && r.On(r.start)
    ensures 0 <= r.start.index < |mem| && mem[r.start.index].cycle == r.start.cs
    ensures r.On(Next(r)) && Clear(mem, phys, r.From(Next(r)))
    ensures Contents(mem, phys, r) ==
            (if mem[r.start.index].IsLink() then [] else [mem[r.start.index].body]) +
            Contents(mem, phys, r.From(Next(r)))
    ensures Step(mem, phys, Controller(r.start, [])) ==
            Controller(Next(r), if mem[r.start.index].IsLink() then [] else [mem[r.start.index].body])
    ensures mem[r.start.index].IsLink() <==> (r.Turns() && r.start.index == r.turn)
  {
    hide Clear, Contents, Step, Next, Route.On;
    if r.Turns() && r.start.index == r.turn {
      NextAtTurn(mem, phys, r);
    } else {
      NextInRun(mem, phys, r);
      OneInRun(mem, phys, r);
    }
  }

  lemma StepAppends(mem: seq<TRB>, phys: nat, hw: Controller)
    requires 0 <= hw.place.index < |mem|
    ensures var one := Step(mem, phys, Controller(hw.place, []));
            Step(mem, phys, hw) == Controller(one.place, hw.taken + one.taken)
  {
    assert hw.taken + [] == hw.taken;
  }

  lemma StepAtStop(mem: seq<TRB>, phys: nat, r: Route, hw: Controller)
    requires Clear(mem, phys, r) && hw.place == r.stop
    ensures 0 <= hw.place.index < |mem| && Step(mem, phys, hw) == hw
  {
  }

  lemma StepFollows(mem: seq<TRB>, phys: nat, r: Route, hw: Controller, history: seq<Body>)
    requires Follows(mem, phys, r, hw, history)
    ensures Follows(mem, phys, r, Step(mem, phys, hw), history)
    ensures hw.taken <= Step(mem, phys, hw).taken
    ensures hw.place == r.stop ==> Step(mem, phys, hw) == hw
    ensures hw.place != r.stop ==> Step(mem, phys, hw).place == Next(r.From(hw.place))
  {
    hide Clear, Contents, Step, Next;
    if hw.place == r.stop {
      StepAtStop(mem, phys, r, hw);
    } else {
      var rest := r.From(hw.place);
      StaysOn(r, hw.place);
      NextOnRoute(mem, phys, rest);
      StepAppends(mem, phys, hw);
      var one := Step(mem, phys, Controller(hw.place, [])).taken;
      var after := Contents(mem, phys, rest.From(Next(rest)));
      assert hw.taken + (one + after) == (hw.taken + one) + after;
      assert rest.From(Next(rest)) == r.From(Next(rest));
    }
  }

  /** A route from a place that is on another one only visits places of that one. */
  lemma StaysOn(r: Route, p: Place)
    requires r.On(p)
    ensures r.From(p).On(p) && forall q :: r.From(p).On(q) ==> r.On(q)
  {
  }

  /** However far it runs, the controller executes the published TRBs in order and nothing else. */
  lemma {:induction false} AdvanceFollows(mem: seq<TRB>, phys: nat, r: Route, hw: Controller, history: seq<Body>,
                                          steps: nat)
    requires Follows(mem, phys, r, hw, history)
    ensures Follows(mem, phys, r, Advance(mem, phys, hw, steps), history)
    ensures hw.taken <= Advance(mem, phys, hw, steps).taken
    decreases steps
  {
    if steps > 0 {
      StepFollows(mem, phys, r, hw, history);
      AdvanceFollows(mem, phys, r, Step(mem, phys, hw), history, steps - 1);
    }
  }

  /** The number of steps from the start of a route to its end. */
  function Distance(r: Route): int {
    if r.Turns() then r.turn - r.start.index + 1 + r.stop.index else r.stop.index - r.start.index
  }

  /** A controller that is left running takes everything that is published, and no more. */
  lemma {:induction false} RunsToTheEnd(mem: seq<TRB>, phys: nat, r: Route, hw: Controller, history: seq<Body>,
                                        steps: nat)
    requires Follows(mem, phys, r, hw, history)
    requires steps >= Distance(r.From(hw.place))
    ensures Advance(mem, phys, hw, steps) == Controller(r.stop, history)
    decreases steps
  {
    StepFollows(mem, phys, r, hw, history);
    if hw.place == r.stop {
      assert Contents(mem, phys, r.From(hw.place)) == [];
      Stays(mem, phys, hw, steps);
    } else {
      RunsToTheEnd(mem, phys, r, Step(mem, phys, hw), history, steps - 1);
    }
  }

  lemma {:induction false} Stays(mem: seq<TRB>, phys: nat, hw: Controller, steps: nat)
    requires 0 <= hw.place.index < |mem| && Step(mem, phys, hw) == hw
    ensures Advance(mem, phys, hw, steps) == hw
    decreases steps
  {
    if steps > 0 { Stays(mem, phys, hw, steps - 1); }
  }

  // ---------------------------------------------------------------- stores

  /**
   * Wherever on the old route the controller stands, after the store it stands on the new route
   * and sees what it saw before followed by `more`.
   */
  ghost predicate Grows(m0: seq<TRB>, r0: Route, m1: seq<TRB>, r1: Route, more: seq<Body>, phys: nat) {
    && Clear(m0, phys, r0) && Clear(m1, phys, r1)
    && forall p :: r0.On(p) ==>
         && r1.On(p) && Clear(m0, phys, r0.From(p)) && Clear(m1, phys, r1.From(p))
         && Contents(m1, phys, r1.From(p)) == Contents(m0, phys, r0.From(p)) + more
  }

  lemma GrowsFollows(m0: seq<TRB>, r0: Route, m1: seq<TRB>, r1: Route, more: seq<Body>, phys: nat,
                     hw: Controller, history: seq<Body>)
    requires Follows(m0, phys, r0, hw, history) && Grows(m0, r0, m1, r1, more, phys)
    ensures Follows(m1, phys, r1, hw, history + more)
  {
    var seen := Contents(m0, phys, r0.From(hw.place));
    assert hw.taken + (seen + more) == (hw.taken + seen) + more;
  }

  /** A store that the route does not read, or that keeps the cycle bit of the slot it stops at. */
  ghost predicate Unread(m0: seq<TRB>, r: Route, m1: seq<TRB>)
    requires 0 <= r.stop.index < |m0|
  {
    && |m1| == |m0|
    && (forall i :: 0 <= i < |m0| && r.Reads(i) && i != r.stop.index ==> m1[i] == m0[i])
    && m1[r.stop.index].cycle == m0[r.stop.index].cycle
    && (r.Turns() ==> !(r.start.index <= r.stop.index <= r.turn))
  }

  lemma UnreadFrom(m0: seq<TRB>, r: Route, m1: seq<TRB>, phys: nat)
    requires Clear(m0, phys, r) && Unread(m0, r, m1)
    ensures Clear(m1, phys, r) && Contents(m1, phys, r) == Contents(m0, phys, r)
  {
    if !r.Turns() {
      BodiesKept(m0, m1, r.start.index, r.stop.index);
    } else {
      BodiesKept(m0, m1, r.start.index, r.turn);
      BodiesKept(m0, m1, 0, r.stop.index);
    }
  }

  lemma Invisible(m0: seq<TRB>, r: Route, m1: seq<TRB>, phys: nat)
    requires Clear(m0, phys, r) && Unread(m0, r, m1)
    ensures Grows(m0, r, m1, r, [], phys)
  {
    UnreadFrom(m0, r, m1, phys);
    forall p | r.On(p)
      ensures Clear(m0, phys, r.From(p)) && Clear(m1, phys, r.From(p))
      ensures Contents(m1, phys, r.From(p)) == Contents(m0, phys, r.From(p))
    {
      SuffixFrom(m0, phys, r, p);
      UnreadFrom(m0, r.From(p), m1, phys);
    }
  }

  /** Turning the slot a route stops at into a link home: the route goes on to index 0 and stops there. */
  lemma TurnsHome(m0: seq<TRB>, r: Route, v: TRB, phys: nat)
    requires Clear(m0, phys, r) && !r.Turns() && 0 < r.start.index <= r.stop.index
    requires IsHomeLink(v, phys) && v.cycle == r.stop.cs && m0[0].cycle == r.stop.cs
    ensures Grows(m0, r, m0[r.stop.index := v], Route(r.start, r.stop.index, Place(0, !r.stop.cs)), [], phys)
  {
    var m1, r1 := m0[r.stop.index := v], Route(r.start, r.stop.index, Place(0, !r.stop.cs));
    forall p | r.On(p)
      ensures Clear(m0, phys, r.From(p)) && Clear(m1, phys, r1.From(p))
      ensures Contents(m1, phys, r1.From(p)) == Contents(m0, phys, r.From(p))
    {
      BodiesKept(m0, m1, p.index, r.stop.index);
    }
  }

  lemma BodiesExtend(m0: seq<TRB>, lo: int, i: int, v: TRB, e: int)
    requires 0 <= lo <= i < e <= |m0|
    ensures Bodies(m0[i := v], lo, e) == Bodies(m0, lo, i) + ([v.body] + Bodies(m0, i + 1, e))
  {
    var m1 := m0[i := v];
    BodiesSplit(m1, lo, i, e);
    BodiesSplit(m1, i, i + 1, e);
    BodiesKept(m0, m1, lo, i);
    BodiesKept(m0, m1, i + 1, e);
    assert Bodies(m1, i, i + 1) == [v.body];
  }

  /** Publishing the slot a route stops at, and with it the run behind it up to slot e. */
  ghost predicate Publishable(m0: seq<TRB>, r: Route, v: TRB, e: int) {
    && 0 <= r.stop.index < e < |m0|
    && v.cycle == r.stop.cs && !v.IsLink()
    && Run(m0, r.stop.index + 1, e, r.stop.cs) && m0[e].cycle != r.stop.cs
    && (r.Turns() ==> e <= r.start.index)
  }

  lemma PublishesFrom(m0: seq<TRB>, r: Route, v: TRB, e: int, phys: nat)
    requires Clear(m0, phys, r) && Publishable(m0, r, v, e)
    ensures 0 <= r.stop.index < e < |m0|
    ensures var m1, r1 := m0[r.stop.index := v], r.(stop := Place(e, r.stop.cs));
            && Clear(m1, phys, r1)
            && Contents(m1, phys, r1) == Contents(m0, phys, r) + ([v.body] + Bodies(m0, r.stop.index + 1, e))
  {
    var i, m1 := r.stop.index, m0[r.stop.index := v];
    if !r.Turns() {
      BodiesExtend(m0, r.start.index, i, v, e);
    } else {
      BodiesExtend(m0, 0, i, v, e);
      BodiesKept(m0, m1, r.start.index, r.turn);
      var before := Bodies(m0, r.start.index, r.turn);
      var more := [v.body] + Bodies(m0, i + 1, e);
      assert before + (Bodies(m0, 0, i) + more) == (before + Bodies(m0, 0, i)) + more;
    }
  }

  lemma PublishableFrom(m0: seq<TRB>, r: Route, v: TRB, e: int, p: Place)
    requires Publishable(m0, r, v, e) && r.On(p)
    ensures Publishable(m0, r.From(p), v, e) && 0 <= r.stop.index < e < |m0| && r.(stop := Place(e, r.stop.cs)).On(p)
  {
  }

  lemma PublishesAt(m0: seq<TRB>, r: Route, v: TRB, e: int, phys: nat, p: Place)
    requires Clear(m0, phys, r) && Publishable(m0, r, v, e) && r.On(p)
    ensures 0 <= r.stop.index < e < |m0|
    ensures var m1, r1 := m0[r.stop.index := v], r.(stop := Place(e, r.stop.cs));
            && r1.On(p) && Clear(m0, phys, r.From(p)) && Clear(m1, phys, r1.From(p))
            && Contents(m1, phys, r1.From(p)) ==
               Contents(m0, phys, r.From(p)) + ([v.body] + Bodies(m0, r.stop.index + 1, e))
  {
    hide Publishable, Contents, Clear;
    SuffixFrom(m0, phys, r, p);
    PublishableFrom(m0, r, v, e, p);
    PublishesFrom(m0, r.From(p), v, e, phys);
  }

  lemma Publishes(m0: seq<TRB>, r: Route, v: TRB, e: int, phys: nat)
    requires Clear(m0, phys, r) && Publishable(m0, r, v, e)
    ensures Grows(m0, r, m0[r.stop.index := v], r.(stop := Place(e, r.stop.cs)),
                  [v.body] + Bodies(m0, r.stop.index + 1, e), phys)
  {
    hide Publishable, Contents, Clear, Route.On, Bodies;
    PublishesFrom(m0, r, v, e, phys);
    var m1, r1 := m0[r.stop.index := v], r.(stop := Place(e, r.stop.cs));
    forall p | r.On(p)
      ensures r1.On(p) && Clear(m0, phys, r.From(p)) && Clear(m1, phys, r1.From(p))
      ensures Contents(m1, phys, r1.From(p)) ==
              Contents(m0, phys, r.From(p)) + ([v.body] + Bodies(m0, r.stop.index + 1, e))
    {
      PublishesAt(m0, r, v, e, phys, p);
    }
  }

  /** The run behind a slot where routes stop reaches a link home at slot e. */
  ghost predicate ReachesLink(m0: seq<TRB>, stop: Place, v: TRB, e: int, phys: nat) {
    && 0 <= stop.index < e < |m0|
    && v.cycle == stop.cs && !v.IsLink()
    && Run(m0, stop.index + 1, e, stop.cs)
    && IsHomeLink(m0[e], phys) && m0[e].cycle == stop.cs && m0[0].cycle == stop.cs
  }

  lemma PublishesToLinkFrom(m0: seq<TRB>, r: Route, v: TRB, e: int, phys: nat)
    requires Clear(m0, phys, r) && !r.Turns() && 0 < r.start.index <= r.stop.index
      && ReachesLink(m0, r.stop, v, e, phys)
    ensures var m1, r1 := m0[r.stop.index := v], Route(r.start, e, Place(0, !r.stop.cs));
            && Clear(m1, phys, r1)
            && Contents(m1, phys, r1) == Contents(m0, phys, r) + ([v.body] + Bodies(m0, r.stop.index + 1, e))
  {
    var i, m1 := r.stop.index, m0[r.stop.index := v];
    assert Run(m1, r.start.index, e, r.stop.cs);
    BodiesExtend(m0, r.start.index, i, v, e);
  }

  /** Publishing the slot a route stops at when the run behind it reaches a link home at slot e. */
  lemma PublishesToLink(m0: seq<TRB>, r: Route, v: TRB, e: int, phys: nat)
    requires Clear(m0, phys, r) && !r.Turns() && 0 < r.start.index <= r.stop.index < |m0|
      && ReachesLink(m0, r.stop, v, e, phys)
    ensures Grows(m0, r, m0[r.stop.index := v], Route(r.start, e, Place(0, !r.stop.cs)),
                  [v.body] + Bodies(m0, r.stop.index + 1, e), phys)
  {
    var m1, r1 := m0[r.stop.index := v], Route(r.start, e, Place(0, !r.stop.cs));
    hide ReachesLink, Contents, Clear;
    PublishesToLinkFrom(m0, r, v, e, phys);
    forall p | r.On(p)
      ensures r1.On(p) && Clear(m0, phys, r.From(p)) && Clear(m1, phys, r1.From(p))
      ensures Contents(m1, phys, r1.From(p)) ==
              Contents(m0, phys, r.From(p)) + ([v.body] + Bodies(m0, r.stop.index + 1, e))
    {
      SuffixFrom(m0, phys, r, p);
      assert r.From(p).stop == r.stop;
      PublishesToLinkFrom(m0, r.From(p), v, e, phys);
    }
  }
}
