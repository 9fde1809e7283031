/** Whole runs: a controller that steps between the stores of a producer. */
module Runs {
  import opened Trb
  import opened Hardware

  /** What happens next: the controller takes a step, or memory changes and publishes `more`. */
  datatype Event = Steps(n: nat) | Store(mem: seq<TRB>, route: Route, more: seq<Body>)

  /** Every store of a run is one that the route only grows by. */
  ghost predicate Grown(mem: seq<TRB>, r: Route, phys: nat, events: seq<Event>)
    decreases |events|
  {
    |events| == 0 ||
    match events[0]
    case Steps(_) => Grown(mem, r, phys, events[1..])
    case Store(m1, r1, more) => Grows(mem, r, m1, r1, more, phys) && Grown(m1, r1, phys, events[1..])
  }

  /** All that a run publishes, in order. */
  function Published(events: seq<Event>): seq<Body>
    decreases |events|
  {
    if |events| == 0 then []
    else (if events[0].Store? then events[0].more else []) + Published(events[1..])
  }

  /** The controller at the end of a run. */
  ghost function RunController(mem: seq<TRB>, r: Route, phys: nat, hw: Controller,
                               events: seq<Event>): (end: Controller)
    requires Clear(mem, phys, r) && r.On(hw.place) && Clear(mem, phys, r.From(hw.place)) && Grown(mem, r, phys, events)
    decreases |events|
  {
    if |events| == 0 then hw
    else match events[0]
      case Steps(n) =>
        var next := Advance(mem, phys, hw, n);
        AdvanceFollows(mem, phys, r, hw, hw.taken + Contents(mem, phys, r.From(hw.place)), n);
        RunController(mem, r, phys, next, events[1..])
      case Store(m1, r1, more) =>
        RunController(m1, r1, phys, hw, events[1..])
  }

  /**
   * Over any interleaving of stores and controller steps, the controller executes a prefix of what has
   * been published, in the order of publication.
   */
  lemma {:induction false} RunIsFifo(mem: seq<TRB>, r: Route, phys: nat, hw: Controller, events: seq<Event>,
                                     history: seq<Body>)
    requires Follows(mem, phys, r, hw, history) && Grown(mem, r, phys, events)
    ensures RunController(mem, r, phys, hw, events).taken <= history + Published(events)
    ensures hw.taken <= RunController(mem, r, phys, hw, events).taken
    decreases |events|
  {
    hide Follows, Grows, Clear, Contents, Advance;
    Standing(mem, r, phys, hw, history);
    if |events| > 0 {
      match events[0]
      case Steps(n) =>
        AdvanceFollows(mem, phys, r, hw, history, n);
        Standing(mem, r, phys, Advance(mem, phys, hw, n), history);
        RunIsFifo(mem, r, phys, Advance(mem, phys, hw, n), events[1..], history);
        assert Published(events) == Published(events[1..]);
      case Store(m1, r1, more) =>
        GrowsFollows(mem, r, m1, r1, more, phys, hw, history);
        RunIsFifo(m1, r1, phys, hw, events[1..], history + more);
        assert history + (more + Published(events[1..])) == (history + more) + Published(events[1..]);
    }
  }

  lemma Standing(mem: seq<TRB>, r: Route, phys: nat, hw: Controller, history: seq<Body>)
    requires Follows(mem, phys, r, hw, history)
    ensures Clear(mem, phys, r) && r.On(hw.place) && Clear(mem, phys, r.From(hw.place)) && hw.taken <= history
    ensures 0 <= hw.place.index < |mem|
    ensures history == hw.taken + Contents(mem, phys, r.From(hw.place))
  {
  }
}
