/** Events, the bounce queue that holds them for the polling thread, and what becomes of each. */
module EventQueue {
  import opened CycleRings

  datatype Kind =
    | Empty | CommandComplete | RenesasCommandComplete | Transfer(stopped: bool)
    | MfIndexWrap | PortStatusChange | DeviceNotify | OtherEvent

  datatype Event = Event(kind: Kind, data: nat)

  const CLEARED := Event(Empty, 0)

  // ---------------------------------------------------------------- the bounce queue

  /** The queue holds `contents` from the dequeue index up to the enqueue index; one slot always stays free. */
  predicate QueueHolds(bounce: seq<Event>, enq: int, deq: int, contents: seq<Event>) {
    && 0 <= deq < |bounce| && |contents| < |bounce|
    && enq == Wrap(deq + |contents|, |bounce|)
    && forall i :: 0 <= i < |contents| ==> bounce[Wrap(deq + i, |bounce|)] == contents[i]
  }

  lemma QueueEmptyOrFull(bounce: seq<Event>, enq: int, deq: int, contents: seq<Event>)
    requires QueueHolds(bounce, enq, deq, contents)
    ensures enq == deq <==> contents == []
    ensures Wrap(enq + 1, |bounce|) == deq <==> |contents| == |bounce| - 1
    ensures 0 <= enq < |bounce| && |contents| < |bounce|
  {
  }

  /** Writing the free slot is not seen. */
  lemma WritesUnseen(bounce: seq<Event>, enq: int, deq: int, contents: seq<Event>, e: Event)
    requires QueueHolds(bounce, enq, deq, contents)
    ensures 0 <= enq < |bounce| && QueueHolds(bounce[enq := e], enq, deq, contents)
  {
  }

  /** Moving the enqueue index makes the slot written the newest entry. */
  lemma Appends(bounce: seq<Event>, enq: int, deq: int, contents: seq<Event>, e: Event)
    requires QueueHolds(bounce, enq, deq, contents) && |contents| < |bounce| - 1 && bounce[enq] == e
    ensures QueueHolds(bounce, Wrap(enq + 1, |bounce|), deq, contents + [e])
  {
  }

  lemma Replaces(bounce: seq<Event>, enq: int, deq: int, contents: seq<Event>, i: int, e: Event)
    requires QueueHolds(bounce, enq, deq, contents) && 0 <= i < |contents|
    ensures QueueHolds(bounce[Wrap(deq + i, |bounce|) := e], enq, deq, contents[i := e])
  {
  }

  lemma Removes(bounce: seq<Event>, enq: int, deq: int, contents: seq<Event>)
    requires QueueHolds(bounce, enq, deq, contents) && |contents| > 0
    ensures bounce[deq] == contents[0] && QueueHolds(bounce, enq, Wrap(deq + 1, |bounce|), contents[1..])
  {
    var n := |bounce|;
    assert Wrap(deq + 0, n) == deq;
    forall i | 0 <= i < |contents| - 1 ensures bounce[Wrap(Wrap(deq + 1, n) + i, n)] == contents[1..][i] {
      assert bounce[Wrap(deq + (i + 1), n)] == contents[i + 1];
    }
  }

  // ---------------------------------------------------------------- what becomes of events

  /** What the filter does with an event: deal with it on the spot, put it on the bounce queue, or count it as lost. */
  datatype Fate = Handled | Bounced | Overflowed

  /**
   * `ok` is the answer of the handler that the filter tries: DoCMDCompletion, or processTransferEvent for
   * isochronous endpoints.
   */
  predicate HandledAtOnce(e: Event, renesas: bool, ok: bool) {
    match e.kind
    case CommandComplete => ok
    case RenesasCommandComplete => renesas && ok
    case Transfer(_) => ok
    case PortStatusChange => true
    case _ => false
  }

  /** PollForCMDCompletions takes these out of turn. */
  predicate TakenEarly(e: Event, renesas: bool) {
    match e.kind
    case CommandComplete => true
    case RenesasCommandComplete => renesas
    case Transfer(stopped) => stopped
    case _ => false
  }

  /** Which events those are. */
  lemma HandledMeans(e: Event, renesas: bool, ok: bool)
    ensures HandledAtOnce(e, renesas, ok) <==>
      || e.kind.PortStatusChange?
      || (ok && (e.kind.CommandComplete? || e.kind.Transfer? || (e.kind.RenesasCommandComplete? && renesas)))
  {
  }

  lemma TakenMeans(e: Event, renesas: bool)
    ensures TakenEarly(e, renesas) <==>
      || e.kind.CommandComplete? || (e.kind.RenesasCommandComplete? && renesas)
      || (e.kind.Transfer? && e.kind.stopped)
  {
  }

  /** Each event fetched is handled at once if and only if it is one that the handler of its kind accepts (`oks`). */
  ghost predicate Dealt(posted: seq<Event>, fates: seq<Fate>, oks: seq<bool>, renesas: bool) {
    && |oks| == |fates| <= |posted|
    && forall k :: 0 <= k < |fates| ==> (fates[k] == Handled <==> HandledAtOnce(posted[k], renesas, oks[k]))
  }

  function BouncedOf(events: seq<Event>, fates: seq<Fate>): seq<Event>
    requires |events| == |fates|
  {
    if |events| == 0 then []
    else BouncedOf(events[..|events| - 1], fates[..|fates| - 1]) +
         if fates[|fates| - 1] == Bounced then [events[|events| - 1]] else []
  }

  function CountFate(fates: seq<Fate>, f: Fate): nat {
    if |fates| == 0 then 0 else CountFate(fates[..|fates| - 1], f) + if fates[|fates| - 1] == f then 1 else 0
  }

  lemma OneMore(events: seq<Event>, fates: seq<Fate>, e: Event, f: Fate)
    requires |events| == |fates|
    ensures BouncedOf(events + [e], fates + [f]) == BouncedOf(events, fates) + if f == Bounced then [e] else []
    ensures forall g :: CountFate(fates + [f], g) == CountFate(fates, g) + if f == g then 1 else 0
  {
    assert (events + [e])[..|events|] == events && (fates + [f])[..|fates|] == fates;
  }

  /** Each event has one fate, and the bounce queue has got as many events as bounced. */
  lemma {:induction false} EachHasOneFate(events: seq<Event>, fates: seq<Fate>)
    requires |events| == |fates|
    ensures CountFate(fates, Handled) + CountFate(fates, Bounced) + CountFate(fates, Overflowed) == |events|
    ensures |BouncedOf(events, fates)| == CountFate(fates, Bounced)
  {
    if |events| > 0 {
      EachHasOneFate(events[..|events| - 1], fates[..|fates| - 1]);
    }
  }

  /** An event that was bounced is on the bounce queue, or has been, behind as many as were bounced before it. */
  lemma {:induction false} BouncedAt(events: seq<Event>, fates: seq<Fate>, k: int)
    requires |events| == |fates| && 0 <= k < |fates| && fates[k] == Bounced
    ensures var p := CountFate(fates[..k], Bounced);
      p < |BouncedOf(events, fates)| && BouncedOf(events, fates)[p] == events[k]
    decreases |fates|
  {
    var n := |fates| - 1;
    EachHasOneFate(events[..n], fates[..n]);
    if k < n {
      assert fates[..n][..k] == fates[..k];
      BouncedAt(events[..n], fates[..n], k);
    }
  }
}
