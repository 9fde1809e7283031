/**
 * The event ring and its bounce queue: the controller posts, the interrupt filter passes on, the polling thread
 * dispatches.
 */
module EventRings {
  import opened CycleRings
  import opened EventQueue

  /** Where the interrupt filter is, with its local variables. */
  datatype Irq = IrqIdle | Fetched(event: Event) | Storing(event: Event, next: int) | Stored(event: Event, next: int)

  /** Where the polling thread is. `seen` is how far behind the dequeue index the scan is. */
  datatype Thr = ThrIdle | PollRead(event: Event) | PollCleared(event: Event) | Scanning(index: int, seen: nat)

  /**
   * What the queue holds for the bounced events from `from` on: those taken early are cleared, and perhaps the
   * first one.
   */
  function Seen(bounced: seq<Event>, taken: seq<bool>, from: int, cleared: bool): (s: seq<Event>)
    requires 0 <= from <= |taken| <= |bounced|
    ensures |s| == |taken| - from
  {
    seq(|taken| - from, i requires 0 <= i < |taken| - from =>
      if taken[from + i] || (cleared && i == 0) then CLEARED else bounced[from + i])
  }

  /** The bookkeeping of events taken out of turn: each of them once. */
  ghost predicate EarlyOnce(bounced: seq<Event>, taken: seq<bool>, early: seq<int>, renesas: bool) {
    && |taken| <= |bounced|
    && (forall k :: 0 <= k < |taken| && taken[k] ==> TakenEarly(bounced[k], renesas) && k in early)
    && (forall i :: 0 <= i < |early| ==> 0 <= early[i] < |taken| && taken[early[i]])
    && (forall i, j :: 0 <= i < j < |early| ==> early[i] != early[j])
  }

  /** What has left the queue in turn are the bounced events in order, but for those taken early. */
  ghost predicate Delivered(bounced: seq<Event>, taken: seq<bool>, polled: seq<Event>, early: seq<int>, renesas: bool) {
    && |polled| <= |taken| <= |bounced|
    && (forall k :: 0 <= k < |polled| ==> polled[k] == if taken[k] then CLEARED else bounced[k])
    && EarlyOnce(bounced, taken, early, renesas)
  }

  /** Published, it is the last one seen. */
  lemma Published(bounced: seq<Event>, taken: seq<bool>, polled: seq<Event>, early: seq<int>, renesas: bool,
                  cleared: bool)
    requires Delivered(bounced, taken, polled, early, renesas) && |taken| < |bounced|
      && (cleared ==> |polled| < |taken|)
    ensures Delivered(bounced, taken + [false], polled, early, renesas)
    ensures Seen(bounced, taken + [false], |polled|, cleared) == Seen(bounced, taken, |polled|, cleared)
      + [bounced[|taken|]]
  {
  }

  /** The thread clears the oldest entry. */
  lemma FirstCleared(bounced: seq<Event>, taken: seq<bool>, from: int)
    requires 0 <= from < |taken| <= |bounced|
    ensures Seen(bounced, taken, from, true) == Seen(bounced, taken, from, false)[0 := CLEARED]
    ensures Seen(bounced, taken, from, false)[0] == if taken[from] then CLEARED else bounced[from]
  {
  }

  /** And goes past it. */
  lemma FirstPolled(bounced: seq<Event>, taken: seq<bool>, polled: seq<Event>, early: seq<int>, renesas: bool, e: Event)
    requires Delivered(bounced, taken, polled, early, renesas) && |polled| < |taken|
    requires e == if taken[|polled|] then CLEARED else bounced[|polled|]
    ensures Delivered(bounced, taken, polled + [e], early, renesas)
    ensures Seen(bounced, taken, |polled| + 1, false) == Seen(bounced, taken, |polled|, true)[1..]
  {
  }

  /** An entry taken out of turn has not been taken before, and is cleared. */
  lemma OneEarly(bounced: seq<Event>, taken: seq<bool>, polled: seq<Event>, early: seq<int>, renesas: bool, k: int)
    requires Delivered(bounced, taken, polled, early, renesas) && |polled| <= k < |taken|
    requires TakenEarly(Seen(bounced, taken, |polled|, false)[k - |polled|], renesas)
    ensures !taken[k] && Seen(bounced, taken, |polled|, false)[k - |polled|] == bounced[k]
    ensures Delivered(bounced, taken[k := true], polled, early + [k], renesas)
    ensures Seen(bounced, taken[k := true], |polled|, false) ==
      Seen(bounced, taken, |polled|, false)[k - |polled| := CLEARED]
  {
    var early' := early + [k];
    assert early'[|early|] == k;
    forall i | 0 <= i < |taken| && taken[k := true][i] ensures TakenEarly(bounced[i], renesas) && i in early' {
      if i != k { assert i in early; }
    }
  }

  /** Each event fetched has met its fate, but for one that the filter may be holding. `lost` counts the overflows. */
  ghost predicate History(posted: seq<Event>, fetched: nat, fates: seq<Fate>, irq: Irq, bounced: seq<Event>,
                          lost: nat) {
    && |fates| + (if irq.Fetched? then 1 else 0) == fetched <= |posted|
    && (irq.Fetched? ==> irq.event == posted[fetched - 1])
    && bounced == BouncedOf(posted[..|fates|], fates)
    && lost == CountFate(fates, Overflowed)
  }

  lemma Decided(posted: seq<Event>, fetched: nat, fates: seq<Fate>, irq: Irq, bounced: seq<Event>, lost: nat, irq': Irq,
                f: Fate)
    requires History(posted, fetched, fates, irq, bounced, lost) && irq.Fetched? && !irq'.Fetched?
    ensures History(posted, fetched, fates + [f], irq', if f == Bounced then bounced + [irq.event] else bounced,
                    if f == Overflowed then lost + 1 else lost)
  {
    hide BouncedOf, CountFate;
    assert posted[..|fates|] + [irq.event] == posted[..|fates| + 1];
    OneMore(posted[..|fates|], fates, irq.event, f);
    assert bounced + [] == bounced;
  }

  lemma MorePosted(posted: seq<Event>, fetched: nat, fates: seq<Fate>, irq: Irq, bounced: seq<Event>, lost: nat,
                   e: Event)
    requires History(posted, fetched, fates, irq, bounced, lost)
    ensures History(posted + [e], fetched, fates, irq, bounced, lost)
  {
    assert (posted + [e])[..|fates|] == posted[..|fates|];
  }

  lemma {:induction false} Counted(fates: seq<Fate>, k: int)
    requires 0 <= k < |fates|
    ensures CountFate(fates, fates[k]) > 0
    decreases |fates|
  {
    if k < |fates| - 1 { Counted(fates[..|fates| - 1], k); }
  }

  /** An event that is not published yet is not seen. */
  lemma MoreBounced(bounced: seq<Event>, taken: seq<bool>, polled: seq<Event>, early: seq<int>, renesas: bool, e: Event,
                    cleared: bool)
    requires Delivered(bounced, taken, polled, early, renesas)
    ensures Delivered(bounced + [e], taken, polled, early, renesas)
    ensures Seen(bounced + [e], taken, |polled|, cleared) == Seen(bounced, taken, |polled|, cleared)
  {
  }

  /** Everything of the kind looked for has been taken, from one place up to another. */
  ghost predicate Searched(bounced: seq<Event>, taken: seq<bool>, from: int, to: int, renesas: bool) {
    && 0 <= from <= to <= |taken| <= |bounced|
    && forall k :: from <= k < to && TakenEarly(bounced[k], renesas) ==> taken[k]
  }

  lemma StillSearched(bounced: seq<Event>, taken: seq<bool>, bounced': seq<Event>, taken': seq<bool>, from: int,
                      to: int, renesas: bool)
    requires Searched(bounced, taken, from, to, renesas) && bounced <= bounced' && taken <= taken'
      && |taken'| <= |bounced'|
    ensures Searched(bounced', taken', from, to, renesas)
  {
  }

  lemma OneMoreSearched(bounced: seq<Event>, taken: seq<bool>, from: int, to: int, renesas: bool)
    requires Searched(bounced, taken, from, to, renesas) && to < |taken|
    ensures Searched(bounced, taken[to := taken[to] || TakenEarly(bounced[to], renesas)], from, to + 1, renesas)
  {
  }

  class EventRing {
    const erst: array<Entry<Event>>
    const bounce: array<Event>
    const renesas: bool
    var xHCDequeueIndex: int
    var cycleState: bool
    var bounceEnqueueIndex: int
    var bounceDequeueIndex: int
    var numBounceQueueOverflows: nat

    var irq: Irq
    var thr: Thr
    /** The controller's own place in the ring. */
    var controllerIndex: int
    var controllerCycle: bool

    /**
     * All events the controller has posted, how many of them the filter has fetched, and what it has done with
     * each.
     */
    ghost var posted: seq<Event>
    ghost var fetched: nat
    ghost var fates: seq<Fate>
    /** What the handler that was tried has answered to each of them. */
    ghost var oks: seq<bool>
    /** The events put on the bounce queue; of those in it or through it, which were taken early; and in which order. */
    ghost var bounced: seq<Event>
    ghost var taken: seq<bool>
    ghost var early: seq<int>
    /** What the polling thread has taken off the queue in turn, and the overflows it has reported. */
    ghost var polled: seq<Event>
    ghost var drained: nat

    ghost predicate RingOk()
      reads erst, this`xHCDequeueIndex, this`cycleState, this`controllerIndex, this`controllerCycle, this`posted,
        this`fetched
    {
      fetched <= |posted|
        && RingHolds(erst[..], xHCDequeueIndex, cycleState, controllerIndex, controllerCycle, posted[fetched..])
    }

    /** The filter has room for the event it is storing, and has not published it yet. */
    ghost predicate IrqOk()
      reads bounce, this`irq, this`bounceEnqueueIndex, this`bounced, this`taken, this`polled
    {
      && |polled| <= |taken| && 0 <= bounceEnqueueIndex < bounce.Length
      && if irq.Storing? || irq.Stored? then
           && |bounced| == |taken| + 1 && bounced[|taken|] == irq.event
           && irq.next == Wrap(bounceEnqueueIndex + 1, bounce.Length) && |taken| - |polled| < bounce.Length - 1
           && (irq.Stored? ==> bounce[bounceEnqueueIndex] == irq.event)
         else |bounced| == |taken|
    }

    ghost predicate ThrOk()
      reads this`thr, this`bounceDequeueIndex, this`bounced, this`taken, this`polled
    {
      && |polled| <= |taken| <= |bounced|
      && (thr.PollRead? || thr.PollCleared? ==>
            |polled| < |taken| && thr.event == if taken[|polled|] then CLEARED else bounced[|polled|])
      && (thr.Scanning? ==>
        thr.seen <= |taken| - |polled| && thr.index == Wrap(bounceDequeueIndex + thr.seen, bounce.Length))
    }

    ghost predicate QueueOk()
      reads bounce, this`thr, this`bounceEnqueueIndex, this`bounceDequeueIndex, this`bounced, this`taken, this`polled
    {
      && |polled| <= |taken| <= |bounced|
      && QueueHolds(bounce[..], bounceEnqueueIndex, bounceDequeueIndex,
                    Seen(bounced, taken, |polled|, thr.PollCleared?))
    }

    ghost predicate Valid()
      reads this, erst, bounce
    {
      RingOk() && History(posted, fetched, fates, irq, bounced, drained + numBounceQueueOverflows) && IrqOk() && ThrOk()
        && QueueOk() && Delivered(bounced, taken, polled, early, renesas) && Dealt(posted, fates, oks, renesas)
    }

    constructor (numxHCEntries: nat, numBounceEntries: nat, renesas: bool)
      requires numxHCEntries > 0 && numBounceEntries > 0
      ensures Valid() && posted == [] && irq == IrqIdle && thr == ThrIdle && numBounceQueueOverflows == 0
      ensures erst.Length == numxHCEntries && bounce.Length == numBounceEntries && this.renesas == renesas
    {
      erst := new Entry<Event>[numxHCEntries](_ => Entry(CLEARED, false));
      bounce := new Event[numBounceEntries](_ => CLEARED);
      this.renesas := renesas;
      xHCDequeueIndex, cycleState, bounceEnqueueIndex, bounceDequeueIndex, numBounceQueueOverflows := 0, true, 0, 0, 0;
      irq, thr, controllerIndex, controllerCycle := IrqIdle, ThrIdle, 0, true;
      posted, fetched, fates, oks, bounced, taken, early, polled, drained := [], 0, [], [], [], [], [], [], 0;
    }

    // ---- the controller ----

    /** The controller posts an event, if the ring is not full. */
    method Post(e: Event)
      requires Valid() && |posted| - fetched < erst.Length - 1
      modifies erst, this`controllerIndex, this`controllerCycle, this`posted
      ensures Valid() && posted == old(posted) + [e]
    {
      hide RingOk, History, IrqOk, ThrOk, QueueOk, Delivered;
      MorePosted(posted, fetched, fates, irq, bounced, drained + numBounceQueueOverflows, e);
      WriteEntry(e);
    }

    method WriteEntry(e: Event)
      requires RingOk() && |posted| - fetched < erst.Length - 1
      modifies erst, this`controllerIndex, this`controllerCycle, this`posted
      ensures RingOk() && posted == old(posted) + [e]
    {
      hide RingHolds;
      Posts(erst[..], xHCDequeueIndex, cycleState, controllerIndex, controllerCycle, posted[fetched..], e);
      InRing();
      assert (posted + [e])[fetched..] == posted[fetched..] + [e];
      erst[controllerIndex] := Entry(e, controllerCycle);
      controllerIndex := controllerIndex + 1;
      if controllerIndex >= erst.Length {
        controllerIndex := 0;
        controllerCycle := !controllerCycle;
      }
      posted := posted + [e];
    }

    lemma InRing()
      requires RingOk()
      ensures 0 <= controllerIndex < erst.Length && 0 <= xHCDequeueIndex < erst.Length
      ensures fetched <= |posted| && |posted| - fetched < erst.Length
    {
    }

    // ---- the interrupt filter ----

    /** The filter reads the ring's oldest event, if the cycle bit says that there is one, and goes past it. */
    method FilterFetch() returns (found: bool)
      requires Valid() && irq == IrqIdle
      modifies this`irq, this`fetched, this`xHCDequeueIndex, this`cycleState
      ensures Valid() && found == (old(fetched) < |posted|)
      ensures fetched == old(fetched) + if found then 1 else 0
      ensures irq == if found then Fetched(posted[old(fetched)]) else IrqIdle
    {
      hide RingOk, ThrOk, QueueOk, Delivered, BouncedOf, CountFate;
      var e: Event;
      found, e := ReadEntry();
      if found {
        irq := Fetched(e);
      }
    }

    method ReadEntry() returns (found: bool, e: Event)
      requires RingOk()
      modifies this`fetched, this`xHCDequeueIndex, this`cycleState
      ensures RingOk() && found == (old(fetched) < |posted|) && fetched == old(fetched) + if found then 1 else 0
      ensures found ==> e == posted[old(fetched)]
    {
      hide RingHolds;
      InRing();
      OldestItem(erst[..], xHCDequeueIndex, cycleState, controllerIndex, controllerCycle, posted[fetched..]);
      e := erst[xHCDequeueIndex].item;
      if erst[xHCDequeueIndex].cycle != cycleState {
        return false, e;
      }
      Consumes(erst[..], xHCDequeueIndex, cycleState, controllerIndex, controllerCycle, posted[fetched..]);
      assert posted[fetched..][1..] == posted[fetched + 1..];
      xHCDequeueIndex := xHCDequeueIndex + 1;
      if xHCDequeueIndex >= erst.Length {
        xHCDequeueIndex := 0;
        cycleState := !cycleState;
      }
      fetched := fetched + 1;
      found := true;
    }

    /** The filter deals with the event, or finds out whether the bounce queue has room for it. */
    method FilterDecide(ok: bool) returns (f: Fate)
      requires Valid() && irq.Fetched?
      modifies this`irq, this`fates, this`oks, this`bounced, this`numBounceQueueOverflows
      ensures Valid() && fates == old(fates) + [f] && oks == old(oks) + [ok]
      ensures f == Handled <==> HandledAtOnce(old(irq).event, renesas, ok)
      ensures var kind := old(irq).event.kind;
        f == Handled <==>
        || kind.PortStatusChange?
        || (ok && (kind.CommandComplete? || kind.Transfer? || (kind.RenesasCommandComplete? && renesas)))
      ensures f == Overflowed ==> |taken| - |polled| == bounce.Length - 1
      ensures if f == Bounced then irq.Storing? && bounced == old(bounced) + [old(irq).event]
              else irq == IrqIdle && bounced == old(bounced)
    {
      hide RingOk, History, QueueOk, ThrOk, Delivered, HandledAtOnce;
      var e := irq.event;
      ghost var was, queue, lost := irq, bounced, drained + numBounceQueueOverflows;
      NextEvent(was);
      HandledMeans(e, renesas, ok);
      if HandledAtOnce(e, renesas, ok) {
        f, irq := Handled, IrqIdle;
      } else {
        f := Reserve(e);
      }
      Decided(posted, fetched, fates, was, queue, lost, irq, f);
      fates, oks := fates + [f], oks + [ok];
    }

    lemma NextEvent(was: Irq)
      requires History(posted, fetched, fates, was, bounced, drained + numBounceQueueOverflows) && was.Fetched?
      ensures |fates| < |posted| && posted[|fates|] == was.event
    {
    }

    /** Finds out whether the bounce queue has room for one more event. */
    method Reserve(e: Event) returns (f: Fate)
      requires IrqOk() && ThrOk() && QueueOk() && Delivered(bounced, taken, polled, early, renesas) && irq.Fetched?
      modifies this`irq, this`bounced, this`numBounceQueueOverflows
      ensures IrqOk() && ThrOk() && QueueOk() && Delivered(bounced, taken, polled, early, renesas) && f != Handled
      ensures if f == Bounced then
                && irq.Storing? && bounced == old(bounced) + [e]
                && numBounceQueueOverflows == old(numBounceQueueOverflows)
              else
                && irq == IrqIdle && bounced == old(bounced)
                && numBounceQueueOverflows == old(numBounceQueueOverflows) + 1
                && |taken| - |polled| == bounce.Length - 1
    {
      hide Delivered, QueueHolds, Seen;
      QueueEmptyOrFull(bounce[..], bounceEnqueueIndex, bounceDequeueIndex,
                       Seen(bounced, taken, |polled|, thr.PollCleared?));
      var next := bounceEnqueueIndex + 1;
      if next >= bounce.Length {
        next := 0;
      }
      if next == bounceDequeueIndex {
        f, irq := Overflowed, IrqIdle;
        numBounceQueueOverflows := numBounceQueueOverflows + 1;
      } else {
        f, irq := Bounced, Storing(e, next);
        MoreBounced(bounced, taken, polled, early, renesas, e, thr.PollCleared?);
        bounced := bounced + [e];
      }
    }

    /** The filter writes the slot behind the queue's last entry. */
    method FilterStore()
      requires Valid() && irq.Storing?
      modifies this`irq, bounce
      ensures Valid() && irq == Stored(old(irq).event, old(irq).next)
    {
      hide RingOk, Delivered, Seen, QueueHolds, BouncedOf, CountFate;
      WritesUnseen(bounce[..], bounceEnqueueIndex, bounceDequeueIndex, Seen(bounced, taken, |polled|, thr.PollCleared?),
                   irq.event);
      bounce[bounceEnqueueIndex] := irq.event;
      irq := Stored(irq.event, irq.next);
    }

    /** And moves the enqueue index: now the event is on the queue. */
    method FilterPublish()
      requires Valid() && irq.Stored?
      modifies this`irq, this`bounceEnqueueIndex, this`taken
      ensures Valid() && irq == IrqIdle && taken == old(taken) + [false]
    {
      hide RingOk, Delivered, Seen, QueueHolds, BouncedOf, CountFate;
      Published(bounced, taken, polled, early, renesas, thr.PollCleared?);
      Appends(bounce[..], bounceEnqueueIndex, bounceDequeueIndex, Seen(bounced, taken, |polled|, thr.PollCleared?),
              irq.event);
      bounceEnqueueIndex := irq.next;
      taken := taken + [false];
      irq := IrqIdle;
    }

    // ---- the polling thread ----

    /** The thread reports the overflows counted. */
    method DrainOverflows() returns (value: nat)
      requires Valid()
      modifies this`numBounceQueueOverflows, this`drained
      ensures Valid() && numBounceQueueOverflows == 0 && drained == old(drained) + value
    {
      hide RingOk, Delivered, Seen, QueueHolds, BouncedOf, CountFate, IrqOk, ThrOk;
      value := numBounceQueueOverflows;
      numBounceQueueOverflows := 0;
      drained := drained + value;
    }

    /** The thread reads the oldest entry, if there is one. */
    method PollBegin() returns (found: bool)
      requires Valid() && thr == ThrIdle
      modifies this`thr
      ensures Valid() && found == (|polled| < |taken|)
      ensures thr == if found then PollRead(if taken[|polled|] then CLEARED else bounced[|polled|]) else ThrIdle
    {
      hide RingOk, Delivered, QueueHolds, History;
      ghost var contents := Seen(bounced, taken, |polled|, false);
      QueueEmptyOrFull(bounce[..], bounceEnqueueIndex, bounceDequeueIndex, contents);
      if bounceDequeueIndex == bounceEnqueueIndex {
        return false;
      }
      Removes(bounce[..], bounceEnqueueIndex, bounceDequeueIndex, contents);
      DequeueInQueue();
      FirstCleared(bounced, taken, |polled|);
      thr := PollRead(bounce[bounceDequeueIndex]);
      found := true;
    }

    lemma DequeueInQueue()
      requires QueueOk()
      ensures 0 <= bounceDequeueIndex < bounce.Length
    {
    }

    /** The thread clears the slot. */
    method PollClear()
      requires Valid() && thr.PollRead?
      modifies this`thr, bounce
      ensures Valid() && thr == PollCleared(old(thr).event)
    {
      hide RingOk, Delivered, Seen, QueueHolds, History;
      ghost var contents := Seen(bounced, taken, |polled|, false);
      Replaces(bounce[..], bounceEnqueueIndex, bounceDequeueIndex, contents, 0, CLEARED);
      FirstCleared(bounced, taken, |polled|);
      DequeueInQueue();
      NotTheFreeSlot();
      bounce[bounceDequeueIndex] := CLEARED;
      thr := PollCleared(thr.event);
    }

    lemma NotTheFreeSlot()
      requires QueueOk() && |polled| < |taken|
      ensures bounceDequeueIndex != bounceEnqueueIndex
        && Wrap(bounceDequeueIndex + 0, bounce.Length) == bounceDequeueIndex
    {
    }

    /** And moves the dequeue index; the event is dispatched. */
    method PollAdvance() returns (e: Event)
      requires Valid() && thr.PollCleared?
      modifies this`thr, this`bounceDequeueIndex, this`polled
      ensures Valid() && thr == ThrIdle && e == old(thr).event && polled == old(polled) + [e]
    {
      hide RingOk, Delivered, Seen, QueueHolds, History;
      FirstPolled(bounced, taken, polled, early, renesas, thr.event);
      Removes(bounce[..], bounceEnqueueIndex, bounceDequeueIndex, Seen(bounced, taken, |polled|, true));
      DequeueInQueue();
      e := thr.event;
      bounceDequeueIndex := bounceDequeueIndex + 1;
      if bounceDequeueIndex >= bounce.Length {
        bounceDequeueIndex := 0;
      }
      polled := polled + [e];
      thr := ThrIdle;
    }

    /** The thread starts looking for command completions. */
    method ScanBegin()
      requires Valid() && thr == ThrIdle
      modifies this`thr
      ensures Valid() && thr.Scanning? && thr.seen == 0
    {
      hide RingOk, Delivered, Seen, History;
      DequeueInQueue();
      thr := Scanning(bounceDequeueIndex, 0);
    }

    lemma AtScan()
      requires ThrOk() && QueueOk() && thr.Scanning?
      ensures 0 <= thr.index < bounce.Length && (thr.index == bounceEnqueueIndex <==> thr.seen == |taken| - |polled|)
      ensures thr.seen < |taken| - |polled| ==>
        && thr.index == Wrap(bounceDequeueIndex + thr.seen, bounce.Length)
        && bounce[thr.index] == Seen(bounced, taken, |polled|, false)[thr.seen]
        && Wrap(bounceDequeueIndex + (thr.seen + 1), bounce.Length) == Wrap(thr.index + 1, bounce.Length)
    {
    }

    /** The thread looks at one entry, takes it if it is of the kind looked for, and goes on behind it. */
    method ScanStep() returns (done: bool)
      requires Valid() && thr.Scanning?
      modifies this`thr, this`taken, this`early, bounce
      ensures Valid() && |taken| == |old(taken)|
      ensures done ==>
        old(thr).seen == |taken| - |polled| && thr == ThrIdle && taken == old(taken) && early == old(early)
      ensures !done ==> var k := |polled| + old(thr).seen;
        && k < |taken| && thr.Scanning? && thr.seen == old(thr).seen + 1
        && taken == old(taken)[k := old(taken)[k] || TakenEarly(bounced[k], renesas)]
        && early == old(early) + if !old(taken)[k] && TakenEarly(bounced[k], renesas) then [k] else []
    {
      hide RingOk, Delivered, QueueHolds, IrqOk, History, TakenEarly, Seen;
      AtScan();
      var index := thr.index;
      if index == bounceEnqueueIndex {
        StopScan();
        return true;
      }
      Look();
      index := index + 1;
      if index >= bounce.Length {
        index := 0;
      }
      thr := Scanning(index, thr.seen + 1);
      done := false;
    }

    method StopScan()
      requires Valid() && thr.Scanning?
      modifies this`thr
      ensures Valid() && thr == ThrIdle
    {
      hide RingOk, Delivered, QueueHolds, History, Seen;
      thr := ThrIdle;
    }

    /** Takes the entry the scan is at, if it is of the kind looked for. */
    method Look()
      requires Valid() && thr.Scanning? && thr.seen < |taken| - |polled|
      modifies this`taken, this`early, bounce
      ensures Valid()
      ensures var k := |polled| + thr.seen;
        && taken == old(taken)[k := old(taken)[k] || TakenEarly(bounced[k], renesas)]
        && early == old(early) + if !old(taken)[k] && TakenEarly(bounced[k], renesas) then [k] else []
    {
      hide RingOk, Delivered, QueueHolds, History, TakenEarly, Seen;
      ghost var contents, k := Seen(bounced, taken, |polled|, false), |polled| + thr.seen;
      AtScan();
      if !taken[k] { NotCleared(k); }
      if TakenEarly(bounce[thr.index], renesas) {
        OneEarly(bounced, taken, polled, early, renesas, k);
        Replaces(bounce[..], bounceEnqueueIndex, bounceDequeueIndex, contents, thr.seen, CLEARED);
        bounce[thr.index] := CLEARED;
        taken, early := taken[k := true], early + [k];
      }
    }

    lemma NotCleared(k: int)
      requires |polled| <= k < |taken| <= |bounced| && !taken[k]
      ensures Seen(bounced, taken, |polled|, false)[k - |polled|] == bounced[k]
    {
    }

    // ---- any interleaving ----

    /** One step of the polling thread, whatever it is doing. */
    method ThreadStep(choice: int)
      requires Valid()
      modifies bounce, this`thr, this`bounceDequeueIndex, this`polled, this`taken, this`early,
        this`numBounceQueueOverflows, this`drained
      ensures Valid() && old(polled) <= polled && |taken| == |old(taken)|
    {
      hide RingOk, IrqOk, ThrOk, QueueOk, Delivered, History, TakenEarly;
      match thr
      case PollRead(_) => PollClear();
      case PollCleared(_) => var e := PollAdvance();
      case Scanning(_, _) => var done := ScanStep();
      case ThrIdle =>
        if choice == 0 {
          var found := PollBegin();
        } else if choice == 1 {
          ScanBegin();
        } else {
          var value := DrainOverflows();
        }
    }

    /** One step of the interrupt filter, whatever it is doing. */
    method FilterStep(ok: bool)
      requires Valid()
      modifies bounce, this`irq, this`fetched, this`xHCDequeueIndex, this`cycleState, this`fates, this`oks, this`bounced
      modifies this`numBounceQueueOverflows, this`bounceEnqueueIndex, this`taken
      ensures Valid() && old(fates) <= fates && old(bounced) <= bounced && old(taken) <= taken
    {
      hide RingOk, IrqOk, ThrOk, QueueOk, Delivered, History, HandledAtOnce;
      match irq
      case IrqIdle => var found := FilterFetch();
      case Fetched(_) => var f := FilterDecide(ok);
      case Storing(_, _) => FilterStore();
      case Stored(_, _) => FilterPublish();
    }

    /** The controller posts unless the ring is full. */
    method PostIfRoom(e: Event)
      requires Valid()
      modifies erst, this`controllerIndex, this`controllerCycle, this`posted
      ensures Valid() && old(posted) <= posted
    {
      hide RingHolds, IrqOk, ThrOk, QueueOk, Delivered, History;
      RingFull(erst[..], xHCDequeueIndex, cycleState, controllerIndex, controllerCycle, posted[fetched..]);
      InRing();
      if Wrap(controllerIndex + 1, erst.Length) != xHCDequeueIndex {
        Post(e);
      }
    }

    /** The controller and the polling thread make any number of steps. */
    method OthersRun()
      requires Valid()
      modifies erst, this`controllerIndex, this`controllerCycle, this`posted
      modifies bounce, this`thr, this`bounceDequeueIndex, this`polled, this`taken, this`early,
        this`numBounceQueueOverflows, this`drained
      ensures Valid() && old(posted) <= posted && old(polled) <= polled && |taken| == |old(taken)|
    {
      hide RingOk, IrqOk, ThrOk, QueueOk, Delivered, History;
      var steps: nat := *;
      while steps > 0
        invariant Valid() && old(posted) <= posted && old(polled) <= polled && |taken| == |old(taken)|
      {
        var choice: int, event: Event := *, *;
        if choice < 0 {
          PostIfRoom(event);
        } else {
          ThreadStep(choice);
        }
        steps := steps - 1;
      }
    }

    /** The controller and the interrupt filter make any number of steps. */
    method InterruptsRun()
      requires Valid()
      modifies erst, this`controllerIndex, this`controllerCycle, this`posted
      modifies bounce, this`irq, this`fetched, this`xHCDequeueIndex, this`cycleState, this`fates, this`oks, this`bounced
      modifies this`numBounceQueueOverflows, this`bounceEnqueueIndex, this`taken
      ensures Valid() && old(posted) <= posted && old(fates) <= fates && old(bounced) <= bounced && old(taken) <= taken
    {
      hide RingOk, IrqOk, ThrOk, QueueOk, Delivered, History;
      var steps: nat := *;
      while steps > 0
        invariant Valid() && old(posted) <= posted && old(fates) <= fates && old(bounced) <= bounced
          && old(taken) <= taken
      {
        var post: bool, ok: bool, event: Event := *, *, *;
        if post {
          PostIfRoom(event);
        } else {
          FilterStep(ok);
        }
        steps := steps - 1;
      }
    }

    /**
     * FilterEventRing, with the others running in between its steps: it takes the oldest event not yet
     * fetched, and deals with it, bounces it, or counts it as lost.
     */
    method FilterEventRing(ok: bool) returns (more: bool)
      requires Valid() && irq == IrqIdle
      modifies erst, this`controllerIndex, this`controllerCycle, this`posted
      modifies bounce, this`thr, this`bounceDequeueIndex, this`polled, this`taken, this`early,
        this`numBounceQueueOverflows, this`drained
      modifies this`irq, this`fetched, this`xHCDequeueIndex, this`cycleState, this`fates, this`oks, this`bounced,
        this`bounceEnqueueIndex
      ensures Valid() && irq == IrqIdle && old(posted) <= posted && old(polled) <= polled
      ensures old(fetched) < |old(posted)| ==> fates != old(fates)
      ensures fates == old(fates) ==> !more && fetched == old(fetched) && bounced == old(bounced)
      ensures fates != old(fates) ==>
        && old(fetched) < |posted| && fetched == old(fetched) + 1
        && var e, f := posted[old(fetched)], fates[|fates| - 1];
           && fates == old(fates) + [f] && oks == old(oks) + [ok] && (more <==> f != Overflowed)
           && bounced == (if f == Bounced then old(bounced) + [e] else old(bounced))
           && (f == Overflowed ==> |old(taken)| - |old(polled)| == bounce.Length - 1)
      ensures fates != old(fates) ==>
        var kind, f := posted[old(fetched)].kind, fates[|fates| - 1];
        f == Handled <==>
        || kind.PortStatusChange?
        || (ok && (kind.CommandComplete? || kind.Transfer? || (kind.RenesasCommandComplete? && renesas)))
    {
      hide RingOk, IrqOk, ThrOk, QueueOk, Delivered, History, HandledAtOnce, Dealt;
      Counts();
      OthersRun();
      var found := FilterFetch();
      if !found {
        return false;
      }
      Counts();
      var f := FilterRest(ok);
      more := f != Overflowed;
    }

    /** What FilterEventRing does once it has fetched an event. */
    method FilterRest(ok: bool) returns (f: Fate)
      requires Valid() && irq.Fetched?
      modifies erst, this`controllerIndex, this`controllerCycle, this`posted
      modifies bounce, this`thr, this`bounceDequeueIndex, this`polled, this`taken, this`early,
        this`numBounceQueueOverflows, this`drained
      modifies this`irq, this`fates, this`oks, this`bounced, this`bounceEnqueueIndex
      ensures Valid() && irq == IrqIdle && old(posted) <= posted && old(polled) <= polled
      ensures fates == old(fates) + [f] && oks == old(oks) + [ok]
      ensures var kind := old(irq).event.kind;
        f == Handled <==>
        || kind.PortStatusChange?
        || (ok && (kind.CommandComplete? || kind.Transfer? || (kind.RenesasCommandComplete? && renesas)))
      ensures bounced == if f == Bounced then old(bounced) + [old(irq).event] else old(bounced)
      ensures f == Overflowed ==> |old(taken)| - |old(polled)| >= bounce.Length - 1
    {
      hide RingOk, IrqOk, ThrOk, QueueOk, Delivered, History, HandledAtOnce, Dealt;
      OthersRun();
      f := FilterDecide(ok);
      OthersRun();
      if f == Bounced {
        FilterStore();
        OthersRun();
        FilterPublish();
      }
    }

    /**
     * PollEventRing2, with the filter running in between its steps: it takes the oldest entry off the
     * bounce queue, and dispatches it unless it has been taken early.
     */
    method PollEventRing2() returns (more: bool, e: Event)
      requires Valid() && thr == ThrIdle
      modifies erst, this`controllerIndex, this`controllerCycle, this`posted
      modifies bounce, this`irq, this`fetched, this`xHCDequeueIndex, this`cycleState, this`fates, this`oks, this`bounced
      modifies this`numBounceQueueOverflows, this`bounceEnqueueIndex, this`taken, this`thr, this`bounceDequeueIndex,
        this`polled, this`drained
      ensures Valid() && thr == ThrIdle && old(bounced) <= bounced && old(taken) <= taken
      ensures !more ==> polled == old(polled) && |polled| == |old(taken)|
      ensures more ==>
        && |old(polled)| < |taken| <= |bounced| && polled == old(polled) + [e]
        && e == if taken[|old(polled)|] then CLEARED else bounced[|old(polled)|]
    {
      hide RingOk, IrqOk, ThrOk, QueueOk, Delivered, History;
      Counts();
      var value := DrainOverflows();
      InterruptsRun();
      Counts();
      var found := PollBegin();
      if !found {
        return false, CLEARED;
      }
      e := PollRest();
      more := true;
      Counts();
    }

    /** What PollEventRing2 does once it has read an entry. */
    method PollRest() returns (e: Event)
      requires Valid() && thr.PollRead?
      modifies erst, this`controllerIndex, this`controllerCycle, this`posted
      modifies bounce, this`irq, this`fetched, this`xHCDequeueIndex, this`cycleState, this`fates, this`oks, this`bounced
      modifies this`numBounceQueueOverflows, this`bounceEnqueueIndex, this`taken, this`thr, this`bounceDequeueIndex,
        this`polled
      ensures Valid() && thr == ThrIdle && old(bounced) <= bounced && old(taken) <= taken && polled == old(polled) + [e]
    {
      hide RingOk, IrqOk, ThrOk, QueueOk, Delivered, History;
      InterruptsRun();
      PollClear();
      InterruptsRun();
      e := PollAdvance();
    }

    lemma Counts()
      requires Valid()
      ensures |polled| <= |taken| <= |bounced| && |taken| - |polled| < bounce.Length
      ensures forall k :: 0 <= k < |polled| ==> polled[k] == if taken[k] then CLEARED else bounced[k]
    {
    }

    /**
     * PollForCMDCompletions, with the filter running in between its steps: it takes every command
     * completion and stopped transfer that is on the queue, in turn, and leaves the rest. It gives up
     * when the controller is gone.
     */
    method PollForCMDCompletions() returns (finished: bool)
      requires Valid() && thr == ThrIdle
      modifies erst, this`controllerIndex, this`controllerCycle, this`posted
      modifies bounce, this`irq, this`fetched, this`xHCDequeueIndex, this`cycleState, this`fates, this`oks, this`bounced
      modifies this`numBounceQueueOverflows, this`bounceEnqueueIndex, this`taken, this`early, this`thr
      ensures Valid() && thr == ThrIdle && old(bounced) <= bounced && |old(taken)| <= |taken| <= |bounced|
        && old(early) <= early
      ensures finished ==> forall k :: |polled| <= k < |taken| ==>
        var kind := bounced[k].kind;
        taken[k] <==> kind.CommandComplete? || (kind.RenesasCommandComplete? && renesas)
                      || (kind.Transfer? && kind.stopped)
    {
      hide RingOk, IrqOk, ThrOk, QueueOk, Delivered, History, TakenEarly;
      Counts();
      ScanBegin();
      var done := false;
      while !done
        invariant Valid() && old(bounced) <= bounced && |old(taken)| <= |taken| <= |bounced| && old(early) <= early
        invariant if done then thr == ThrIdle else thr.Scanning? && thr.seen < bounce.Length
        invariant Searched(bounced, taken, |polled|, if done then |taken| else |polled| + thr.seen, renesas)
        decreases if done then 0 else bounce.Length - thr.seen
      {
        var gone: bool := *;
        if gone {
          StopScan();
          return false;
        }
        done := ScanRound();
      }
      AllTaken();
      finished := true;
    }

    lemma AllTaken()
      requires Valid() && Searched(bounced, taken, |polled|, |taken|, renesas)
      ensures |polled| <= |taken| <= |bounced|
      ensures forall k :: |polled| <= k < |taken| ==>
        var kind := bounced[k].kind;
        taken[k] <==> kind.CommandComplete? || (kind.RenesasCommandComplete? && renesas)
                      || (kind.Transfer? && kind.stopped)
    {
      hide RingOk, IrqOk, ThrOk, QueueOk, History, TakenEarly, Dealt;
      forall k | |polled| <= k < |taken| ensures taken[k] <==> TakenEarly(bounced[k], renesas) {}
      forall k | |polled| <= k < |taken| { TakenMeans(bounced[k], renesas); }
    }

    method ScanRound() returns (done: bool)
      requires Valid() && thr.Scanning? && Searched(bounced, taken, |polled|, |polled| + thr.seen, renesas)
      modifies erst, this`controllerIndex, this`controllerCycle, this`posted
      modifies bounce, this`irq, this`fetched, this`xHCDequeueIndex, this`cycleState, this`fates, this`oks, this`bounced
      modifies this`numBounceQueueOverflows, this`bounceEnqueueIndex, this`taken, this`early, this`thr
      ensures Valid() && old(bounced) <= bounced && |old(taken)| <= |taken| <= |bounced| && old(early) <= early
      ensures if done then thr == ThrIdle else thr.Scanning? && thr.seen == old(thr).seen + 1 < bounce.Length
      ensures Searched(bounced, taken, |polled|, if done then |taken| else |polled| + thr.seen, renesas)
    {
      hide RingOk, IrqOk, ThrOk, QueueOk, Delivered, History, TakenEarly, Searched;
      InterruptsRun();
      Counts();
      StillSearched(old(bounced), old(taken), bounced, taken, |polled|, |polled| + thr.seen, renesas);
      ghost var b, t, to := bounced, taken, |polled| + thr.seen;
      done := ScanStep();
      if !done { OneMoreSearched(b, t, |polled|, to, renesas); }
      Counts();
    }

    // ---- laws of whole runs ----

    /** Every event fetched has one fate; those bounced are on the queue or through it; those lost are counted. */
    lemma Accounted()
      requires Valid() && irq == IrqIdle
      ensures |fates| == fetched <= |posted|
      ensures CountFate(fates, Handled) + |bounced| + numBounceQueueOverflows + drained == fetched
      ensures bounced == BouncedOf(posted[..fetched], fates)
    {
      hide RingOk, IrqOk, ThrOk, QueueOk, Delivered;
      EachHasOneFate(posted[..|fates|], fates);
    }

    /**
     * Over any run, a transfer event that processTransferEvent has not taken is not dropped in silence. It is counted
     * as an overflow, or it has a place p of its own among those bounced: it has left the queue, in turn or early; or
     * it is on the queue, or in the thread's hands; or the filter is storing it.
     */
    lemma TransferReaches(k: int) returns (p: int)
      requires Valid() && 0 <= k < |fates| && |fates| <= |posted| && |oks| == |fates|
      requires posted[k].kind.Transfer? && !oks[k]
      ensures fates[k] == Bounced || (fates[k] == Overflowed && numBounceQueueOverflows + drained > 0)
      ensures numBounceQueueOverflows + drained == CountFate(fates, Overflowed)
      ensures fates[k] == Bounced ==>
        && p == CountFate(fates[..k], Bounced) && 0 <= p < |bounced| && bounced[p] == posted[k]
        && |polled| <= |taken| <= |bounced|
        && (p < |polled| && p !in early ==> polled[p] == posted[k])
        && (|polled| <= p < |taken| && p !in early ==>
              || (p == |polled| && thr == PollCleared(posted[k]))
              || (var i := Wrap(bounceDequeueIndex + (p - |polled|), bounce.Length);
                  0 <= i < bounce.Length && bounce[i] == posted[k]))
        && (p >= |taken| ==> (irq.Storing? || irq.Stored?) && irq.event == posted[k])
    {
      hide RingOk, BouncedOf;
      HandledMeans(posted[k], renesas, oks[k]);
      p := CountFate(fates[..k], Bounced);
      if fates[k] == Bounced {
        BouncedAt(posted[..|fates|], fates, k);
        if |polled| <= p < |taken| && p !in early && !(p == |polled| && thr.PollCleared?) {
          assert Seen(bounced, taken, |polled|, thr.PollCleared?)[p - |polled|] == posted[k];
        }
      } else {
        Counted(fates, k);
      }
    }

    /** An event that has left the queue was dispatched once: in turn, or early and then not again. */
    lemma DispatchedOnce(k: int)
      requires Valid() && 0 <= k < |polled|
      ensures k < |taken| <= |bounced|
      ensures taken[k] ==>
        polled[k] == CLEARED && TakenEarly(bounced[k], renesas) && exists i :: 0 <= i < |early| && early[i] == k
      ensures !taken[k] ==> polled[k] == bounced[k] && k !in early
      ensures forall i, j :: 0 <= i < |early| && 0 <= j < |early| && early[i] == k && early[j] == k ==> i == j
    {
      hide RingOk, IrqOk, ThrOk, QueueOk, History, TakenEarly;
    }
  }
}
