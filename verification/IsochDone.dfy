/** How isochronous TDs get from their slots, through the interrupt's done list, to the done queue. */
module IsochDone {
  import opened Basics
  import opened IsochRanges

  const NUM_SLOTS := 128
  const UNSET_SLOT := 129

  class DoneTD {
    /** The ring slots of its frames. */
    const ranges: seq<SlotRange>
    /** Towards the TD that was completed just before this one; stale in the oldest on the list. */
    var doneQueueLink: DoneTD?
    var logicalNext: DoneTD?

    constructor (ranges: seq<SlotRange>)
      ensures this.ranges == ranges
    {
      this.ranges := ranges;
      doneQueueLink, logicalNext := null, null;
    }

    /** The slot belongs to one of its frames. */
    predicate Owns(i: int) {
      FrameOf(ranges, i) >= 0
    }
  }

  /** Where the interrupt is in its walk over the slots. */
  datatype Producer = Waiting | Walking(testSlot: nat, stopSlot: nat, cachedHead: DoneTD?, cachedProducer: nat)

  /** Where the thread is in turning the list round and returning its TDs. */
  datatype Consumer =
    | Resting
    | Reversing(td: DoneTD, prev: DoneTD?, cachedProducer: nat, cachedConsumer: nat)
    | Returning(next: DoneTD?)

  function Slot(first: nat, k: nat): nat {
    if first + k < NUM_SLOTS then first + k else first + k - NUM_SLOTS
  }

  ghost predicate AllIn<T>(s: seq<T>, t: set<T>) {
    forall i :: 0 <= i < |s| ==> s[i] in t
  }

  function Last(s: seq<DoneTD>, n: nat): DoneTD?
    requires n <= |s|
  {
    if n == 0 then null else s[n - 1]
  }

  /** The TD completed after the j-th one of the first n. */
  function After(s: seq<DoneTD>, j: nat, n: nat): DoneTD?
    requires j < n <= |s|
  {
    if j == n - 1 then null else s[j + 1]
  }

  /** The TDs that occupy the slots from `first` on. */
  ghost predicate SlotsHold(slots: seq<DoneTD?>, first: nat, inSlot: nat, outSlot: nat, scheduled: seq<DoneTD>) {
    && |slots| == NUM_SLOTS && first < NUM_SLOTS && |scheduled| < NUM_SLOTS
    && (forall k :: 0 <= k < |scheduled| ==> slots[Slot(first, k)] == scheduled[k])
    && (forall k :: |scheduled| <= k < NUM_SLOTS ==> slots[Slot(first, k)] == null)
    && if outSlot >= NUM_SLOTS then inSlot == outSlot == UNSET_SLOT && first == 0 && scheduled == []
       else
         && inSlot == Slot(first, |scheduled|)
         && ((outSlot == first && scheduled != []) || (first == Slot(outSlot, 1) && |scheduled| < NUM_SLOTS - 1))
  }

  lemma NoSlots(slots: seq<DoneTD?>)
    requires |slots| == NUM_SLOTS && forall k :: 0 <= k < NUM_SLOTS ==> slots[k] == null
    ensures SlotsHold(slots, 0, UNSET_SLOT, UNSET_SLOT, [])
  {
  }

  /** Putting a TD in the next slot. */
  lemma Scheduled(slots: seq<DoneTD?>, first: nat, inSlot: nat, outSlot: nat, scheduled: seq<DoneTD>, td: DoneTD)
    requires SlotsHold(slots, first, inSlot, outSlot, scheduled)
    requires outSlot < NUM_SLOTS ==> Slot(inSlot, 1) != outSlot
    ensures var s, o := if inSlot < NUM_SLOTS then inSlot else 0, if outSlot < NUM_SLOTS then outSlot else 0;
      s < NUM_SLOTS && slots[s] == null && SlotsHold(slots[s := td], first, Slot(s, 1), o, scheduled + [td])
  {
    var s := if inSlot < NUM_SLOTS then inSlot else 0;
    assert s == Slot(first, |scheduled|);
  }

  /** Taking the first TD out of its slot. */
  lemma Unscheduled(slots: seq<DoneTD?>, first: nat, inSlot: nat, outSlot: nat, scheduled: seq<DoneTD>)
    requires SlotsHold(slots, first, inSlot, outSlot, scheduled) && scheduled != []
    ensures slots[first] == scheduled[0]
      && SlotsHold(slots[first := null], Slot(first, 1), inSlot, first, scheduled[1..])
  {
    assert Slot(first, 0) == first;
    forall k | 0 <= k < NUM_SLOTS - 1 ensures Slot(Slot(first, 1), k) == Slot(first, k + 1) != first {}
    assert Slot(Slot(first, 1), NUM_SLOTS - 1) == first;
  }

  lemma {:induction false} FitsIn<T>(s: seq<T>, t: set<T>)
    requires NoDuplicates(s) && AllIn(s, t)
    ensures |s| <= |t|
  {
    if |s| > 0 {
      var k := |s| - 1;
      FitsIn(s[..k], t - {s[k]});
    }
  }

  ghost function Elements<T>(s: seq<T>): set<T> {
    set x | x in s
  }

  lemma {:induction false} FewElements<T>(s: seq<T>)
    ensures |Elements(s)| <= |s|
  {
    if |s| > 0 {
      var k := |s| - 1;
      FewElements(s[..k]);
      assert Elements(s) == Elements(s[..k]) + {s[k]};
    }
  }

  /** Counts modulo 2^32 agree only if they are equal, when fewer than 2^32 TDs are waiting. */
  lemma SameCount(a: nat, b: nat)
    requires a <= b < a + TWO_32
    ensures Low(a) == Low(b) <==> a == b
  {
  }

  lemma OwnerIs(s: seq<DoneTD>, frameOf: DoneTD -> int, n: nat)
    requires n <= |s| && (forall i :: 0 <= i < n ==> frameOf(s[i]) < 0) && (n < |s| ==> frameOf(s[n]) >= 0)
    ensures Owner(s, frameOf) == n
  {
    OwnerBehind(s, frameOf, n);
  }

  /**
   * Of the TDs `s` that were in slots the first m have been completed; the others are still in front of those in
   * slots.
   */
  ghost predicate WalkedTo(s: seq<DoneTD>, before: seq<DoneTD>, completed: seq<DoneTD>, scheduled: seq<DoneTD>,
                           m: nat) {
    m <= |s| && completed == before + s[..m] && s[m..] <= scheduled
  }

  lemma MoreScheduled(s: seq<DoneTD>, before: seq<DoneTD>, completed: seq<DoneTD>, scheduled: seq<DoneTD>, m: nat,
                      scheduled': seq<DoneTD>)
    requires WalkedTo(s, before, completed, scheduled, m) && scheduled <= scheduled'
    ensures WalkedTo(s, before, completed, scheduled', m)
  {
  }

  lemma OneCompleted(s: seq<DoneTD>, before: seq<DoneTD>, completed: seq<DoneTD>, scheduled: seq<DoneTD>, m: nat,
                     scheduled': seq<DoneTD>)
    requires WalkedTo(s, before, completed, scheduled, m) && m < |s|
    ensures scheduled != [] && scheduled[0] == s[m]
    ensures scheduled[1..] <= scheduled' ==> WalkedTo(s, before, completed + scheduled[..1], scheduled', m + 1)
  {
    assert s[m..][1..] == s[m + 1..];
  }

  /**
   * How far the thread has come: of the TDs completed, the client has taken the first `freed`, the next are on the
   * done queue, `returned` in all; when it last looked, `upto` were published, and it has turned round `visited` of
   * those.
   */
  datatype Progress = Progress(
    completed: seq<DoneTD>, doneQueue: seq<DoneTD>, consumer: Consumer, freed: nat, returned: nat, upto: nat,
      visited: nat,
    published: nat, consumerCount: nat, onProducerQ: int, onReversedList: int)
  {
    /** How many TDs the thread no longer needs the links of. */
    function Consumed(): nat {
      if consumer.Returning? then upto else returned
    }

    /** How many have been turned round. */
    function Reversed(): nat {
      if consumer.Reversing? then returned + visited else Consumed()
    }

    ghost predicate Ok() {
      && freed <= returned <= Consumed() <= Reversed() <= published <= |completed|
      && doneQueue == completed[freed..returned]
      && consumerCount == Low(Consumed())
      && onProducerQ == |completed| - Reversed() && onReversedList == Reversed() - returned
      && upto <= published && |completed| - freed < TWO_32
      && match consumer
         case Resting => true
         case Reversing(td, prev, cachedProducer, cachedConsumer) =>
           && returned + visited < upto
           && td == completed[upto - 1 - visited] && prev == (if visited == 0 then null else completed[upto - visited])
           && cachedProducer == Low(upto) && cachedConsumer == Low(returned + visited)
         case Returning(next) =>
           returned <= upto && next == if returned < upto then completed[returned] else null
    }

    lemma CompleteKeeps(td: DoneTD)
      requires Ok() && |completed| + 1 - freed < TWO_32
      ensures this.(completed := completed + [td], onProducerQ := onProducerQ + 1).Ok()
    {
      hide Low;
      assert (completed + [td])[freed..returned] == completed[freed..returned];
    }

    /** The last TD has been linked forward: the first one can be returned. */
    function TurnLast(): Progress
      requires consumer.Reversing?
    {
      this.(onProducerQ := onProducerQ - 1, onReversedList := onReversedList + 1,
            consumerCount := Low(consumer.cachedConsumer + 1), consumer := Returning(consumer.td))
    }

    /** A TD has been linked forward; `link`, the one completed before it, is next. */
    function TurnNext(link: DoneTD): Progress
      requires consumer.Reversing?
    {
      this.(onProducerQ := onProducerQ - 1, onReversedList := onReversedList + 1, visited := visited + 1,
            consumer := Reversing(link, consumer.td, consumer.cachedProducer, Low(consumer.cachedConsumer + 1)))
    }

    /** The counts agree once all TDs that were published are turned round, and not before. */
    lemma CountsMeet()
      requires Ok() && consumer.Reversing?
      ensures Low(consumer.cachedConsumer + 1) == Low(returned + visited + 1)
      ensures consumer.cachedProducer == Low(consumer.cachedConsumer + 1) <==> returned + visited + 1 == upto
    {
      CountOne(returned + visited);
      SameCount(returned + visited + 1, upto);
    }

    lemma TurnLastKeeps()
      requires Ok() && consumer.Reversing? && returned + visited + 1 == upto
      ensures TurnLast().Ok()
    {
      hide Low;
      CountsMeet();
    }

    lemma TurnNextKeeps(link: DoneTD)
      requires Ok() && consumer.Reversing? && returned + visited + 1 < upto && link == completed[upto - 2 - visited]
      ensures TurnNext(link).Ok()
    {
      hide Low;
      CountsMeet();
    }

    /** The first TD of those turned round is put on the done queue; `link` is the next one. */
    function Return(link: DoneTD?): Progress
      requires consumer.Returning? && consumer.next != null
    {
      this.(onReversedList := onReversedList - 1, doneQueue := doneQueue + [consumer.next], returned := returned + 1,
            consumer := Returning(link))
    }

    lemma ReturnKeeps(link: DoneTD?)
      requires Ok() && consumer.Returning? && consumer.next != null
      requires link == if returned + 1 < upto then completed[returned + 1] else null
      ensures Return(link).Ok()
    {
      hide Low;
      assert completed[freed..returned + 1] == completed[freed..returned] + [completed[returned]];
    }
  }

  lemma CountOne(n: nat)
    ensures Low(Low(n) + 1) == Low(n + 1)
  {
  }

  /** Which frame of a TD an event for slot i is for; -1 if for none. */
  function FrameAt(i: int): DoneTD -> int {
    (td: DoneTD) => FrameOf(td.ranges, i)
  }

  /** No slot belongs to two of these TDs. */
  ghost predicate DisjointTDs(s: seq<DoneTD>) {
    forall j, k, i :: 0 <= j < k < |s| && s[j].Owns(i) ==> !s[k].Owns(i)
  }

  /** Then the owner is the TD that the slot belongs to, and no other. */
  lemma OwnerOwns(s: seq<DoneTD>, i: int)
    requires DisjointTDs(s)
    ensures forall k :: 0 <= k < |s| ==> (s[k].Owns(i) <==> k == Owner(s, FrameAt(i)))
  {
    var o := Owner(s, FrameAt(i));
    forall k | 0 <= k < |s| ensures s[k].Owns(i) <==> k == o {
      assert FrameAt(i)(s[k]) >= 0 <==> s[k].Owns(i);
      if o < k { assert FrameAt(i)(s[o]) >= 0; }
    }
  }

  /** The first of the TDs that owns an event; `frameOf` says which frame of a TD does. */
  function Owner(s: seq<DoneTD>, frameOf: DoneTD -> int): (k: nat)
    ensures k <= |s| && (k < |s| ==> frameOf(s[k]) >= 0) && forall i :: 0 <= i < k ==> frameOf(s[i]) < 0
  {
    if s == [] || frameOf(s[0]) >= 0 then 0 else 1 + Owner(s[1..], frameOf)
  }

  /** How many TDs an event completes: those in front of its owner, and the owner if the event is for its last frame. */
  function Completes(s: seq<DoneTD>, frameOf: DoneTD -> int): nat {
    var k := Owner(s, frameOf);
    if k < |s| && frameOf(s[k]) == |s[k].ranges| - 1 then k + 1 else k
  }

  lemma {:induction false} OwnerBehind(s: seq<DoneTD>, frameOf: DoneTD -> int, n: nat)
    requires n <= |s| && forall i :: 0 <= i < n ==> frameOf(s[i]) < 0
    ensures Owner(s, frameOf) == n + Owner(s[n..], frameOf)
    decreases n
  {
    if n > 0 {
      OwnerBehind(s[1..], frameOf, n - 1);
      assert s[1..][n - 1..] == s[n..];
    }
  }

  class IsochEndpoint {
    const tdSlots: array<DoneTD?>
    var inSlot: nat
    var outSlot: nat
    var savedDoneQueueHead: DoneTD?
    var producerCount: nat
    var consumerCount: nat
    var onProducerQ: int
    var onReversedList: int
    /** What the client of the endpoint can take. */
    var doneQueue: seq<DoneTD>

    /** The TDs that the client of the endpoint has. */
    var pool: seq<DoneTD>

    var producer: Producer
    var consumer: Consumer

    /** The TDs in slots, oldest first, and the slot of the oldest. */
    ghost var scheduled: seq<DoneTD>
    ghost var first: nat
    /** All TDs ever completed, in order; how many were published, put on the done queue, and taken from it. */
    ghost var completed: seq<DoneTD>
    ghost var published: nat
    ghost var returned: nat
    ghost var freed: nat
    /** The TDs that lie in front of the slot where the interrupt stops. */
    ghost var left: nat
    /** How many TDs had been published when the thread looked, and how many of those it has turned round. */
    ghost var upto: nat
    ghost var visited: nat
    /** All TDs there are. */
    ghost var tds: set<DoneTD>

    ghost function State(): Progress
      reads this`completed, this`doneQueue, this`consumer, this`freed, this`returned, this`upto, this`visited,
            this`published, this`consumerCount, this`onProducerQ, this`onReversedList
    {
      Progress(completed, doneQueue, consumer, freed, returned, upto, visited, published, consumerCount, onProducerQ,
               onReversedList)
    }

    ghost predicate SlotsOk()
      reads tdSlots, this`inSlot, this`outSlot, this`scheduled, this`first
    {
      SlotsHold(tdSlots[..], first, inSlot, outSlot, scheduled)
    }

    ghost predicate ProducerOk()
      reads this`completed, this`published, this`producer, this`producerCount, this`savedDoneQueueHead, this`first,
        this`outSlot,
            this`scheduled, this`left
    {
      && published <= |completed|
      && producerCount == Low(published) && savedDoneQueueHead == Last(completed, published)
      && match producer
         case Waiting => published == |completed|
         case Walking(testSlot, stopSlot, cachedHead, cachedProducer) =>
           && cachedHead == Last(completed, |completed|) && cachedProducer == Low(|completed|)
           && left <= |scheduled| && stopSlot == Slot(first, left) && outSlot < NUM_SLOTS
           && (testSlot == first || testSlot == outSlot)
    }

    /** The links of the TDs completed behind this one are still needed. */
    ghost function Needed(): int
      reads this`consumer, this`returned, this`upto
    {
      if consumer.Returning? then upto else returned
    }

    /** The TDs from this one on, up to `upto`, have been turned round. */
    ghost function From(): int
      reads this`consumer, this`returned, this`upto, this`visited
    {
      if consumer.Reversing? then upto - visited else if consumer.Returning? then returned else upto
    }

    /** The list of TDs completed, from the newest back to the oldest whose link is still needed. */
    ghost predicate LinksOk()
      reads this`completed, this`consumer, this`returned, this`upto, completed`doneQueueLink
    {
      forall j :: Needed() < j < |completed| ==> completed[j].doneQueueLink == completed[j - 1]
    }

    /** The part of it that has been turned round. */
    ghost predicate TurnedOk()
      reads this`completed, this`consumer, this`returned, this`upto, this`visited, completed`logicalNext
    {
      0 <= From() <= upto <= |completed| && TurnedRound(From(), upto)
    }

    ghost predicate TurnedRound(from: int, to: int)
      requires 0 <= from <= to <= |completed|
      reads this`completed, completed`logicalNext
    {
      forall j :: from <= j < to ==> completed[j].logicalNext == After(completed, j, to)
    }

    /** No TD is in two places. */
    ghost predicate Apart()
      reads this`completed, this`freed, this`scheduled, this`pool, this`tds
    {
      && freed <= |completed| && |tds| < TWO_32
      && NoDuplicates(completed[freed..] + scheduled + pool) && AllIn(completed[freed..] + scheduled + pool, tds)
    }

    ghost predicate Valid()
      reads this, tdSlots, completed`doneQueueLink, completed`logicalNext
    {
      SlotsOk() && State().Ok() && ProducerOk() && LinksOk() && TurnedOk() && Apart()
    }

    constructor (pool: seq<DoneTD>)
      requires NoDuplicates(pool) && |pool| < TWO_32
      ensures Valid() && doneQueue == [] && scheduled == [] && completed == [] && producer == Waiting
        && consumer == Resting && this.pool == pool
    {
      hide SlotsHold, Progress.Ok, LinksOk, TurnedOk, Apart, ProducerOk, NoDuplicates;
      tdSlots := new DoneTD?[NUM_SLOTS](_ => null);
      inSlot, outSlot, savedDoneQueueHead, producerCount, consumerCount := UNSET_SLOT, UNSET_SLOT, null, 0, 0;
      onProducerQ, onReversedList, doneQueue, producer, consumer := 0, 0, [], Waiting, Resting;
      this.pool := pool;
      scheduled, first, completed, published, returned, freed, tds := [], 0, [], 0, 0, 0, Elements(pool);
      left, upto, visited := 0, 0, 0;
      new;
      NoSlots(tdSlots[..]);
      NothingDone();
    }

    lemma NothingDone()
      requires completed == [] && doneQueue == [] && published == returned == freed == upto == visited == 0
        && scheduled == []
      requires producer == Waiting && consumer == Resting && onProducerQ == onReversedList == 0
      requires NoDuplicates(pool) && |pool| < TWO_32 && tds == Elements(pool)
      requires producerCount == consumerCount == 0 && savedDoneQueueHead == null
      ensures State().Ok() && LinksOk() && TurnedOk() && Apart() && ProducerOk()
    {
      FewElements(pool);
      assert completed[freed..] + scheduled + pool == pool;
    }

    lemma Waiting32()
      requires Apart()
      ensures |completed| - freed + |scheduled| < TWO_32
    {
      FitsIn(completed[freed..] + scheduled + pool, tds);
    }

    // ---- the thread that schedules ----

    /** A TD of the client is put into the next slot, unless all but one or two slots are taken. */
    method Schedule() returns (put: bool)
      requires Valid() && pool != []
      modifies tdSlots, this`inSlot, this`outSlot, this`scheduled, this`pool
      ensures Valid() && (!put ==> |scheduled| >= NUM_SLOTS - 2)
      ensures if put then scheduled == old(scheduled) + [old(pool)[0]] && pool == old(pool)[1..]
              else scheduled == old(scheduled) && pool == old(pool)
    {
      hide SlotsOk, LinksOk, TurnedOk, Progress.Ok, NoDuplicates, AllIn;
      SlotRange();
      var td := pool[0];
      assert completed[freed..] + (scheduled + [td]) + pool[1..] == completed[freed..] + scheduled + pool;
      put := PutInSlot(td);
      if put { pool := pool[1..]; }
    }

    method PutInSlot(td: DoneTD) returns (put: bool)
      requires SlotsOk()
      modifies tdSlots, this`inSlot, this`outSlot, this`scheduled
      ensures SlotsOk() && scheduled == if put then old(scheduled) + [td] else old(scheduled)
      ensures !put ==> |scheduled| >= NUM_SLOTS - 2
      ensures old(outSlot) < NUM_SLOTS ==> outSlot == old(outSlot)
    {
      hide SlotsHold;
      SlotRange();
      if inSlot < NUM_SLOTS && (inSlot == outSlot || (inSlot + 1) % NUM_SLOTS == outSlot) {
        return false;
      }
      var slot := if inSlot < NUM_SLOTS then inSlot else 0;
      Scheduled(tdSlots[..], first, inSlot, outSlot, scheduled, td);
      if tdSlots[slot] != null {
        return false;
      }
      if outSlot >= NUM_SLOTS {
        outSlot := 0;
      }
      tdSlots[slot] := td;
      inSlot := (slot + 1) % NUM_SLOTS;
      scheduled := scheduled + [td];
      put := true;
    }

    lemma SlotRange()
      requires SlotsOk()
      ensures tdSlots.Length == NUM_SLOTS && first < NUM_SLOTS && |scheduled| < NUM_SLOTS
        && (inSlot >= NUM_SLOTS <==> outSlot >= NUM_SLOTS)
      ensures inSlot < NUM_SLOTS ==>
        inSlot == Slot(first, |scheduled|) && (outSlot == first || first == Slot(outSlot, 1))
      ensures inSlot < NUM_SLOTS && (inSlot == outSlot || (inSlot + 1) % NUM_SLOTS == outSlot) ==>
        |scheduled| >= NUM_SLOTS - 2
    {
    }

    // ---- the interrupt ----

    /** The interrupt starts to walk over the slots that are occupied now. */
    method WalkBegin() returns (walking: bool)
      requires Valid() && producer == Waiting
      modifies this`producer, this`left
      ensures Valid() && walking == producer.Walking?
      ensures walking ==> left == |scheduled| && (producer.testSlot == producer.stopSlot ==> scheduled == [])
      ensures !walking ==> producer == Waiting && scheduled == []
    {
      hide LinksOk, TurnedOk, Progress.Ok, Apart;
      if outSlot > 127 {
        NothingScheduled();
        return false;
      }
      SlotRange();
      producer := Walking(outSlot, inSlot % NUM_SLOTS, savedDoneQueueHead, producerCount);
      left := |scheduled|;
      walking := true;
    }

    lemma NothingScheduled()
      requires SlotsOk() && outSlot >= NUM_SLOTS
      ensures scheduled == []
    {
    }

    /**
     * One round of the walk: the TD in the slot is completed unless the event is for one of its frames other
     * than the last. `frame` is what FrameForEventIndex says of that TD.
     */
    method WalkStep(frame: int) returns (found: bool, copyEvent: bool)
      requires Valid() && producer.Walking? && producer.testSlot != producer.stopSlot
      modifies tdSlots, this`outSlot, this`producer, this`left, this`scheduled, this`first, this`completed,
        this`onProducerQ
      modifies if scheduled == [] then {} else {scheduled[0]}`doneQueueLink
      ensures Valid() && producer.Walking? && producer.stopSlot == old(producer).stopSlot
      ensures old(producer).testSlot != old(first) ==>
        && !found && copyEvent && producer.testSlot == first && scheduled == old(scheduled)
        && completed == old(completed)
        && left == old(left) && first == old(first)
      ensures old(producer).testSlot == old(first) ==>
        && old(left) > 0 && found == (frame >= 0)
        && copyEvent == (frame < 0 || frame == |old(scheduled)[0].ranges| - 1)
        && if copyEvent
           then scheduled == old(scheduled)[1..] && completed == old(completed) + old(scheduled)[..1]
                && left == old(left) - 1 && (!found ==> producer.testSlot == first)
           else scheduled == old(scheduled) && completed == old(completed)
    {
      hide SlotsOk, LinksOk, TurnedOk, Progress.Ok, Apart, ProducerOk;
      AtTestSlot();
      var td := tdSlots[producer.testSlot];
      if td == null {
        SkipSlot();
        return false, true;
      }
      found := frame >= 0;
      copyEvent := !found || frame == |td.ranges| - 1;
      if copyEvent {
        CompleteNext(td, found);
      }
    }

    /** The slot whose TD was the last one completed is empty. */
    method SkipSlot()
      requires Valid() && producer.Walking? && producer.testSlot != producer.stopSlot && producer.testSlot != first
      modifies this`producer
      ensures Valid() && producer.Walking? && producer.stopSlot == old(producer).stopSlot && producer.testSlot == first
    {
      hide SlotsOk, LinksOk, TurnedOk, Progress.Ok, Apart;
      AtTestSlot();
      producer := producer.(testSlot := (producer.testSlot + 1) % NUM_SLOTS);
    }

    /** The TD in the slot is completed; the walk goes on behind it unless the event was for it. */
    method CompleteNext(td: DoneTD, found: bool)
      requires Valid() && producer.Walking? && producer.testSlot == first && left > 0 && scheduled != []
        && td == scheduled[0]
      modifies tdSlots, this`outSlot, this`producer, this`left, this`scheduled, this`first, this`completed,
        this`onProducerQ, td`doneQueueLink
      ensures Valid() && producer.Walking? && producer.stopSlot == old(producer).stopSlot
      ensures scheduled == old(scheduled)[1..] && completed == old(completed) + [td] && left == old(left) - 1
      ensures !found ==> producer.testSlot == first
    {
      hide SlotsOk, LinksOk, TurnedOk, Progress.Ok, Apart, Low;
      SlotRange();
      CountOne(|completed|);
      var testSlot, stopSlot, cachedProducer := producer.testSlot, producer.stopSlot, producer.cachedProducer;
      CompleteFirst(td, testSlot, producer.cachedHead);
      producer :=
        Walking(if found then testSlot else (testSlot + 1) % NUM_SLOTS, stopSlot, td, Low(cachedProducer + 1));
      left := left - 1;
    }

    lemma AtTestSlot()
      requires SlotsOk() && ProducerOk() && producer.Walking? && producer.testSlot != producer.stopSlot
      ensures tdSlots.Length == NUM_SLOTS && producer.testSlot < NUM_SLOTS && first < NUM_SLOTS
      ensures if producer.testSlot == first then scheduled != [] && left > 0 && tdSlots[first] == scheduled[0]
              else tdSlots[producer.testSlot] == null && (producer.testSlot + 1) % NUM_SLOTS == first
    {
      if producer.testSlot == first {
        assert Slot(first, 0) == first;
        if scheduled != [] { assert tdSlots[Slot(first, 0)] == scheduled[0]; }
      } else {
        assert Slot(first, NUM_SLOTS - 1) == producer.testSlot;
        assert tdSlots[Slot(first, NUM_SLOTS - 1)] == null;
      }
    }

    /** The oldest TD in a slot is put in front of the list of those completed. */
    method CompleteFirst(td: DoneTD, testSlot: nat, cachedHead: DoneTD?)
      requires SlotsOk() && State().Ok() && LinksOk() && TurnedOk() && Apart()
      requires scheduled != [] && td == scheduled[0] && testSlot == first && cachedHead == Last(completed, |completed|)
      modifies tdSlots, this`outSlot, this`scheduled, this`first, this`completed, this`onProducerQ, td`doneQueueLink
      ensures SlotsOk() && State().Ok() && LinksOk() && TurnedOk() && Apart()
      ensures scheduled == old(scheduled)[1..] && completed == old(completed) + [td]
      ensures old(first) < NUM_SLOTS && first == Slot(old(first), 1) && outSlot == old(first)
    {
      hide SlotsOk, LinksOk, TurnedOk, Progress.Ok, NoDuplicates;
      InOrder();
      Waiting32();
      FirstApart();
      State().CompleteKeeps(td);
      TakeSlot(testSlot);
      td.doneQueueLink := cachedHead;
      onProducerQ := onProducerQ + 1;
      completed := completed + [td];
      LinksLonger();
      TurnedLonger();
    }

    lemma InOrder()
      requires State().Ok()
      ensures freed <= returned <= Needed() <= published <= |completed| && upto <= published
    {
    }

    /** The oldest TD's slot becomes free, and is where the next walk starts. */
    method TakeSlot(testSlot: nat)
      requires SlotsOk() && scheduled != [] && testSlot == first
      modifies tdSlots, this`outSlot, this`scheduled, this`first
      ensures SlotsOk() && scheduled == old(scheduled)[1..]
      ensures old(first) < NUM_SLOTS && first == Slot(old(first), 1) && outSlot == old(first)
    {
      hide SlotsHold;
      SlotRange();
      Unscheduled(tdSlots[..], first, inSlot, outSlot, scheduled);
      tdSlots[testSlot] := null;
      outSlot := testSlot;
      scheduled, first := scheduled[1..], Slot(first, 1);
    }

    /** The newest TD completed is linked to the one before it. */
    twostate lemma LinksLonger()
      requires old(LinksOk()) && unchanged(`consumer, `returned, `upto, `freed)
      requires freed <= Needed() <= |old(completed)|
      requires |completed| == |old(completed)| + 1 && completed[..|old(completed)|] == old(completed)
      requires completed[|old(completed)|].doneQueueLink == Last(old(completed), |old(completed)|)
      requires forall j :: freed <= j < |old(completed)| ==>
        completed[j].doneQueueLink == old(completed[j].doneQueueLink)
      ensures LinksOk()
    {
      forall j | Needed() < j < |completed| ensures completed[j].doneQueueLink == completed[j - 1] {
        if j < |old(completed)| { assert old(completed)[j].doneQueueLink == old(completed[j].doneQueueLink); }
      }
    }

    /** What is turned round stays so when more TDs are completed. */
    twostate lemma TurnedLonger()
      requires old(TurnedOk()) && unchanged(`upto, `consumer, `returned, `visited) && old(completed) <= completed
      requires forall j :: 0 <= j < |old(completed)| ==> completed[j].logicalNext == old(completed[j].logicalNext)
      ensures TurnedOk()
    {
      forall j | 0 <= j < |old(completed)| ensures completed[j] == old(completed)[j] {}
      TurnedSince(From());
    }

    /** Nor does it change what comes before. */
    twostate lemma TurnedShorter()
      requires old(TurnedOk()) && unchanged(`upto, `completed) && old(From()) <= From() <= upto
      requires forall j :: From() <= j < upto ==> completed[j].logicalNext == old(completed[j].logicalNext)
      ensures TurnedOk()
    {
      TurnedSince(From());
    }

    twostate lemma TurnedSince(from: int)
      requires old(TurnedOk()) && unchanged(`upto) && old(completed) <= completed && old(From()) <= from <= upto
      requires forall j :: from <= j < upto ==>
        completed[j].logicalNext == old(completed)[j].logicalNext == old(completed[j].logicalNext)
      ensures TurnedRound(from, upto)
    {
      forall j | from <= j < upto ensures completed[j].logicalNext == After(completed, j, upto) {
        assert old(completed[j].logicalNext == After(completed, j, upto));
      }
    }

    /** Every TD is in one place only. */
    lemma Places()
      requires Apart()
      ensures forall i, j :: freed <= i < |completed| && freed <= j < |completed| && i != j ==>
        completed[i] != completed[j]
      ensures forall i, j :: freed <= i < |completed| && 0 <= j < |scheduled| ==> completed[i] != scheduled[j]
      ensures forall i :: freed <= i < |completed| ==> completed[i] in tds
      ensures forall i :: 0 <= i < |scheduled| ==> scheduled[i] in tds
    {
      var s := completed[freed..] + scheduled + pool;
      forall i | freed <= i < |completed| ensures completed[i] == s[i - freed] {}
      forall i | 0 <= i < |scheduled| ensures scheduled[i] == s[|completed| - freed + i] {}
    }

    lemma FirstApart()
      requires Apart() && scheduled != []
      ensures forall j :: freed <= j < |completed| ==> completed[j] != scheduled[0]
      ensures (completed + [scheduled[0]])[freed..] + scheduled[1..] + pool == completed[freed..] + scheduled + pool
    {
      Places();
    }

    /** The interrupt makes what it has completed known. */
    method Publish()
      requires Valid() && producer.Walking?
      modifies this`producer, this`savedDoneQueueHead, this`producerCount, this`published
      ensures Valid() && producer == Waiting && published == |completed|
    {
      hide SlotsOk, LinksOk, TurnedOk, Apart, Low;
      savedDoneQueueHead := producer.cachedHead;
      producerCount := producer.cachedProducer;
      published := |completed|;
      producer := Waiting;
    }

    // ---- the thread that returns ----

    /** The thread looks how many TDs have been published, and whether there are any that it has not returned. */
    method ConsumeBegin() returns (some: bool)
      requires Valid() && consumer == Resting
      modifies this`consumer, this`upto, this`visited
      ensures Valid() && some == (returned < published)
      ensures if some then consumer.Reversing? && visited == 0 && upto == published else consumer == Resting
    {
      hide SlotsOk, Apart, Low;
      SameCount(returned, published);
      var td := savedDoneQueueHead;
      if td == null || consumerCount == producerCount {
        return false;
      }
      upto, visited := published, 0;
      consumer := Reversing(td, null, producerCount, consumerCount);
      some := true;
    }

    /** One TD is turned round: one that has not been returned. */
    method ReverseOne()
      requires Valid() && consumer.Reversing?
      modifies this`consumer, this`visited, this`consumerCount, this`onProducerQ, this`onReversedList,
        consumer.td`logicalNext
      ensures Valid() && old(consumer).td !in doneQueue
      ensures if old(visited) + 1 < upto - returned then consumer.Reversing? && visited == old(visited) + 1
              else consumer.Returning?
    {
      Turn();
      Advance();
    }

    /** It is linked to the TD completed after it. */
    method Turn()
      requires Valid() && consumer.Reversing?
      modifies consumer.td`logicalNext
      ensures Valid() && consumer.td !in doneQueue && 0 <= From() - 1 < upto <= |completed|
        && TurnedRound(From() - 1, upto)
    {
      hide SlotsOk, ProducerOk, LinksOk, Apart, Progress.Ok, Low, TurnedRound;
      InOrder();
      NextToReverse();
      NotReturned();
      consumer.td.logicalNext := consumer.prev;
      TurnedSince(From());
      OneMore(From() - 1);
    }

    lemma OneMore(from: int)
      requires 0 <= from < upto <= |completed| && TurnedRound(from + 1, upto)
      requires completed[from].logicalNext == After(completed, from, upto)
      ensures TurnedRound(from, upto)
    {
    }

    /** It is counted, and the next one is due, or the first one to be returned. */
    method Advance()
      requires Valid() && consumer.Reversing? && 0 <= From() - 1 < upto <= |completed| && TurnedRound(From() - 1, upto)
      modifies this`consumer, this`visited, this`consumerCount, this`onProducerQ, this`onReversedList
      ensures Valid()
      ensures if old(visited) + 1 < upto - returned then consumer.Reversing? && visited == old(visited) + 1
              else consumer.Returning?
    {
      hide SlotsOk, ProducerOk, LinksOk, TurnedOk, Apart, Progress.Ok, Low, TurnedRound;
      NextToReverse();
      if consumer.cachedProducer == Low(consumer.cachedConsumer + 1) {
        AdvanceLast();
      } else {
        AdvanceNext();
      }
    }

    method AdvanceLast()
      requires Valid() && consumer.Reversing? && returned + visited + 1 == upto <= |completed|
        && TurnedRound(returned, upto)
      modifies this`consumer, this`consumerCount, this`onProducerQ, this`onReversedList
      ensures Valid() && consumer.Returning?
    {
      hide SlotsOk, ProducerOk, LinksOk, Apart, Progress.Ok, Low, TurnedRound;
      InOrder();
      State().TurnLastKeeps();
      onProducerQ := onProducerQ - 1;
      onReversedList := onReversedList + 1;
      consumerCount := Low(consumer.cachedConsumer + 1);
      consumer := Returning(consumer.td);
      LinksFewer();
    }

    method AdvanceNext()
      requires Valid() && consumer.Reversing? && returned + visited + 1 < upto <= |completed|
        && TurnedRound(upto - visited - 1, upto)
      modifies this`consumer, this`visited, this`onProducerQ, this`onReversedList
      ensures Valid() && consumer.Reversing? && visited == old(visited) + 1
    {
      hide SlotsOk, ProducerOk, LinksOk, Apart, Progress.Ok, Low, TurnedRound;
      InOrder();
      NextToReverse();
      var td, cachedProducer, cachedConsumer := consumer.td, consumer.cachedProducer, consumer.cachedConsumer;
      State().TurnNextKeeps(td.doneQueueLink);
      onProducerQ := onProducerQ - 1;
      onReversedList := onReversedList + 1;
      visited := visited + 1;
      consumer := Reversing(td.doneQueueLink, td, cachedProducer, Low(cachedConsumer + 1));
      LinksFewer();
    }

    /** The link of the TD being turned round is followed only if there is another one to be turned round. */
    lemma NextToReverse()
      requires State().Ok() && LinksOk() && consumer.Reversing?
      ensures consumer.cachedProducer == Low(consumer.cachedConsumer + 1) <==> returned + visited + 1 == upto
      ensures returned + visited < upto && consumer.td == completed[upto - 1 - visited]
      ensures consumer.prev == if visited == 0 then null else completed[upto - visited]
      ensures returned + visited + 1 < upto ==> consumer.td.doneQueueLink == completed[upto - 2 - visited]
    {
      State().CountsMeet();
    }

    /** The TD that is being turned round differs from all others, and is not on the done queue. */
    lemma NotReturned()
      requires State().Ok() && Apart() && consumer.Reversing?
      ensures consumer.td !in doneQueue
      ensures forall j :: freed <= j < |completed| && j != upto - 1 - visited ==> completed[j] != consumer.td
    {
      hide Low, Apart;
      Places();
      forall j | 0 <= j < |doneQueue| ensures doneQueue[j] != consumer.td {
        assert doneQueue[j] == completed[freed + j];
      }
    }

    /** Fewer links are needed than before, and none has changed. */
    twostate lemma LinksFewer()
      requires old(LinksOk()) && unchanged(`completed)
      requires 0 <= old(Needed()) <= Needed()
      requires forall j :: 0 <= j < |completed| ==> completed[j].doneQueueLink == old(completed[j].doneQueueLink)
      ensures LinksOk()
    {
    }

    /** One TD is put on the done queue. */
    method ReturnOne() returns (done: bool)
      requires Valid() && consumer.Returning?
      modifies this`consumer, this`returned, this`doneQueue, this`onReversedList,
        (if consumer.next == null then {} else {consumer.next})`logicalNext
      ensures Valid()
      ensures done ==>
        consumer == Resting && old(returned) == upto && doneQueue == old(doneQueue) && returned == old(returned)
      ensures !done ==>
        && old(returned) < upto <= |completed| && returned == old(returned) + 1 && consumer.Returning?
        && doneQueue == old(doneQueue) + [completed[old(returned)]]
    {
      var td := consumer.next;
      if td == null {
        Finish();
        return true;
      }
      ReturnNext(td);
      done := false;
    }

    method Finish()
      requires Valid() && consumer.Returning? && consumer.next == null
      modifies this`consumer
      ensures Valid() && consumer == Resting && returned == upto
    {
      hide SlotsOk, ProducerOk, Apart, Low;
      consumer := Resting;
    }

    method ReturnNext(td: DoneTD)
      requires Valid() && consumer.Returning? && consumer.next == td
      modifies this`consumer, this`returned, this`doneQueue, this`onReversedList, td`logicalNext
      ensures Valid() && old(returned) < upto <= |completed| && returned == old(returned) + 1 && consumer.Returning?
      ensures doneQueue == old(doneQueue) + [completed[old(returned)]]
    {
      hide SlotsOk, ProducerOk, LinksOk, TurnedOk, Apart, Progress.Ok, Low;
      InOrder();
      NextNotReturned();
      State().ReturnKeeps(td.logicalNext);
      var next := td.logicalNext;
      td.logicalNext := null;
      onReversedList := onReversedList - 1;
      doneQueue := doneQueue + [td];
      returned := returned + 1;
      consumer := Returning(next);
      LinksFewer();
      TurnedShorter();
    }

    lemma NextNotReturned()
      requires State().Ok() && TurnedOk() && Apart() && consumer.Returning? && consumer.next != null
      ensures returned < upto && consumer.next == completed[returned]
      ensures consumer.next.logicalNext == if returned + 1 < upto then completed[returned + 1] else null
      ensures forall j :: freed <= j < |completed| && j != returned ==> completed[j] != consumer.next
    {
      hide Low;
      assert completed[returned].logicalNext == After(completed, returned, upto);
      Places();
    }

    /** The client takes the oldest TD from the done queue, and may have it scheduled again. */
    method TakeDone() returns (td: DoneTD)
      requires Valid() && doneQueue != []
      modifies this`doneQueue, this`freed, this`pool
      ensures Valid() && td == old(doneQueue)[0] && doneQueue == old(doneQueue)[1..] && pool == old(pool) + [td]
    {
      hide SlotsOk, LinksOk, TurnedOk, ProducerOk, Low;
      FirstDone();
      td := doneQueue[0];
      doneQueue := doneQueue[1..];
      freed := freed + 1;
      pool := pool + [td];
    }

    lemma FirstDone()
      requires State().Ok() && Apart() && doneQueue != []
      ensures completed[freed..returned][1..] == completed[freed + 1..returned]
      ensures NoDuplicates(completed[freed + 1..] + scheduled + (pool + [doneQueue[0]]))
      ensures AllIn(completed[freed + 1..] + scheduled + (pool + [doneQueue[0]]), tds)
    {
      hide Low;
      var s := completed[freed..] + scheduled + pool;
      assert completed[freed + 1..] + scheduled + (pool + [doneQueue[0]]) == s[1..] + [s[0]];
    }

    // ---- any interleaving ----

    /** One step of the thread, whatever it is doing, or of the client. */
    method ThreadStep(choice: int)
      requires Valid()
      modifies tdSlots, this`inSlot, this`outSlot, this`scheduled, this`pool, this`consumer, this`upto, this`visited,
        this`consumerCount
      modifies this`onProducerQ, this`onReversedList, this`returned, this`doneQueue, this`freed, tds`logicalNext
      ensures Valid() && old(scheduled) <= scheduled
    {
      hide SlotsOk, ProducerOk, LinksOk, TurnedOk, Apart, Progress.Ok;
      InTds();
      if choice == 0 && |pool| > 0 {
        var put := Schedule();
      } else if choice == 1 && |doneQueue| > 0 {
        var td := TakeDone();
      } else {
        match consumer
        case Reversing(_, _, _, _) => ReverseOne();
        case Returning(_) => var done := ReturnOne();
        case Resting => var some := ConsumeBegin();
      }
    }

    lemma InTds()
      requires State().Ok() && Apart()
      ensures scheduled != [] ==> scheduled[0] in tds
      ensures consumer.Reversing? ==> consumer.td in tds
      ensures consumer.Returning? && consumer.next != null ==> consumer.next in tds
    {
      hide Low, Apart;
      Places();
    }

    method ThreadRuns()
      requires Valid()
      modifies tdSlots, this`inSlot, this`outSlot, this`scheduled, this`pool, this`consumer, this`upto, this`visited,
        this`consumerCount
      modifies this`onProducerQ, this`onReversedList, this`returned, this`doneQueue, this`freed, tds`logicalNext
      ensures Valid() && old(scheduled) <= scheduled
    {
      hide SlotsOk, ProducerOk, LinksOk, TurnedOk, Apart, Progress.Ok;
      var steps: nat := *;
      while steps > 0
        invariant Valid() && old(scheduled) <= scheduled
      {
        var choice: int := *;
        ThreadStep(choice);
        steps := steps - 1;
      }
    }

    /**
     * The part of processTransferEvent for a transfer that has run, with the thread running in between its
     * steps: of the TDs in slots, all in front of the one that the event is for are completed, in order,
     * and that one too if the event is for its last frame.
     */
    method ProcessTransferEvent(index: int) returns (copyEvent: bool)
      requires Valid() && producer == Waiting
      modifies tdSlots, this`inSlot, this`outSlot, this`scheduled, this`pool, this`consumer, this`upto, this`visited,
        this`consumerCount
      modifies this`onProducerQ, this`onReversedList, this`returned, this`doneQueue, this`freed, tds`logicalNext,
        tds`doneQueueLink
      modifies this`producer, this`left, this`first, this`completed, this`savedDoneQueueHead, this`producerCount,
        this`published
      ensures Valid() && producer == Waiting && published == |completed|
      ensures var n := Completes(old(scheduled), FrameAt(index));
        && n <= |old(scheduled)| && completed == old(completed) + old(scheduled)[..n]
        && old(scheduled)[n..] <= scheduled
        && copyEvent ==
          (Owner(old(scheduled), FrameAt(index)) < |old(scheduled)| ==> n > Owner(old(scheduled), FrameAt(index)))
      ensures DisjointTDs(old(scheduled)) ==>
        forall k :: 0 <= k < |old(scheduled)| ==>
          (old(scheduled)[k].Owns(index) <==> k == Owner(old(scheduled), FrameAt(index)))
    {
      hide SlotsOk, ProducerOk, LinksOk, TurnedOk, Apart, Progress.Ok, Owner;
      if DisjointTDs(scheduled) { OwnerOwns(scheduled, index); }
      PublishedSoFar();
      var walking := WalkBegin();
      if !walking {
        return true;
      }
      copyEvent := WalkAll(FrameAt(index));
      Publish();
    }

    /** The walk. */
    method WalkAll(frameOf: DoneTD -> int) returns (copyEvent: bool)
      requires Valid() && producer.Walking? && left == |scheduled|
      modifies tdSlots, this`inSlot, this`outSlot, this`scheduled, this`pool, this`consumer, this`upto, this`visited,
        this`consumerCount
      modifies this`onProducerQ, this`onReversedList, this`returned, this`doneQueue, this`freed, tds`logicalNext,
        tds`doneQueueLink
      modifies this`producer, this`left, this`first, this`completed
      ensures Valid() && producer.Walking?
      ensures var n := Completes(old(scheduled), frameOf);
        && n <= |old(scheduled)| && completed == old(completed) + old(scheduled)[..n]
        && old(scheduled)[n..] <= scheduled
        && copyEvent == (Owner(old(scheduled), frameOf) < |old(scheduled)| ==> n > Owner(old(scheduled), frameOf))
    {
      hide SlotsOk, ProducerOk, LinksOk, TurnedOk, Apart, Progress.Ok, Owner, WalkedTo;
      copyEvent := true;
      var found := false;
      ghost var n, s, before := 0, scheduled, completed;
      NotWalked(s, before);
      while !found && producer.testSlot != producer.stopSlot
        invariant Valid() && producer.Walking? && n <= |s| && forall i :: 0 <= i < n ==> frameOf(s[i]) < 0
        invariant !found ==> left == |s| - n && copyEvent
        invariant found ==> n < |s| && frameOf(s[n]) >= 0 && copyEvent == (frameOf(s[n]) == |s[n].ranges| - 1)
        invariant WalkedTo(s, before, completed, scheduled, if found && copyEvent then n + 1 else n)
        decreases !found, left, if producer.testSlot == first then 0 else 1
      {
        ghost var skipped, was, done := producer.testSlot != first, scheduled, completed;
        found, copyEvent := Round(frameOf);
        if !skipped { OneCompleted(s, before, done, was, n, scheduled); }
        if was <= scheduled { MoreScheduled(s, before, done, was, n, scheduled); }
        if !skipped && !found { n := n + 1; }
      }
      if !found { AtStop(); }
      Walked(s, before, if found && copyEvent then n + 1 else n);
      OwnerIs(s, frameOf, n);
    }

    lemma NotWalked(s: seq<DoneTD>, before: seq<DoneTD>)
      requires s == scheduled && before == completed
      ensures WalkedTo(s, before, completed, scheduled, 0)
    {
    }

    lemma Walked(s: seq<DoneTD>, before: seq<DoneTD>, m: nat)
      requires WalkedTo(s, before, completed, scheduled, m)
      ensures m <= |s| && completed == before + s[..m] && s[m..] <= scheduled
    {
    }

    lemma AtStop()
      requires Valid() && producer.Walking? && producer.testSlot == producer.stopSlot
      ensures left == 0
    {
      hide LinksOk, TurnedOk, Apart, Progress.Ok;
      SlotRange();
    }

    /** One round of the walk, with the thread running in front of it. */
    method Round(frameOf: DoneTD -> int) returns (found: bool, copyEvent: bool)
      requires Valid() && producer.Walking? && producer.testSlot != producer.stopSlot
      modifies tdSlots, this`inSlot, this`outSlot, this`scheduled, this`pool, this`consumer, this`upto, this`visited,
        this`consumerCount
      modifies this`onProducerQ, this`onReversedList, this`returned, this`doneQueue, this`freed, tds`logicalNext,
        tds`doneQueueLink
      modifies this`producer, this`left, this`first, this`completed
      ensures Valid() && producer.Walking? && producer.stopSlot == old(producer).stopSlot
      ensures old(producer).testSlot != old(first) ==>
        && !found && copyEvent && producer.testSlot == first && old(scheduled) <= scheduled
        && completed == old(completed) && left == old(left)
      ensures old(producer).testSlot == old(first) ==>
        && old(left) > 0 && old(scheduled) != []
        && var td, frame := old(scheduled)[0], frameOf(old(scheduled)[0]);
           found == (frame >= 0) && copyEvent == (frame < 0 || frame == |td.ranges| - 1)
      ensures old(producer).testSlot == old(first) ==>
        if copyEvent
        then completed == old(completed) + old(scheduled)[..1] && old(scheduled)[1..] <= scheduled
             && left == old(left) - 1
        else completed == old(completed) && old(scheduled) <= scheduled
    {
      hide SlotsOk, ProducerOk, LinksOk, TurnedOk, Apart, Progress.Ok;
      AtTestSlot();
      ThreadRuns();
      AtTestSlot();
      InTds();
      var td := tdSlots[producer.testSlot];
      var frame := if td == null then -1 else frameOf(td);
      found, copyEvent := WalkStep(frame);
    }

    /** One step of the interrupt, whatever it is doing. */
    method InterruptStep(frame: int, stop: bool)
      requires Valid()
      modifies tdSlots, this`outSlot, this`producer, this`left, this`scheduled, this`first, this`completed,
        this`onProducerQ
      modifies tds`doneQueueLink, this`savedDoneQueueHead, this`producerCount, this`published
      ensures Valid() && old(completed) <= completed && old(published) <= published
    {
      hide SlotsOk, ProducerOk, LinksOk, TurnedOk, Apart, Progress.Ok;
      InTds();
      PublishedSoFar();
      match producer
      case Waiting => var walking := WalkBegin();
      case Walking(testSlot, stopSlot, _, _) =>
        if testSlot == stopSlot || stop {
          Publish();
        } else {
          var found, copyEvent := WalkStep(frame);
        }
    }

    lemma PublishedSoFar()
      requires ProducerOk()
      ensures published <= |completed| && (producer == Waiting ==> published == |completed|)
    {
    }

    method InterruptsRun()
      requires Valid()
      modifies tdSlots, this`outSlot, this`producer, this`left, this`scheduled, this`first, this`completed,
        this`onProducerQ
      modifies tds`doneQueueLink, this`savedDoneQueueHead, this`producerCount, this`published
      ensures Valid() && old(completed) <= completed && old(published) <= published
    {
      hide SlotsOk, ProducerOk, LinksOk, TurnedOk, Apart, Progress.Ok;
      var steps: nat := *;
      while steps > 0
        invariant Valid() && old(completed) <= completed && old(published) <= published
      {
        var frame: int, stop: bool := *, *;
        InterruptStep(frame, stop);
        steps := steps - 1;
      }
    }

    /**
     * RetireIsocTransactions, with the interrupt running in between its steps: the TDs published when it
     * starts and not returned before are put on the done queue in the order in which they were completed,
     * and exactly as many links are turned round.
     */
    method RetireIsocTransactions() returns (ghost turned: nat)
      requires Valid() && consumer == Resting
      modifies tdSlots, this`outSlot, this`producer, this`left, this`scheduled, this`first, this`completed,
        this`onProducerQ
      modifies tds`doneQueueLink, this`savedDoneQueueHead, this`producerCount, this`published
      modifies this`consumer, this`upto, this`visited, this`consumerCount, this`onReversedList, this`returned,
        this`doneQueue, tds`logicalNext
      ensures Valid() && consumer == Resting && old(completed) <= completed
      ensures old(returned) <= old(published) <= |old(completed)| && returned == old(published)
        && turned == old(published - returned)
      ensures doneQueue == old(doneQueue) + old(completed)[old(returned)..old(published)]
    {
      hide SlotsOk, ProducerOk, LinksOk, TurnedOk, Apart, Progress.Ok;
      InOrder();
      turned := 0;
      var some := ConsumeBegin();
      if !some {
        return;
      }
      turned := ReverseAll();
      ReturnAll();
    }

    /** The first loop: every TD published is linked to the one completed after it. */
    method ReverseAll() returns (ghost turned: nat)
      requires Valid() && consumer.Reversing? && visited == 0
      modifies tdSlots, this`outSlot, this`producer, this`left, this`scheduled, this`first, this`completed,
        this`onProducerQ
      modifies tds`doneQueueLink, this`savedDoneQueueHead, this`producerCount, this`published
      modifies this`consumer, this`visited, this`consumerCount, this`onReversedList, tds`logicalNext
      ensures Valid() && consumer.Returning? && old(completed) <= completed && turned == upto - returned
    {
      hide SlotsOk, ProducerOk, LinksOk, TurnedOk, Apart, Progress.Ok;
      turned := 0;
      NextToReverse();
      while consumer.Reversing?
        invariant Valid() && old(completed) <= completed
        invariant if consumer.Reversing? then turned == visited < upto - returned
                  else consumer.Returning? && turned == upto - returned
        decreases if consumer.Reversing? then 1 else 0, upto - visited
      {
        InterruptsRun();
        InTds();
        ReverseOne();
        turned := turned + 1;
      }
    }

    /** The second loop: they are put on the done queue. */
    method ReturnAll()
      requires Valid() && consumer.Returning?
      modifies tdSlots, this`outSlot, this`producer, this`left, this`scheduled, this`first, this`completed,
        this`onProducerQ
      modifies tds`doneQueueLink, this`savedDoneQueueHead, this`producerCount, this`published
      modifies this`consumer, this`onReversedList, this`returned, this`doneQueue, tds`logicalNext
      ensures Valid() && consumer == Resting && old(completed) <= completed
      ensures old(returned) <= upto <= |old(completed)| && returned == upto
        && doneQueue == old(doneQueue) + old(completed)[old(returned)..upto]
    {
      hide SlotsOk, ProducerOk, LinksOk, TurnedOk, Apart, Progress.Ok;
      InOrder();
      var done := false;
      while !done
        invariant Valid() && old(completed) <= completed && old(returned) <= returned <= upto
        invariant doneQueue == old(doneQueue) + old(completed)[old(returned)..returned]
        invariant if done then consumer == Resting && returned == upto else consumer.Returning?
        decreases !done, upto - returned
      {
        InterruptsRun();
        InTds();
        done := ReturnOne();
      }
    }
  }
}
