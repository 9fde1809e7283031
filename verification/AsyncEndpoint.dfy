/** The life cycle of TDs on an asynchronous endpoint: queued, scheduled, done, free. */
module AsyncEndpoints {
  import opened Basics
  import opened TransferRings
  import opened AsyncQueue
  import opened AsyncHistory
  import opened AsyncSplit

  /**
   * The lists hold the TDs in flight: those done, then the one held, if any, then those scheduled, then those
   * queued.
   */
  ghost predicate Placed(live: seq<AsyncTD>, done: seq<AsyncTD>, holding: bool, scheduled: seq<AsyncTD>,
                         queued: seq<AsyncTD>) {
    var retired := |done| + if holding then 1 else 0;
    && |live| == retired + |scheduled| + |queued|
    && (forall k :: 0 <= k < |done| ==> done[k] == live[k])
    && (forall k :: 0 <= k < |scheduled| ==> scheduled[k] == live[retired + k])
    && (forall k :: 0 <= k < |queued| ==> queued[k] == live[retired + |scheduled| + k])
  }

  ghost predicate Apart(live: seq<AsyncTD>, free: seq<AsyncTD>) {
    && NoDuplicates(live)
    && forall i, j :: 0 <= i < |live| && 0 <= j < |free| ==> live[i] != free[j]
  }

  lemma PlacedApart(live: seq<AsyncTD>, done: seq<AsyncTD>, holding: bool, scheduled: seq<AsyncTD>,
                    queued: seq<AsyncTD>, free: seq<AsyncTD>)
    requires Placed(live, done, holding, scheduled, queued) && Apart(live, free)
    ensures forall td :: td in done ==> td !in scheduled && td !in queued && td !in free
    ensures forall td :: td in scheduled ==> td !in queued && td !in free
    ensures forall td :: td in queued ==> td !in free
    ensures holding ==> var td := live[|done|]; td !in done && td !in scheduled && td !in queued && td !in free
  {
  }

  lemma ScheduledTaken(live: seq<AsyncTD>, done: seq<AsyncTD>, scheduled: seq<AsyncTD>, queued: seq<AsyncTD>)
    requires Placed(live, done, false, scheduled, queued) && |scheduled| > 0
    ensures |done| < |live| && live[|done|] == scheduled[0] && Placed(live, done, true, scheduled[1..], queued)
  {
  }

  lemma QueuedTaken(live: seq<AsyncTD>, done: seq<AsyncTD>, queued: seq<AsyncTD>)
    requires Placed(live, done, false, [], queued) && |queued| > 0
    ensures |done| < |live| && live[|done|] == queued[0] && Placed(live, done, true, [], queued[1..])
  {
  }

  lemma HeldDone(live: seq<AsyncTD>, done: seq<AsyncTD>, scheduled: seq<AsyncTD>, queued: seq<AsyncTD>)
    requires Placed(live, done, true, scheduled, queued)
    ensures Placed(live, done + [live[|done|]], false, scheduled, queued)
  {
  }

  lemma PrefixDone(live: seq<AsyncTD>, done: seq<AsyncTD>, scheduled: seq<AsyncTD>, queued: seq<AsyncTD>, n: int)
    requires Placed(live, done, false, scheduled, queued) && 0 <= n <= |scheduled|
    ensures Placed(live, done + scheduled[..n], false, scheduled[n..], queued)
  {
  }

  lemma FirstScheduled(live: seq<AsyncTD>, done: seq<AsyncTD>, scheduled: seq<AsyncTD>, queued: seq<AsyncTD>)
    requires Placed(live, done, false, scheduled, queued) && |queued| > 0
    ensures Placed(live, done, false, scheduled + [queued[0]], queued[1..])
  {
  }

  lemma LastQueued(live: seq<AsyncTD>, done: seq<AsyncTD>, holding: bool, scheduled: seq<AsyncTD>, queued: seq<AsyncTD>,
                   td: AsyncTD)
    requires Placed(live, done, holding, scheduled, queued) && td !in live
    ensures td !in queued && Placed(live + [td], done, holding, scheduled, queued + [td])
  {
  }

  lemma AddedApart(live: seq<AsyncTD>, free: seq<AsyncTD>, td: AsyncTD)
    requires Apart(live, free) && td !in live && td !in free
    ensures Apart(live + [td], free)
  {
  }

  lemma FreeTaken(live: seq<AsyncTD>, free: seq<AsyncTD>)
    requires Apart(live, free) && |free| > 0 && NoDuplicates(free)
    ensures Apart(live, free[1..]) && free[0] !in live && free[0] !in free[1..]
  {
  }

  lemma OldestFreed(live: seq<AsyncTD>, done: seq<AsyncTD>, holding: bool, scheduled: seq<AsyncTD>,
                    queued: seq<AsyncTD>, free: seq<AsyncTD>)
    requires Placed(live, done, holding, scheduled, queued) && Apart(live, free) && |done| > 0
    ensures |live| > 0 && live[0] == done[0] && live[0] !in live[1..]
    ensures Placed(live[1..], done[1..], holding, scheduled, queued) && Apart(live[1..], free + [live[0]])
  {
  }

  /** Where the controller is told to go on from, if it is told. */
  datatype Reseat = Keep | AtEnqueue | AtIndex(index: int)

  class AsyncEndpoint {
    const queued: TDQueue
    const scheduled: TDQueue
    const done: TDQueue
    const free: TDQueue
    /** The controller reports the bytes moved since the start of the transaction, not of the TD. */
    const absoluteEDTLA: bool
    /** The size of the endpoint's transfer ring. */
    const numTRBs: nat
    var maxTDBytes: nat
    var aborting: bool
    /** What has been handed to the completer. */
    var handed: seq<Report>

    ghost var log: Log
    /** The TDs in flight, oldest first: those done, then the one held, then those scheduled, then those queued. */
    ghost var live: seq<AsyncTD>
    /** What they say. */
    ghost var facts: seq<Facts>
    /** All TDs of the endpoint. */
    ghost var tds: set<AsyncTD>
    /** An event has taken a TD off the scheduled list and not yet retired it. */
    ghost var holding: bool

    /** The number of TDs that are done or held. */
    ghost function Retired(): nat
      reads this`holding, done
    {
      |done.s| + if holding then 1 else 0
    }

    ghost predicate Separate() {
      queued != scheduled && queued != done && queued != free && scheduled != done && scheduled != free && done != free
    }

    ghost predicate Linked()
      reads queued, scheduled, done, free, queued.s`next, scheduled.s`next, done.s`next, free.s`next
    {
      && Separate()
      && queued.Valid() && scheduled.Valid() && done.Valid() && free.Valid()
    }

    ghost predicate Owned()
      reads this`live, this`tds, free
    {
      && (forall i :: 0 <= i < |live| ==> live[i] in tds)
      && (forall i :: 0 <= i < |free.s| ==> free.s[i] in tds)
    }

    lemma Owns()
      requires Lists()
      ensures forall i :: 0 <= i < |done.s| ==> done.s[i] in tds
      ensures forall i :: 0 <= i < |scheduled.s| ==> scheduled.s[i] in tds
      ensures forall i :: 0 <= i < |queued.s| ==> queued.s[i] in tds
      ensures forall i :: 0 <= i < |free.s| ==> free.s[i] in tds
    {
    }

    ghost predicate Lists()
      reads this`live, this`tds, this`holding, queued, scheduled, done, free, queued.s`next, scheduled.s`next,
        done.s`next, free.s`next
    {
      && Separate() && Linked() && Owned()
      && Placed(live, done.s, holding, scheduled.s, queued.s)
      && Apart(live, free.s)
    }

    ghost predicate Matches()
      reads this`live, this`facts, live`command, live`bytesThisTD, live`bytesFollowingThisTD,
        live`bytesPreceedingThisTD,
            live`multiTDTransaction, live`finalTDInTransaction, live`interruptThisTD, live`shortfall,
            live`absoluteShortfall
    {
      |facts| == |live| && forall k :: 0 <= k < |live| ==> live[k].Says() == facts[k]
    }

    /** The scratch word of a command holds what its completed TDs have failed to move. */
    ghost predicate Scratched()
      reads this`log, log.Commands()
    {
      && |log.moved| == |log.sub|
      && forall i :: 0 <= log.completed <= i < |log.sub| && (i == log.completed || !log.Continues(i)) ==>
           log.sub[i].command.scratch == Low(log.Carried(i))
    }

    ghost predicate Valid()
      reads this, queued, scheduled, done, free, queued.s`next, scheduled.s`next, done.s`next, free.s`next, live,
        log.Commands()
    {
      && 0x1_0000 < maxTDBytes <= MAX_FRAGMENT_SIZE
      && Lists() && Matches() && Books(log, facts, handed, Retired(), false) && Scratched()
    }

    constructor (maxPacketSize: nat, maxBurst: nat, multiple: nat, numTRBs: nat, absoluteEDTLA: bool)
      ensures Valid() && log == Log([], [], 0) && handed == [] && live == [] && !holding && !aborting
      ensures queued.s == scheduled.s == done.s == free.s == []
      ensures BurstsWithin(maxTDBytes, maxPacketSize * (1 + maxBurst) * (1 + multiple))
      ensures this.numTRBs == numTRBs && this.absoluteEDTLA == absoluteEDTLA
    {
      hide Books, Placed, Apart, Matches, Lists, Scratched, TDQueue.Valid, BurstPayload, MaxTDBytes, BurstsWithin;
      queued := new TDQueue();
      scheduled := new TDQueue();
      done := new TDQueue();
      free := new TDQueue();
      this.numTRBs, this.absoluteEDTLA := numTRBs, absoluteEDTLA;
      aborting, handed, log, live, facts, tds, holding := false, [], Log([], [], 0), [], [], {}, false;
      new;
      SetParameters(maxPacketSize, maxBurst, multiple);
      NothingYet();
    }

    /** setParameters: the most bytes of one TD. */
    method SetParameters(maxPacketSize: nat, maxBurst: nat, multiple: nat)
      modifies this`maxTDBytes
      ensures BurstsWithin(maxTDBytes, maxPacketSize * (1 + maxBurst) * (1 + multiple))
      ensures 0x1_0000 < maxTDBytes <= MAX_FRAGMENT_SIZE
    {
      PayloadWithin(maxPacketSize, maxBurst, multiple);
      hide BurstPayload, BurstsWithin;
      var payload := BurstPayload(maxPacketSize, maxBurst, multiple);
      maxTDBytes := MAX_FRAGMENT_SIZE;
      if payload != 0 && payload < MAX_FRAGMENT_SIZE {
        maxTDBytes := maxTDBytes - MAX_FRAGMENT_SIZE % payload;
      }
      TDsHoldWholeBursts(payload);
    }

    lemma NothingYet()
      requires 0x1_0000 < maxTDBytes <= MAX_FRAGMENT_SIZE && Separate()
      requires queued.Valid() && scheduled.Valid() && done.Valid() && free.Valid()
      requires queued.s == scheduled.s == done.s == free.s == live == [] && facts == [] && handed == []
        && log == Log([], [], 0) && !holding
      ensures Valid()
    {
      hide TDQueue.Valid, Books;
      EmptyBooks();
    }

    twostate lemma ScratchKept()
      requires old(Scratched()) && log == old(log)
      requires forall i :: 0 <= i < |log.sub| ==> log.sub[i].command.scratch == old(log.sub[i].command.scratch)
      ensures Scratched()
    {
    }

    twostate lemma LinksKept()
      requires old(Linked()) && queued.Undisturbed() && scheduled.Undisturbed() && done.Undisturbed()
        && free.Undisturbed()
      ensures Linked()
    {
      hide TDQueue.Valid;
      queued.Kept();
      scheduled.Kept();
      done.Kept();
      free.Kept();
    }

    twostate lemma OtherLinksKept(q: TDQueue)
      requires old(Linked()) && q in {queued, scheduled, done, free} && q.Valid()
      requires (q == queued || queued.Undisturbed()) && (q == scheduled || scheduled.Undisturbed())
      requires (q == done || done.Undisturbed()) && (q == free || free.Undisturbed())
      ensures Linked()
    {
      hide TDQueue.Valid;
      if q != queued { queued.Kept(); }
      if q != scheduled { scheduled.Kept(); }
      if q != done { done.Kept(); }
      if q != free { free.Kept(); }
    }

    /** Unlinks the head of one of the lists. */
    method Unlink(q: TDQueue) returns (td: AsyncTD?)
      requires Linked() && q in {queued, scheduled, done, free}
      modifies q
      ensures Linked() && (td == null <==> |old(q.s)| == 0)
      ensures td != null ==> td == old(q.s)[0] && q.s == old(q.s)[1..]
      ensures td == null ==> q.s == []
    {
      hide TDQueue.Valid;
      td := q.Get();
      OtherLinksKept(q);
    }

    /** Links a TD that is on no list behind the tail of one of them. */
    method Link(q: TDQueue, td: AsyncTD)
      requires Linked() && q in {queued, scheduled, done, free} && td !in q.s
      requires forall t :: t in q.s ==>
        && (q == queued || t !in queued.s) && (q == scheduled || t !in scheduled.s)
        && (q == done || t !in done.s) && (q == free || t !in free.s)
      modifies q, q.s`next
      ensures Linked() && q.s == old(q.s) + [td]
    {
      hide TDQueue.Valid;
      q.Put(td);
      OtherLinksKept(q);
    }

    /** The TD is the one held: it is on no list, and next in line to be done. */
    ghost predicate Held(td: AsyncTD?)
      reads this`holding, this`live, done
    {
      holding && |done.s| < |live| && td == live[|done.s|]
    }

    /** No event has said how much of it has moved. */
    ghost predicate HeldUnheard()
      reads this`log, this`facts, done
    {
      |done.s| < |facts| && Unheard(log, log.completed + |done.s|, facts[|done.s|])
    }

    lemma NextUnheard()
      requires Valid() && !holding && |done.s| < |live|
      ensures HeldUnheard()
    {
    }

    /** Takes the oldest scheduled TD off its list. */
    method TakeScheduled() returns (td: AsyncTD?)
      requires Valid() && !holding
      modifies this`holding, scheduled
      ensures Valid() && holding == (td != null)
      ensures |old(scheduled.s)| == 0 ==> td == null && scheduled.s == []
      ensures |old(scheduled.s)| > 0 ==>
        td == old(scheduled.s)[0] && scheduled.s == old(scheduled.s)[1..] && Held(td) && HeldUnheard()
    {
      hide Books, Placed, Apart, Matches, Scratched, Linked;
      FewerUnheard(log, facts, handed, Retired(), Retired() + 1);
      if |scheduled.s| > 0 { ScheduledTaken(live, done.s, scheduled.s, queued.s); NextUnheard(); }
      td := Unlink(scheduled);
      holding := td != null;
      ScratchKept();
      MatchesKept();
    }

    /** Takes the oldest queued TD off its list, when none is scheduled. */
    method TakeQueued() returns (td: AsyncTD?)
      requires Valid() && !holding && scheduled.s == []
      modifies this`holding, queued
      ensures Valid() && holding == (td != null)
      ensures |old(queued.s)| == 0 ==> td == null && queued.s == []
      ensures |old(queued.s)| > 0 ==> td == old(queued.s)[0] && queued.s == old(queued.s)[1..] && Held(td)
    {
      hide Books, Placed, Apart, Matches, Scratched, Linked;
      FewerUnheard(log, facts, handed, Retired(), Retired() + 1);
      if |queued.s| > 0 { QueuedTaken(live, done.s, queued.s); }
      td := Unlink(queued);
      holding := td != null;
      ScratchKept();
      MatchesKept();
    }

    method PutTDonDoneQueue(td: AsyncTD)
      requires Valid() && Held(td)
      modifies this`holding, done, tds`next
      ensures Valid() && !holding && done.s == old(done.s) + [td]
    {
      hide Books, Placed, Apart, Matches, Scratched, Linked;
      Owns();
      PlacedApart(live, done.s, holding, scheduled.s, queued.s, free.s);
      HeldDone(live, done.s, scheduled.s, queued.s);
      Link(done, td);
      holding := false;
      ScratchKept();
      MatchesKept();
    }

    // ---- Complete ----

    /** The scratch word of the next TD's command is right: it goes on counting, or it is still zero. */
    twostate lemma ScratchCompleted()
      requires old(Scratched() && log.Grouped(false) && log.Distinct()) && 0 <= old(log.completed) < |old(log.sub)|
      requires log == old(log).(completed := old(log.completed) + 1)
      requires old(log.sub[log.completed].command).scratch == Low(old(log.Missed(log.completed)))
      requires forall i :: 0 <= i < |log.sub| && log.sub[i].command != old(log.sub[log.completed].command) ==>
        log.sub[i].command.scratch == old(log.sub[i].command.scratch)
      ensures Scratched()
    {
      hide Log.Grouped, Log.Distinct, Log.Carried, Log.Missed, Low;
      forall i | log.completed <= i < |log.sub| && (i == log.completed || !log.Continues(i))
        ensures log.sub[i].command.scratch == Low(log.Carried(i))
      {
        assert old(log.Continues(i)) == log.Continues(i);
        CarriedOn(old(log), i);
      }
    }

    /** The descriptors say what they said as long as nobody touches them. */
    twostate lemma MatchesKept()
      requires old(Matches()) && live == old(live) && facts == old(facts)
      requires forall td :: td in live ==> td.Says() == old(td.Says())
      ensures Matches()
    {
    }

    /** Counts what a TD has failed to move, and hands its command over if the TD was the last of a transfer. */
    method Settle(td: AsyncTD)
      requires td.command != null && Linked()
      modifies this`handed, td`shortfall, td`absoluteShortfall, td`interruptThisTD, td.command
      ensures var missed := old(if td.absoluteShortfall then td.shortfall else Low(td.command.scratch + td.shortfall));
        && td.command.scratch == missed
        && handed == old(handed) + if old(td.interruptThisTD) && td.finalTDInTransaction && td.command.hasAction
                                   then [Report(td.command, missed)] else []
      ensures Linked()
    {
      hide TDQueue.Valid;
      var command := td.command;
      if td.absoluteShortfall {
        command.scratch := td.shortfall;
      } else {
        command.scratch := Low(command.scratch + td.shortfall);
      }
      if td.interruptThisTD && td.finalTDInTransaction {
        if command.hasAction {
          handed := handed + [Report(command, command.scratch)];
          td.shortfall := 0;
          td.absoluteShortfall := false;
        }
        td.interruptThisTD := false;
      }
      LinksKept();
    }

    /** What the log says of the oldest TD. */
    lemma Oldest()
      requires Valid() && |done.s| > 0
      ensures log.Grouped(false) && log.Distinct() && |facts| == |live| > 0
        && 0 <= log.completed < |log.sub| == |log.moved|
      ensures var td := live[0];
        && td.command == log.sub[log.completed].command && td.command in log.Commands()
        && Low(log.Missed(log.completed)) ==
          (if td.absoluteShortfall then td.shortfall else Low(td.command.scratch + td.shortfall))
        && log.ReportOf(log.completed) == if td.interruptThisTD && td.finalTDInTransaction && td.command.hasAction
             then [Report(td.command, Low(log.Missed(log.completed)))] else []
      ensures Books(log.(completed := log.completed + 1), facts[1..], handed + log.ReportOf(log.completed),
                    Retired() - 1, false)
    {
      hide Log.Missed, Log.Carried, Log.Moved, Log.Grouped, Log.Distinct, Log.Reports, Linked;
      OldestMissed(log, facts, handed, Retired());
      OldestCompleted(log, facts, handed, Retired());
      assert live[0].Says() == facts[0];
    }

    /** Moves the oldest TD from the done to the free list, counting what it has failed to move. */
    method SettleOldest() returns (ghost td: AsyncTD)
      requires Lists() && |done.s| > 0 && live[0].command != null
      modifies this`live, this`handed, done, free, live[0].command
      modifies tds`next, tds`shortfall, tds`absoluteShortfall, tds`interruptThisTD
      ensures Lists() && td == old(live[0]) == old(done.s)[0] && live == old(live)[1..] && td !in live
      ensures scheduled.s == old(scheduled.s) && queued.s == old(queued.s)
      ensures done.s == old(done.s)[1..] && free.s == old(free.s) + [td]
      ensures forall t :: t in live ==> t.Says() == old(t.Says())
      ensures var missed :=
        old(if live[0].absoluteShortfall then live[0].shortfall else Low(live[0].command.scratch + live[0].shortfall));
        && old(live[0].command).scratch == missed
        && handed == old(handed)
          + if old(live[0].interruptThisTD && live[0].finalTDInTransaction && live[0].command.hasAction)
                                   then [Report(old(live[0].command), missed)] else []
    {
      hide Linked, Apart, Placed;
      Owns();
      PlacedApart(live, done.s, holding, scheduled.s, queued.s, free.s);
      OldestFreed(live, done.s, holding, scheduled.s, queued.s, free.s);
      var oldest := Unlink(done);
      Settle(oldest);
      Link(free, oldest);
      live := live[1..];
      td := oldest;
    }

    /** One round of Complete's loop: the oldest TD is accounted for and freed. */
    method CompleteOldest()
      requires Valid() && |done.s| > 0
      modifies this`log, this`live, this`facts, this`handed, done, free, log.Commands()
      modifies tds`next, tds`shortfall, tds`absoluteShortfall, tds`interruptThisTD
      ensures Valid() && done.s == old(done.s)[1..] && free.s == old(free.s) + [old(done.s)[0]]
      ensures log == old(log).(completed := old(log.completed) + 1) && live == old(live)[1..]
      ensures forall t :: t in live ==> t.Says() == old(t.Says())
      ensures scheduled.s == old(scheduled.s) && queued.s == old(queued.s)
    {
      hide Books, Lists, Matches, Scratched, Log.Commands, Log.Missed, Log.ReportOf, Log.Grouped, Log.Distinct;
      Oldest();
      ghost var td := SettleOldest();
      log, facts := log.(completed := log.completed + 1), facts[1..];
      ScratchCompleted();
      RestMatches();
      assert handed == old(handed + log.ReportOf(log.completed)) && Retired() == old(Retired() - 1);
    }

    twostate lemma RestMatches()
      requires old(Matches()) && |old(live)| > 0 && live == old(live)[1..] && facts == old(facts)[1..]
      requires forall td :: td in live ==> td.Says() == old(td.Says())
      ensures Matches()
    {
      forall k | 0 <= k < |live| ensures live[k].Says() == facts[k] {
        assert live[k] in live && old(live)[k + 1].Says() == facts[k];
      }
    }

    lemma Heads()
      requires Linked()
      ensures queued.head == if queued.s == [] then null else queued.s[0]
      ensures scheduled.head == if scheduled.s == [] then null else scheduled.s[0]
      ensures done.count == |done.s| && (done.head == null <==> done.s == [])
        && (done.s != [] ==> done.tail == done.s[|done.s| - 1])
      ensures scheduled.s != [] ==> scheduled.tail == scheduled.s[|scheduled.s| - 1]
    {
    }

    lemma DoneHead()
      requires Valid()
      ensures |done.s| <= |live| && (done.head == null <==> done.s == [])
    {
      hide Books, Matches, Scratched, Apart;
      Heads();
    }

    /** Complete: all TDs that are done are accounted for, oldest first, and freed. */
    method Complete()
      requires Valid()
      modifies this`log, this`live, this`facts, this`handed, done, free, log.Commands()
      modifies tds`next, tds`shortfall, tds`absoluteShortfall, tds`interruptThisTD
      ensures Valid() && done.s == [] && free.s == old(free.s + done.s)
      ensures log == old(log).(completed := old(log.completed) + |old(done.s)|) && live == old(live)[|old(done.s)|..]
      ensures forall t :: t in live ==> t.Says() == old(t.Says())
      ensures scheduled.s == old(scheduled.s) && queued.s == old(queued.s)
    {
      hide Books, Lists, Matches, Scratched, Log.Commands;
      DoneHead();
      ghost var n := 0;
      while done.head != null
        invariant 0 <= n <= |old(done.s)| <= |old(live)| && Valid() && done.s == old(done.s)[n..]
          && free.s == old(free.s + done.s[..n])
        invariant done.head == null <==> done.s == []
        invariant log == old(log).(completed := old(log.completed) + n) && live == old(live)[n..]
        invariant scheduled.s == old(scheduled.s) && queued.s == old(queued.s)
        invariant forall t :: t in live ==> t.Says() == old(t.Says())
        decreases |done.s|
      {
        SameCommands(log, old(log));
        CompleteOldest();
        n := n + 1;
        DoneHead();
      }
    }

    // ---- taking the TD an event is for ----

    /** Moves the first n TDs of the scheduled list behind the done list, in one cut. */
    method Splice(n: nat, prev: AsyncTD, td: AsyncTD)
      requires Linked() && 0 < n < |scheduled.s| && prev == scheduled.s[n - 1] && td == scheduled.s[n]
      requires forall t :: t in done.s ==> t !in scheduled.s && t !in queued.s && t !in free.s
      modifies scheduled, done, done.s`next
      ensures Linked() && done.s == old(done.s + scheduled.s[..n]) && scheduled.s == old(scheduled.s)[n..]
    {
      hide TDQueue.Valid;
      ghost var chain := scheduled.s[..n];
      Chained(n);
      done.Adopt(scheduled.head, prev, n, chain);
      scheduled.Kept();
      scheduled.Drop(n, td);
      queued.Kept();
      free.Kept();
    }

    lemma Chained(n: nat)
      requires scheduled.Valid() && 0 < n < |scheduled.s|
      ensures scheduled.head == scheduled.s[0] && NoDuplicates(scheduled.s[..n])
      ensures forall i :: 0 <= i < n - 1 ==> scheduled.s[i].next == scheduled.s[..n][i + 1]
    {
    }

    method FlushOrphans(n: nat, prev: AsyncTD, td: AsyncTD)
      requires Valid() && !holding && 0 < n < |scheduled.s| && prev == scheduled.s[n - 1] && td == scheduled.s[n]
      modifies scheduled, done, tds`next
      ensures Valid() && done.s == old(done.s + scheduled.s[..n]) && scheduled.s == old(scheduled.s)[n..]
    {
      hide Books, Placed, Apart, Matches, Scratched, Linked;
      Owns();
      PlacedApart(live, done.s, holding, scheduled.s, queued.s, free.s);
      PrefixDone(live, done.s, scheduled.s, queued.s, n);
      FewerUnheard(log, facts, handed, Retired(), Retired() + n);
      Splice(n, prev, td);
      ScratchKept();
      MatchesKept();
    }

    /**
     * The first scheduled TD whose last TRB is at an index, the TD in front of it, and the number of TDs in front
     * of it.
     */
    method Search(index: int) returns (td: AsyncTD?, prev: AsyncTD?, orphans: nat)
      requires Linked()
      ensures td == null ==> forall t :: t in scheduled.s ==> t.lastTrbIndex != index
      ensures td != null ==>
        && orphans < |scheduled.s| && td == scheduled.s[orphans] && td.lastTrbIndex == index
        && (forall k :: 0 <= k < orphans ==> scheduled.s[k].lastTrbIndex != index)
        && (orphans > 0 ==> prev == scheduled.s[orphans - 1])
    {
      td, prev, orphans := scheduled.head, scheduled.head, 0;
      while td != null
        invariant td == null ==> scheduled.s == []
        invariant td != null ==>
          orphans < |scheduled.s| && td == scheduled.s[orphans] && (orphans > 0 ==> prev == scheduled.s[orphans - 1])
        invariant forall k :: 0 <= k < orphans ==> k < |scheduled.s| && scheduled.s[k].lastTrbIndex != index
        decreases |scheduled.s| - orphans
      {
        if td.lastTrbIndex == index {
          break;
        }
        if td == scheduled.tail {
          return null, prev, orphans;
        }
        assert td.next == scheduled.s[orphans + 1];
        orphans := orphans + 1;
        prev := td;
        td := td.next;
      }
    }

    /**
     * Takes the TD that an event is for off the scheduled list. The TDs in front of it have had no event
     * of their own: they are completed without anything having been heard of them.
     */
    method GetTDFromActiveQueueWithIndex(index: int) returns (td: AsyncTD?, ghost orphans: nat)
      requires Valid() && !holding
      modifies this`log, this`live, this`facts, this`handed, this`holding, scheduled, done, free
      modifies log.Commands()
      modifies tds`next, tds`shortfall, tds`absoluteShortfall, tds`interruptThisTD
      ensures Valid() && holding == (td != null) && queued.s == old(queued.s)
      ensures td == null ==>
        && (forall t :: t in old(scheduled.s) ==> t.lastTrbIndex != index)
        && scheduled.s == old(scheduled.s) && done.s == old(done.s) && log == old(log)
      ensures td != null ==>
        && orphans < |old(scheduled.s)| && td == old(scheduled.s)[orphans] && old(td.lastTrbIndex) == index
        && (forall k :: 0 <= k < orphans ==> old(scheduled.s[k].lastTrbIndex) != index)
        && scheduled.s == old(scheduled.s)[orphans + 1..] && Held(td) && HeldUnheard()
        && td.interruptThisTD == old(td.interruptThisTD)
        && done.s == (if orphans == 0 then old(done.s) else [])
        && log == if orphans == 0 then old(log) else old(log).(completed := old(log.completed + |done.s|) + orphans)
    {
      hide Books, Placed, Apart, Matches, Scratched, Linked, Log.Commands;
      var prev: AsyncTD?, n: nat;
      td, prev, n := Search(index);
      ScratchKept();
      orphans := n;
      if td == null {
        return;
      }
      if n > 0 {
        FlushOrphans(n, prev, td);
        Complete();
        ValidLists();
        assert td == scheduled.s[0] && td in live;
      }
      td := TakeScheduled();
    }

    /**
     * The controller moves bytes of a TD on the ring, whether or not an event will tell of it; the TD may be
     * scheduled, or given up while the controller goes on. No part of the driver takes notice.
     */
    ghost method ControllerMoves(i: int, n: nat)
      requires Valid() && log.Silent(i) && n <= log.sub[i].bytes
      modifies this`log
      ensures Valid() && log == old(log).(moved := old(log.moved)[i := Move(n, Nothing)])
    {
      hide Lists, Matches, Books, Scratched, Unheard, Log.Commands, Log.Missed, Log.Moved, Log.First;
      var log' := log.(moved := log.moved[i := Move(n, Nothing)]);
      BooksCount(log, facts, handed, Retired());
      MovedSilently(log, log', facts, handed, Retired(), i, n);
      log := log';
      ScratchRecorded(|log.sub|);
      MatchesKept();
    }

    /** The TDs on the ring, and those still queued, can be moved. */
    lemma ScheduledSilent(k: int)
      requires Valid() && Retired() <= k < |live|
      ensures log.Silent(log.completed + k)
    {
      hide Lists, Scratched, Is, Log.Grouped, Log.Distinct, Log.Moved, Log.Reports, Log.First;
      var i := log.completed + k;
      assert Unheard(log, i, facts[k]);
      forall a | i < a < |log.sub| ensures log.moved[a].told != Absolute {
        assert Unheard(log, log.completed + (a - log.completed), facts[a - log.completed]);
      }
    }

    /**
     * What a transfer event says of the TD it is for. Without an event-data TRB, `count` is what is left
     * of the TD; with one, it is what has moved, of the TD or (absolute EDTLA) of the whole transfer so far.
     */
    method RecordEvent(td: AsyncTD, ed: bool, count: nat)
      requires count < TWO_32 && Valid() && Held(td) && HeldUnheard() && |log.moved| == |log.sub|
        && log.completed + |done.s| < |log.sub|
      requires var i := log.completed + |done.s|;
        count == if !ed then td.bytesThisTD - log.moved[i].bytes
                 else if absoluteEDTLA then log.Moved(i) else log.moved[i].bytes
      modifies this`log, this`facts, td`shortfall, td`absoluteShortfall
      ensures Valid() && Held(td)
      ensures log == Hear(old(log), old(log.completed + |done.s|), if ed && absoluteEDTLA then Absolute else Relative)
    {
      hide Books, Lists, Matches, Scratched, Unheard, Log.Commands, Log.Missed, Log.Moved, Low;
      HeldSays(td);
      ghost var k := |done.s|;
      WriteShortfall(td, ed, count);
      Recorded(log, facts, handed, k, td.Says());
      log, facts := Hear(log, log.completed + k, if ed && absoluteEDTLA then Absolute else Relative),
        facts[k := td.Says()];
      HeldMatches(td);
      ScratchRecorded(log.completed + k);
    }

    method WriteShortfall(td: AsyncTD, ed: bool, count: nat)
      requires count < TWO_32 && !td.absoluteShortfall
      modifies td`shortfall, td`absoluteShortfall
      ensures td.absoluteShortfall == (ed && absoluteEDTLA)
      ensures td.shortfall == Low(if !ed then count
                                  else if absoluteEDTLA then td.bytesPreceedingThisTD + td.bytesThisTD - count
                                  else td.bytesThisTD - count)
    {
      hide Low;
      var shortfall: int := count;
      LowSmall(count);
      if ed {
        shortfall := Low(td.bytesThisTD - shortfall);
        if absoluteEDTLA {
          td.absoluteShortfall := true;
          LowSum(td.bytesThisTD - count, td.bytesPreceedingThisTD);
          shortfall := Low(shortfall + td.bytesPreceedingThisTD);
        }
      }
      td.shortfall := shortfall;
    }

    lemma HeldSays(td: AsyncTD)
      requires Valid() && Held(td)
      ensures |done.s| < |facts| && td.Says() == facts[|done.s|] && Books(log, facts, handed, |done.s| + 1, false)
      ensures |log.sub| == |log.moved| == log.completed + |facts| && (HeldUnheard() ==> !td.absoluteShortfall)
    {
    }

    /** Every TD asks for its interrupt, the last one of a transfer among them. */
    lemma LiveAsks(td: AsyncTD)
      requires Valid() && (td in queued.s || td in scheduled.s || Held(td))
      ensures td.interruptThisTD
    {
      hide Linked, Apart, Scratched, Unheard, Log.Grouped, Log.Distinct, Log.Moved, Log.Missed, Log.Reports;
      var k :| 0 <= k < |live| && live[k] == td;
      assert live[k].Says() == facts[k] && Is(log, log.completed + k, facts[k]);
    }

    lemma HeldBytes(td: AsyncTD)
      requires Valid() && Held(td)
      ensures td in tds && |log.moved| == |log.sub| && log.completed + |done.s| < |log.sub|
      ensures td.bytesThisTD == log.sub[log.completed + |done.s|].bytes
    {
      hide Linked, Placed, Apart, Scratched, Unheard, Log.Grouped, Log.Distinct, Log.Moved, Log.Missed, Log.Reports;
      assert td.Says() == facts[|done.s|];
      assert Is(log, log.completed + |done.s|, facts[|done.s|]);
    }

    twostate lemma HeldMatches(td: AsyncTD)
      requires old(Lists() && Matches() && Held(td)) && live == old(live) && unchanged(done) && |done.s| < |facts|
      requires facts == old(facts)[|done.s| := td.Says()]
      requires forall t :: t in live && t != td ==> t.Says() == old(t.Says())
      ensures Matches()
    {
      hide Linked;
    }

    twostate lemma ScratchRecorded(i: int)
      requires old(Scratched()) && old(log.completed) <= i <= |old(log.sub)| && log.sub == old(log.sub)
      requires log.completed == old(log.completed) && |log.moved| == |log.sub|
      requires forall j :: 0 <= j < i ==> log.Missed(j) == old(log).Missed(j)
      requires forall j :: 0 <= j < |log.sub| ==> log.sub[j].command.scratch == old(log.sub[j].command.scratch)
      ensures Scratched()
    {
      hide Log.Missed;
      forall j | log.completed <= j < |log.sub| && (j == log.completed || !log.Continues(j))
        ensures log.sub[j].command.scratch == Low(log.Carried(j))
      {
        assert log.Continues(j) == old(log).Continues(j);
        assert log.Carried(j) == old(log).Carried(j);
      }
    }

    // ---- flushing ----

    /** The TDs of one command that are in flight follow one another. */
    lemma Unbroken(i: int, k: int, j: int)
      requires Valid() && 0 <= i <= k <= j < |live| && live[i].command == live[j].command
      ensures live[k].command == live[i].command
    {
      hide Books, Lists, Scratched;
      assert live[i].Says() == facts[i] && live[j].Says() == facts[j] && live[k].Says() == facts[k];
      UnbrokenFacts(log, facts, handed, Retired(), i, k, j);
    }

    lemma HasCommand(i: int)
      requires Valid() && 0 <= i < |live|
      ensures live[i].command != null && live[i].command == log.sub[log.completed + i].command
    {
      hide Lists, Log.Grouped, Log.Distinct, Log.Moved;
      assert live[i].Says() == facts[i];
    }

    /** A command with a TD that is done has none in a list whose first TD is not its own. */
    lemma NoneBehind(d: int, c: Command)
      requires Valid() && !holding && 0 <= d < |done.s| && done.s[d].command == c
      ensures scheduled.s != [] && scheduled.s[0].command != c ==> forall t :: t in scheduled.s || t in queued.s ==>
        t.command != c
      ensures queued.s != [] && queued.s[0].command != c ==> forall t :: t in queued.s ==> t.command != c
    {
      hide Books, Linked, Apart, Matches, Scratched;
      var r := |done.s|;
      if scheduled.s != [] && scheduled.s[0].command != c {
        forall j | r <= j < |live| ensures live[j].command != c {
          if live[j].command == c { Unbroken(d, r, j); }
        }
      }
      if queued.s != [] && queued.s[0].command != c {
        forall j | r + |scheduled.s| <= j < |live| ensures live[j].command != c {
          if live[j].command == c { Unbroken(d, r + |scheduled.s|, j); }
        }
      }
    }

    /** The oldest scheduled TD is done. */
    method ScheduledToDone() returns (td: AsyncTD)
      requires Valid() && !holding && scheduled.s != []
      modifies this`holding, scheduled, done, tds`next
      ensures Valid() && !holding && td == old(scheduled.s)[0]
      ensures scheduled.s == old(scheduled.s)[1..] && done.s == old(done.s + scheduled.s[..1])
      ensures scheduled.head == if scheduled.s == [] then null else scheduled.s[0]
    {
      hide Books, Placed, Apart, Matches, Scratched, Linked;
      var head := TakeScheduled();
      td := head;
      PutTDonDoneQueue(td);
      Heads();
    }

    method QueuedToDone() returns (td: AsyncTD)
      requires Valid() && !holding && queued.s != [] && scheduled.s == []
      modifies this`holding, queued, done, tds`next
      ensures Valid() && !holding && td == old(queued.s)[0]
      ensures queued.s == old(queued.s)[1..] && done.s == old(done.s + queued.s[..1])
      ensures queued.head == if queued.s == [] then null else queued.s[0]
    {
      hide Books, Placed, Apart, Matches, Scratched, Linked;
      var head := TakeQueued();
      td := head;
      PutTDonDoneQueue(td);
      Heads();
    }

    /**
     * FlushTDs: the TDs of a command at the head of the scheduled list are done. Returns the ring index the
     * controller is to go on from, or -1: never with option 0, only if nothing is scheduled with option 1.
     */
    method FlushTDs(command: Command?, updateDequeueOption: int) returns (reseatAt: int, ghost n: nat)
      requires Valid() && !holding
      modifies this`holding, scheduled, done, tds`next
      ensures Valid() && !holding && n <= |old(scheduled.s)|
      ensures scheduled.s == old(scheduled.s)[n..] && done.s == old(done.s + scheduled.s[..n])
      ensures forall k :: 0 <= k < n ==> command != null && old(scheduled.s)[k].command == command
      ensures command != null && scheduled.s != [] ==> scheduled.s[0].command != command
      ensures reseatAt ==
              if n == 0 || updateDequeueOption == 0 || (updateDequeueOption == 1 && scheduled.s != []) then -1
              else NextSlot(old(scheduled.s)[n - 1].lastTrbIndex, numTRBs)
    {
      hide Books, Placed, Apart, Matches, Scratched, Linked;
      n := 0;
      Heads();
      var td := scheduled.head;
      if command == null || td == null {
        return -1, 0;
      }
      var index := -1;
      while td != null && td.command == command
        invariant Valid() && !holding && n <= |old(scheduled.s)|
        invariant scheduled.s == old(scheduled.s)[n..] && done.s == old(done.s + scheduled.s[..n])
        invariant if scheduled.s == [] then td == null else td == scheduled.s[0]
        invariant forall k :: 0 <= k < n ==> old(scheduled.s)[k].command == command
        invariant index == if n == 0 || updateDequeueOption == 0 then -1
                  else NextSlot(old(scheduled.s)[n - 1].lastTrbIndex, numTRBs)
        decreases |scheduled.s|
      {
        var t := ScheduledToDone();
        if updateDequeueOption != 0 {
          index := td.lastTrbIndex + 1;
          if index >= numTRBs - 1 {
            index := 0;
          }
        }
        n := n + 1;
        td := scheduled.head;
      }
      reseatAt := if updateDequeueOption == 0 || (updateDequeueOption == 1 && td != null) then -1 else index;
    }

    /**
     * MoveTDsFromReadyQToDoneQ: the TDs of a command (without one, all TDs) at the head of the queued list are
     * done.
     */
    method MoveTDsFromReadyQToDoneQ(command: Command?) returns (ghost n: nat)
      requires Valid() && !holding
      requires scheduled.s == [] || queued.s == [] || (command != null && queued.s[0].command != command)
      modifies this`holding, queued, done, tds`next
      ensures Valid() && !holding && n <= |old(queued.s)|
      ensures queued.s == old(queued.s)[n..] && done.s == old(done.s + queued.s[..n])
      ensures forall k :: 0 <= k < n ==> command == null || old(queued.s)[k].command == command
      ensures queued.s != [] ==> command != null && queued.s[0].command != command
    {
      hide Books, Placed, Apart, Matches, Scratched, Linked;
      n := 0;
      Heads();
      while queued.head != null
        invariant Valid() && !holding && n <= |old(queued.s)|
        invariant queued.s == old(queued.s)[n..] && done.s == old(done.s + queued.s[..n])
        invariant if queued.s == [] then queued.head == null else queued.head == queued.s[0]
        invariant forall k :: 0 <= k < n ==> command == null || old(queued.s)[k].command == command
        invariant scheduled.s == [] || queued.s == [] || (command != null && queued.s[0].command != command)
        decreases |queued.s|
      {
        if command != null && command != queued.head.command {
          break;
        }
        var td := QueuedToDone();
        n := n + 1;
      }
    }

    /** All TDs of a command that has one done are done: those scheduled, then those queued. */
    method FlushCommand(command: Command, updateDequeueOption: int, ghost d: int)
      returns (index: int, ghost n: nat, ghost m: nat)
      requires Valid() && !holding && 0 <= d < |done.s| && done.s[d].command == command
      modifies this`holding, scheduled, queued, done, tds`next
      ensures Valid() && !holding && n <= |old(scheduled.s)| && m <= |old(queued.s)|
      ensures scheduled.s == old(scheduled.s)[n..] && queued.s == old(queued.s)[m..]
      ensures done.s == old(done.s) + old(scheduled.s)[..n] + old(queued.s)[..m]
      ensures forall k :: 0 <= k < n ==> old(scheduled.s)[k].command == command
      ensures forall k :: 0 <= k < m ==> old(queued.s)[k].command == command
      ensures forall t :: t in scheduled.s || t in queued.s ==> t.command != command
      ensures updateDequeueOption == 2 ==> index == if n == 0 then -1
              else NextSlot(old(scheduled.s)[n - 1].lastTrbIndex, numTRBs)
    {
      hide Books, Placed, Apart, Matches, Scratched, Linked;
      index, n := FlushTDs(command, updateDequeueOption);
      NoneBehind(d, command);
      m := MoveTDsFromReadyQToDoneQ(command);
      NoneBehind(d, command);
    }

    /** A retired TD is done; with `flush`, so are all TDs of its command. */
    method RetireAndFlush(td: AsyncTD, flush: bool, state: EndpointState)
      returns (reseat: Reseat, reschedule: bool, ghost n: nat, ghost m: nat)
      requires Valid() && Held(td)
      modifies this`holding, scheduled, queued, done, tds`next
      ensures Valid() && !holding && n <= |old(scheduled.s)| && m <= |old(queued.s)|
      ensures scheduled.s == old(scheduled.s)[n..] && queued.s == old(queued.s)[m..]
      ensures done.s == old(done.s) + [td] + old(scheduled.s)[..n] + old(queued.s)[..m]
      ensures forall k :: 0 <= k < n ==> old(scheduled.s)[k].command == td.command
      ensures forall k :: 0 <= k < m ==> old(queued.s)[k].command == td.command
      ensures if flush then forall t :: t in scheduled.s || t in queued.s ==> t.command != td.command else n == m == 0
      ensures reschedule == (flush ==> state == Running || state == Stopped)
      ensures reseat ==
              if flush && state == Running && scheduled.s == [] then AtEnqueue
              else if flush && state == Stopped && n > 0
              then AtIndex(NextSlot(old(scheduled.s)[n - 1].lastTrbIndex, numTRBs))
              else Keep
    {
      hide Books, Placed, Apart, Matches, Scratched, Linked;
      reseat, reschedule, n, m := Keep, true, 0, 0;
      HeldCommand(td);
      PutTDonDoneQueue(td);
      if flush {
        var index: int;
        index, n, m := FlushCommand(td.command, if state == Stopped then 2 else 0, |done.s| - 1);
        Heads();
        match state {
          case Running =>
            if scheduled.head == null { reseat := AtEnqueue; }
          case Stopped =>
            if index >= 0 { reseat := AtIndex(index); }
          case _ =>
            reschedule := false;
        }
      }
    }

    lemma HeldCommand(td: AsyncTD)
      requires Valid() && Held(td)
      ensures td.command != null
    {
      HasCommand(|done.s|);
    }

    // ---- scheduling ----

    /** Links a TD that is on no list in front of the queued ones. */
    method LinkAtHead(td: AsyncTD)
      requires Linked() && td !in queued.s && td !in scheduled.s && td !in done.s && td !in free.s
      modifies queued, td`next
      ensures Linked() && queued.s == [td] + old(queued.s)
    {
      hide TDQueue.Valid;
      queued.PutAtHead(td);
      OtherLinksKept(queued);
    }

    /**
     * One round of ScheduleTDs: the oldest queued TD goes to the ring, where its last TRB is at `last`; or,
     * if it cannot be laid out there, back to where it was.
     */
    method ScheduleNext(laidOut: bool, last: nat)
      requires Valid() && !holding && queued.s != []
      modifies queued, scheduled, tds`next, tds`lastTrbIndex
      ensures Valid()
      ensures if laidOut
              then scheduled.s == old(scheduled.s + queued.s[..1]) && queued.s == old(queued.s)[1..]
                   && old(queued.s)[0].lastTrbIndex == last
              else scheduled.s == old(scheduled.s) && queued.s == old(queued.s)
      ensures forall t :: t in old(scheduled.s) ==> t.lastTrbIndex == old(t.lastTrbIndex)
    {
      hide Books, Placed, Apart, Matches, Scratched, Linked;
      Owns();
      PlacedApart(live, done.s, holding, scheduled.s, queued.s, free.s);
      FirstScheduled(live, done.s, scheduled.s, queued.s);
      QueuedDistinct();
      var td := Unlink(queued);
      if laidOut {
        label Taken:
        td.lastTrbIndex := last;
        LinksKept@Taken();
        Link(scheduled, td);
      } else {
        LinkAtHead(td);
      }
      ScratchKept();
      MatchesKept();
    }

    lemma QueuedDistinct()
      requires Lists() && queued.s != []
      ensures queued.s[0] !in queued.s[1..] && [queued.s[0]] + queued.s[1..] == queued.s
    {
    }

    static ghost function CommandsOf(s: seq<AsyncTD>): (cs: seq<Command?>)
      reads s`command
      ensures |cs| == |s| && forall k :: 0 <= k < |s| ==> cs[k] == s[k].command
    {
      if |s| == 0 then [] else CommandsOf(s[..|s| - 1]) + [s[|s| - 1].command]
    }

    /** All TDs of the first command on the ring: the first n there, and the first m of those waiting. */
    static ghost predicate Gone(commands: seq<Command?>, waiting: seq<Command?>, n: nat, m: nat) {
      && 0 < n <= |commands| && m <= |waiting|
      && (forall k :: 0 <= k < n ==> commands[k] == commands[0])
      && (forall k :: n <= k < |commands| ==> commands[k] != commands[0])
      && (forall k :: 0 <= k < m ==> waiting[k] == commands[0])
      && (forall k :: m <= k < |waiting| ==> waiting[k] != commands[0])
    }

    /** One round of Abort: all TDs of the command of the oldest scheduled TD are done. */
    method AbortCommand() returns (ghost n: nat, ghost m: nat)
      requires Valid() && !holding && scheduled.s != []
      modifies this`holding, scheduled, queued, done, tds`next
      ensures Valid() && !holding && 0 < n <= |old(scheduled.s)| && m <= |old(queued.s)|
      ensures scheduled.s == old(scheduled.s)[n..] && queued.s == old(queued.s)[m..]
      ensures done.s == old(done.s) + old(scheduled.s)[..n] + old(queued.s)[..m]
      ensures forall k :: 0 <= k < n ==> old(scheduled.s)[k].command == old(scheduled.s)[0].command
      ensures forall k :: 0 <= k < m ==> old(queued.s)[k].command == old(scheduled.s)[0].command
      ensures forall t :: t in scheduled.s || t in queued.s ==> t.command != old(scheduled.s)[0].command
    {
      hide Books, Placed, Apart, Matches, Scratched, Linked;
      Heads();
      ScheduledCommand();
      var command := scheduled.head.command;
      var index: int;
      index, n := FlushTDs(command, 0);
      assert done.s[|old(done.s)|] == old(scheduled.s)[0];
      NoneBehind(|old(done.s)|, command);
      m := MoveTDsFromReadyQToDoneQ(command);
      NoneBehind(|old(done.s)|, command);
    }

    /** The same round, told in terms of the commands. */
    method AbortRound() returns (ghost n: nat, ghost m: nat)
      requires Valid() && !holding && scheduled.s != []
      modifies this`holding, scheduled, queued, done, tds`next
      ensures Valid() && !holding && 0 < n <= |old(scheduled.s)| && m <= |old(queued.s)|
      ensures scheduled.s == old(scheduled.s)[n..] && queued.s == old(queued.s)[m..]
      ensures |done.s| == |old(done.s)| + n + m
      ensures CommandsOf(scheduled.s) == old(CommandsOf(scheduled.s))[n..]
        && CommandsOf(queued.s) == old(CommandsOf(queued.s))[m..]
      ensures Gone(old(CommandsOf(scheduled.s)), old(CommandsOf(queued.s)), n, m)
    {
      hide *;
      ghost var s, q := scheduled.s, queued.s;
      n, m := AbortCommand();
      GoneOf(s, q, n, m);
    }

    static lemma GoneOf(s: seq<AsyncTD>, q: seq<AsyncTD>, n: nat, m: nat)
      requires 0 < n <= |s| && m <= |q|
      requires forall k :: 0 <= k < n ==> s[k].command == s[0].command
      requires forall k :: 0 <= k < m ==> q[k].command == s[0].command
      requires forall t :: t in s[n..] || t in q[m..] ==> t.command != s[0].command
      ensures Gone(CommandsOf(s), CommandsOf(q), n, m)
      ensures CommandsOf(s[n..]) == CommandsOf(s)[n..] && CommandsOf(q[m..]) == CommandsOf(q)[m..]
    {
      hide CommandsOf;
      forall k | n <= k < |s| ensures s[k].command != s[0].command { assert s[n..][k - n] == s[k]; }
      forall k | m <= k < |q| ensures q[k].command != s[0].command { assert q[m..][k - m] == q[k]; }
    }

    lemma ScheduledCommand()
      requires Valid() && !holding && scheduled.s != []
      ensures scheduled.s[0].command != null
    {
      HasCommand(|done.s|);
    }

    /**
     * Of the TDs waiting, the first m belong to commands that have a TD on the ring, and the others to none of the
     * first n there.
     */
    static ghost predicate Split(commands: seq<Command?>, waiting: seq<Command?>, n: nat, m: nat) {
      && n <= |commands| && m <= |waiting|
      && (forall k :: 0 <= k < m ==> waiting[k] in commands)
      && (forall k :: m <= k < |waiting| ==> waiting[k] !in commands[..n])
    }

    static lemma SplitOn(commands: seq<Command?>, waiting: seq<Command?>, n: nat, m: nat, n': nat, m': nat)
      requires Split(commands, waiting, n, m) && Gone(commands[n..], waiting[m..], n', m')
      ensures Split(commands, waiting, n + n', m + m')
    {
      forall k | m + m' <= k < |waiting| ensures waiting[k] !in commands[..n + n'] {
        assert waiting[k] == waiting[m..][k - m];
        forall j | n <= j < n + n' ensures commands[j] == commands[n] { assert commands[j] == commands[n..][j - n]; }
      }
      forall k | m <= k < m + m' ensures waiting[k] in commands { assert waiting[k] == waiting[m..][k - m]; }
    }

    static lemma NothingSplit(commands: seq<Command?>, waiting: seq<Command?>)
      ensures Split(commands, waiting, 0, 0)
    {
    }

    lemma ValidHeads()
      requires Valid()
      ensures scheduled.head == if scheduled.s == [] then null else scheduled.s[0]
      ensures queued.head == if queued.s == [] then null else queued.s[0]
      ensures done.count == |done.s|
    {
      hide Books, Placed, Apart, Matches, Scratched, Owned;
    }

    lemma ValidLists()
      requires Valid()
      ensures queued != scheduled && queued != done && queued != free && scheduled != done && scheduled != free
      ensures Separate() && |scheduled.s| <= |live| && forall k :: 0 <= k < |scheduled.s| ==> scheduled.s[k] in live
    {
      hide Books, Apart, Matches, Scratched, Owned, Linked;
      forall k | 0 <= k < |scheduled.s| ensures scheduled.s[k] in live { assert scheduled.s[k] == live[Retired() + k]; }
    }

    /** A scheduled TD starts where it was submitted to start, and is for as many bytes. */
    lemma ScheduledAs(j: int)
      requires Valid() && 0 <= j < |scheduled.s|
      ensures var i := log.completed + Retired() + j;
        && 0 <= i < |log.sub| == |log.moved| && scheduled.s[j].bytesPreceedingThisTD == log.sub[i].preceding
        && scheduled.s[j].bytesThisTD == log.sub[i].bytes < TWO_32
    {
      hide Linked, Apart, Owned, Scratched, Unheard, Log.Grouped, Log.Distinct, Log.Moved, Log.Missed, Log.Reports;
      var k := Retired() + j;
      assert scheduled.s[j] == live[k] && live[k].Says() == facts[k] && Is(log, log.completed + k, facts[k]);
    }

    /** The loop of Abort. */
    method AbortAll() returns (ghost n: nat, ghost m: nat)
      requires Valid() && !holding
      modifies this`holding, scheduled, queued, done, tds`next
      ensures Valid() && !holding && scheduled.s == [] && scheduled.head == null
      ensures n == |old(scheduled.s)| && m <= |old(queued.s)| && queued.s == old(queued.s)[m..]
      ensures |done.s| == |old(done.s)| + n + m && done.count == |done.s|
      ensures Split(old(CommandsOf(scheduled.s)), old(CommandsOf(queued.s)), n, m)
    {
      hide *;
      ghost var commands, waiting := CommandsOf(scheduled.s), CommandsOf(queued.s);
      n, m := 0, 0;
      NothingSplit(commands, waiting);
      ValidHeads();
      while scheduled.head != null
        invariant Valid() && !holding && n <= |old(scheduled.s)| && m <= |old(queued.s)|
        invariant scheduled.s == old(scheduled.s)[n..] && queued.s == old(queued.s)[m..]
        invariant |done.s| == |old(done.s)| + n + m
        invariant CommandsOf(scheduled.s) == commands[n..] && CommandsOf(queued.s) == waiting[m..]
        invariant Split(commands, waiting, n, m)
        invariant scheduled.head == if scheduled.s == [] then null else scheduled.s[0]
        decreases |scheduled.s|
      {
        ghost var flushed, moved := AbortRound();
        SplitOn(commands, waiting, n, m, flushed, moved);
        n, m := n + flushed, m + moved;
        ValidHeads();
      }
      ValidHeads();
    }

    /**
     * Abort: every TD that is on the ring is done, and with it all others of its command; and all that is
     * done is completed. Exactly the TDs of commands that have none on the ring stay queued.
     */
    method Abort() returns (ghost n: nat, ghost m: nat)
      requires Valid() && !holding
      modifies this`aborting, this`log, this`live, this`facts, this`handed, this`holding, scheduled, queued, done, free,
        log.Commands()
      modifies tds`next, tds`shortfall, tds`absoluteShortfall, tds`interruptThisTD
      ensures Valid() && !holding && !aborting && scheduled.s == [] && done.s == []
      ensures n == |old(scheduled.s)| && m <= |old(queued.s)| && queued.s == old(queued.s)[m..]
      ensures Split(old(CommandsOf(scheduled.s)), old(CommandsOf(queued.s)), n, m)
      ensures log == old(log).(completed := old(log.completed + |done.s|) + n + m)
    {
      hide Books, Placed, Apart, Matches, Scratched, Linked, Owned, Log.Commands, CommandsOf, Split;
      aborting := true;
      ScratchKept();
      MatchesKept();
      n, m := AbortAll();
      aborting := false;
      if done.count > 0 {
        Complete();
      }
    }

    // ---- CreateTDs ----

    /** A TD that is on no list: one from the free list, zeroed, or a new one. */
    method GetTDFromFreeQueue() returns (td: AsyncTD)
      requires Lists()
      modifies this`tds, free, tds
      ensures Lists() && tds == old(tds) + {td} && fresh(tds - old(tds))
      ensures td !in live && td !in free.s && td.command == null && !td.interruptThisTD && !td.finalTDInTransaction
        && !td.absoluteShortfall
      ensures forall t :: t in live ==> t.Says() == old(t.Says()) && t.OnRing() == old(t.OnRing())
    {
      hide Placed, Apart, Linked, TDQueue.Valid;
      Owns();
      PlacedApart(live, done.s, holding, scheduled.s, queued.s, free.s);
      FreeDistinct();
      if free.head == null {
        td := new AsyncTD();
        LinksKept();
        tds := tds + {td};
      } else {
        FreeTaken(live, free.s);
        var head := Unlink(free);
        td := head;
        label Taken:
        td.Reinit();
        LinksKept@Taken();
      }
    }

    lemma FreeDistinct()
      requires Linked()
      ensures NoDuplicates(free.s) && (free.head == null <==> free.s == [])
    {
    }

    /** Puts a TD that is on no list behind the queued ones. */
    method PutQueued(td: AsyncTD)
      requires Lists() && td !in live && td !in free.s && td in tds
      modifies this`live, queued, tds`next
      ensures Lists() && live == old(live) + [td] && queued.s == old(queued.s) + [td]
    {
      hide Placed, Apart, Linked;
      Owns();
      PlacedApart(live, done.s, holding, scheduled.s, queued.s, free.s);
      AddedApart(live, free.s, td);
      LastQueued(live, done.s, holding, scheduled.s, queued.s, td);
      Link(queued, td);
      live := live + [td];
    }

    /** Makes a zeroed TD say that it is a piece of a transfer that nothing has been heard of. */
    method FillTD(td: AsyncTD, e: Entry)
      requires td.command == null && !td.interruptThisTD && !td.finalTDInTransaction && !td.absoluteShortfall
      requires maxTDBytes > 0 && e.preceding % maxTDBytes == 0
      requires e.preceding + e.bytes <= e.total && (e.final ==> e.preceding + e.bytes == e.total)
      modifies td`command, td`interruptThisTD, td`multiTDTransaction, td`finalTDInTransaction, td`shortfall
      modifies td`bytesThisTD, td`bytesPreceedingThisTD, td`bytesFollowingThisTD
      ensures td.Says() == Facts(e.command, e.bytes, e.total - e.preceding - e.bytes, e.preceding, e.IsPart(),
                                 e.final, true, e.bytes, false)
    {
      td.command := e.command;
      td.interruptThisTD := e.preceding % maxTDBytes == 0;
      td.multiTDTransaction := !e.final || e.preceding > 0;
      td.bytesPreceedingThisTD := e.preceding;
      td.bytesThisTD := e.bytes;
      td.shortfall := e.bytes;
      if e.final {
        td.interruptThisTD := true;
        td.finalTDInTransaction := true;
        td.bytesFollowingThisTD := 0;
      } else {
        td.bytesFollowingThisTD := e.total - e.preceding - e.bytes;
      }
    }

    /** Queues a TD for a piece of a transfer. */
    method QueueTD(e: Entry) returns (td: AsyncTD)
      requires Lists() && maxTDBytes > 0 && e.preceding % maxTDBytes == 0 && e.preceding + e.bytes <= e.total
        && (e.final ==> e.preceding + e.bytes == e.total)
      modifies this`tds, this`live, queued, free, tds
      ensures Lists() && tds == old(tds) + {td} && fresh(tds - old(tds))
      ensures live == old(live) + [td] && td !in old(live) && queued.s == old(queued.s) + [td]
      ensures td.Says() == Facts(e.command, e.bytes, e.total - e.preceding - e.bytes, e.preceding, e.IsPart(),
                                 e.final, true, e.bytes, false)
      ensures forall t :: t in old(live) ==> t.Says() == old(t.Says()) && t.OnRing() == old(t.OnRing())
    {
      hide Placed, Apart, Linked, Owned;
      td := GetTDFromFreeQueue();
      label Taken:
      FillTD(td, e);
      LinksKept@Taken();
      PutQueued(td);
    }

    /** The endpoint is valid, but for a transfer that may still be being split. */
    ghost predicate Sound(open: bool)
      reads this, queued, scheduled, done, free, queued.s`next, scheduled.s`next, done.s`next, free.s`next, live,
        log.Commands()
    {
      && 0x1_0000 < maxTDBytes <= MAX_FRAGMENT_SIZE
      && Lists() && Matches() && Books(log, facts, handed, Retired(), open) && Scratched()
    }

    /** Queues a TD for a piece of a transfer, which is submitted with it. */
    method SubmitTD(e: Entry)
      requires Sound(e.preceding > 0) && CanFollow(log, e) && e.preceding + e.bytes <= e.total && e.bytes < TWO_32
        && e.preceding % maxTDBytes == 0
      requires if e.preceding == 0 then e.command.scratch == 0 else live != []
      modifies this`log, this`live, this`facts, this`tds, queued, free, tds
      ensures Sound(!e.final) && log == Submit(old(log), e)
      ensures |live| == |old(live)| + 1 && live[..|old(live)|] == old(live)
        && queued.s == old(queued.s) + live[|old(live)|..]
      ensures tds == old(tds) + {live[|live| - 1]} && fresh(tds - old(tds))
      ensures forall t :: t in old(live) ==> t.OnRing() == old(t.OnRing())
    {
      hide Books, Placed, Apart, Linked, Owned, Matches, Scratched, CanFollow, Log.Commands;
      FollowsLive(e);
      ghost var f := Facts(e.command, e.bytes, e.total - e.preceding - e.bytes, e.preceding, e.IsPart(), e.final,
                           true, e.bytes, false);
      Submitted(log, facts, handed, Retired(), e, f);
      var td := QueueTD(e);
      log, facts := Submit(log, e), facts + [f];
      MoreMatches();
      ScratchSubmitted();
    }

    lemma FollowsLive(e: Entry)
      requires Sound(e.preceding > 0) && CanFollow(log, e)
      ensures e.final ==> e.preceding + e.bytes == e.total
      ensures |log.sub| == log.completed + |live| && |facts| == |live|
    {
    }

    twostate lemma MoreMatches()
      requires old(Matches()) && |live| == |old(live)| + 1 && live[..|old(live)|] == old(live)
      requires facts == old(facts) + [live[|live| - 1].Says()] && forall td :: td in old(live) ==>
        td.Says() == old(td.Says())
      ensures Matches()
    {
      forall k | 0 <= k < |live| - 1 ensures live[k].Says() == facts[k] {
        assert live[k] == old(live)[k] && old(live)[k] in old(live);
      }
    }

    twostate lemma ScratchSubmitted()
      requires old(Scratched()) && |log.sub| == |old(log.sub)| + 1 && log == Submit(old(log), log.sub[|log.sub| - 1])
      requires 0 <= log.completed < |log.sub|
      requires if log.Continues(|log.sub| - 1) then log.completed < |log.sub| - 1
               else log.sub[|log.sub| - 1].command.scratch == 0
      requires forall i :: 0 <= i < |old(log.sub)| ==> log.sub[i].command.scratch == old(log.sub[i].command.scratch)
      ensures Scratched()
    {
      hide Log.Missed;
      forall i | log.completed <= i < |log.sub| && (i == log.completed || !log.Continues(i))
        ensures log.sub[i].command.scratch == Low(log.Carried(i))
      {
        if i < |log.sub| - 1 {
          assert log.Continues(i) == old(log).Continues(i);
          if i > 0 { SumsOfPrefix(log, old(log), i - 1); }
          assert log.Carried(i) == old(log).Carried(i);
        }
      }
    }

    /** No TD of the command is in flight. */
    ghost predicate Idle(command: Command)
      reads this`live, live`command
    {
      forall i :: 0 <= i < |live| ==> live[i].command != command
    }

    lemma IdleEntries(command: Command)
      requires Valid() && Idle(command)
      ensures 0 <= log.completed <= |log.sub| == log.completed + |live|
        && forall i :: log.completed <= i < |log.sub| ==> log.sub[i].command != command
    {
      hide Lists, Scratched, Is, Unheard, Log.Grouped, Log.Distinct, Log.Moved, Log.Reports;
      forall i | log.completed <= i < |log.sub| ensures log.sub[i].command != command {
        HasCommand(i - log.completed);
      }
    }

    twostate lemma ScratchCleared(command: Command)
      requires old(Scratched()) && log == old(log) && 0 <= log.completed
      requires forall i :: log.completed <= i < |log.sub| ==> log.sub[i].command != command
      requires forall i :: 0 <= i < |log.sub| && log.sub[i].command != command ==>
        log.sub[i].command.scratch == old(log.sub[i].command.scratch)
      ensures Scratched()
    {
    }

    /**
     * CreateTDs: a command that has nothing in flight is split into TDs, which are queued; at most eight
     * bytes may be given as immediate data instead.
     */
    method CreateTDs(command: Command, immediateDataSize: nat, hasMemory: bool) returns (rc: CreateResult)
      requires Valid() && Idle(command)
      modifies this`log, this`live, this`facts, this`tds, queued, free, tds, command
      ensures Valid()
      ensures rc == if aborting then NotPermitted
                    else if command.request >= 0x80_0000 && absoluteEDTLA then Unsupported
                    else if command.request > 0 && !hasMemory then BadArgument else Created
      ensures rc != Created ==> log == old(log) && queued.s == old(queued.s)
      ensures rc == Created ==>
        var total := if immediateDataSize <= 8 then immediateDataSize else command.request;
        var max := if immediateDataSize <= 8 || total <= maxTDBytes then total else maxTDBytes;
        && log.sub == old(log.sub) + Pieces(command, total, max, 0) && log.completed == old(log.completed)
        && |queued.s| == |old(queued.s)| + |Pieces(command, total, max, 0)|
        && queued.s[..|old(queued.s)|] == old(queued.s)
      ensures forall t :: t in old(live) ==> t.OnRing() == old(t.OnRing())
    {
      hide Books, Placed, Apart, Linked, Owned, Matches, Scratched, CanFollow, Pieces, Log.Commands, Idle;
      if aborting {
        return NotPermitted;
      }
      var total := command.request;
      if total >= ABSOLUTE_EDTLA_LIMIT && absoluteEDTLA {
        return Unsupported;
      }
      if total > 0 && !hasMemory {
        return BadArgument;
      }
      IdleEntries(command);
      command.scratch := 0;
      ScratchCleared(command);
      var max: nat;
      if immediateDataSize <= MAX_IMMEDIATE {
        total, max := immediateDataSize, immediateDataSize;
      } else if total <= maxTDBytes {
        max := total;
      } else {
        max := maxTDBytes;
      }
      SplitAll(command, total, max);
      rc := Created;
    }

    lemma FirstFollows(command: Command, total: nat)
      requires forall i :: log.completed <= i < |log.sub| ==> log.sub[i].command != command
      ensures CanFollow(log, Entry(command, 0, 0, total, false))
    {
    }

    /** CreateTDs' loop. */
    method SplitAll(command: Command, total: nat, max: nat)
      requires Sound(false) && command.scratch == 0 && max <= total && (total > 0 ==> max > 0) && max < TWO_32
      requires max == maxTDBytes || max == total
      requires 0 <= log.completed && forall i :: log.completed <= i < |log.sub| ==> log.sub[i].command != command
      modifies this`log, this`live, this`facts, this`tds, queued, free, tds
      ensures Sound(false)
      ensures log.sub == old(log.sub) + Pieces(command, total, max, 0) && log.completed == old(log.completed)
      ensures |queued.s| == |old(queued.s)| + |Pieces(command, total, max, 0)|
        && queued.s[..|old(queued.s)|] == old(queued.s)
      ensures forall t :: t in old(live) ==> t.OnRing() == old(t.OnRing())
    {
      hide Books, Lists, Matches, Scratched, CanFollow, Pieces, Log.Commands;
      var bytesDone: nat, currentTDBytes := 0, max;
      ghost var n: nat, all := 0, log.sub + Pieces(command, total, max, 0);
      assert CanFollow(log, Entry(command, 0, 0, total, false)) by { FirstFollows(command, total); }
      while true
        invariant (bytesDone < total && max > 0) || bytesDone == total == 0
        invariant bytesDone % maxTDBytes == 0
        invariant currentTDBytes == if max < total - bytesDone then max else total - bytesDone
        invariant Sound(bytesDone > 0) && CanFollow(log, Entry(command, bytesDone, 0, total, false))
        invariant if bytesDone == 0 then command.scratch == 0 else live != []
        invariant log.sub + Pieces(command, total, max, bytesDone) == all
        invariant log.completed == old(log.completed) && tds >= old(tds) && fresh(tds - old(tds))
        invariant |queued.s| == |old(queued.s)| + n && queued.s[..|old(queued.s)|] == old(queued.s)
        invariant old(live) <= live && forall t :: t in old(live) ==> t.OnRing() == old(t.OnRing())
        invariant n + |Pieces(command, total, max, bytesDone)| == |Pieces(command, total, max, 0)|
        decreases total - bytesDone
      {
        var final := bytesDone + currentTDBytes >= total;
        ghost var e, was := Entry(command, bytesDone, currentTDBytes, total, final), log;
        FollowsInFull(log, e);
        NextPiece(log, all, e, max);
        SubmitTD(Entry(command, bytesDone, currentTDBytes, total, final));
        n := n + 1;
        if final {
          bytesDone := bytesDone + currentTDBytes;
          break;
        }
        SumOfMultiples(bytesDone, currentTDBytes, maxTDBytes);
        bytesDone := bytesDone + currentTDBytes;
        NextFollows(was, e);
        currentTDBytes := if total - bytesDone < max then total - bytesDone else max;
      }
    }

    // ---- laws of whole runs ----

    /** The TD an event has taken off the scheduled list and not yet retired. */
    ghost function HeldTD(): seq<AsyncTD>
      requires Lists()
      reads this`live, this`tds, this`holding, queued, scheduled, done, free, queued.s`next, scheduled.s`next,
        done.s`next, free.s`next
    {
      if holding then [live[|done.s|]] else []
    }

    /**
     * Nothing is lost, nothing reordered: behind the TDs completed, the done, held, scheduled and queued ones
     * are, in this order, exactly the rest of what was submitted.
     */
    lemma Conservation()
      requires Valid()
      ensures var all := done.s + HeldTD() + scheduled.s + queued.s;
        && log.completed + |all| == |log.sub|
        && (forall k :: 0 <= k < |all| ==>
              && all[k].command == log.sub[log.completed + k].command
              && all[k].bytesPreceedingThisTD == log.sub[log.completed + k].preceding
              && all[k].bytesThisTD == log.sub[log.completed + k].bytes
              && all[k].finalTDInTransaction == log.sub[log.completed + k].final && all[k].interruptThisTD
              && (all[k].multiTDTransaction <==> !all[k].finalTDInTransaction || all[k].bytesPreceedingThisTD > 0)
              && all[k].bytesPreceedingThisTD + all[k].bytesThisTD
                + all[k].bytesFollowingThisTD == log.sub[log.completed + k].total)
    {
      hide Linked, Apart, Owned, Scratched, Log.Grouped, Log.Distinct, Log.Moved, Log.Reports;
      var all := done.s + HeldTD() + scheduled.s + queued.s;
      assert all == live;
      forall k | 0 <= k < |all|
        ensures all[k].command == log.sub[log.completed + k].command
          && all[k].bytesThisTD == log.sub[log.completed + k].bytes
        ensures all[k].bytesPreceedingThisTD == log.sub[log.completed + k].preceding
        ensures all[k].finalTDInTransaction == log.sub[log.completed + k].final && all[k].interruptThisTD
        ensures all[k].multiTDTransaction <==> !all[k].finalTDInTransaction || all[k].bytesPreceedingThisTD > 0
        ensures all[k].bytesPreceedingThisTD + all[k].bytesThisTD
          + all[k].bytesFollowingThisTD == log.sub[log.completed + k].total
      {
        assert live[k].Says() == facts[k] && Is(log, log.completed + k, facts[k]);
      }
    }

    /** No TD is on two lists or twice on one; the counts are the lengths. */
    lemma EachOnce()
      requires Valid()
      ensures NoDuplicates(done.s + HeldTD() + scheduled.s + queued.s + free.s)
      ensures done.count == |done.s| && scheduled.count == |scheduled.s| && queued.count == |queued.s|
        && free.count == |free.s|
    {
      hide Owned, Scratched, Books, Matches;
      var all := done.s + HeldTD() + scheduled.s + queued.s;
      assert all == live;
      forall i, j | 0 <= i < j < |live + free.s| ensures (live + free.s)[i] != (live + free.s)[j] {
        if i >= |live| { assert free.s[i - |live|] != free.s[j - |live|]; }
      }
    }

    /**
     * A command with an action is handed to the completer once for each of its transfers whose final TD has passed
     * through Complete, and one without never.
     */
    lemma HandedOnce(c: Command)
      requires Valid()
      ensures Count(handed, c) == if c.hasAction then Finals(log, log.completed, c) else 0
    {
      hide Lists, Matches, Scratched;
      ReportedOnce(log, log.completed, c);
    }

    /**
     * And what is handed over is the request less the bytes moved, if and only if each of its TDs that has
     * moved bytes was heard of, or covered by a later count of the whole transfer.
     */
    lemma HandedValue(i: int)
      requires Valid() && 0 <= i < log.completed <= |log.sub| == |log.moved| && log.sub[i].final
        && log.sub[i].command.hasAction
      ensures Report(log.sub[i].command, Low(log.Missed(i))) in handed
      ensures log.sub[i].total < TWO_32 ==> (Low(log.Missed(i)) == log.sub[i].total - log.Moved(i) <==> log.Heard(i))
    {
      hide Lists, Matches, Scratched, Log.Missed, Log.Moved, Log.Heard, Low;
      OpenIsWeaker(log);
      ReportedValue(log, log.completed, i);
      if log.sub[i].total < TWO_32 { ReportIsRequestLessMoved(log, i); }
    }
  }
}
