/** The command ring: commands are issued by a thread that waits for the answer, and completed by the interrupt. */
module CommandRings {
  import opened CycleRings

  datatype Command = Command(kind: nat, data: nat)

  /** The local variable of a waiting thread that the answer is written to. */
  class Cell {
    var value: int

    constructor ()
      ensures value == UNANSWERED
    {
      value := UNANSWERED;
    }
  }

  const UNANSWERED := -1
  const SUCCESS := 1

  /** How far the thread has come in issuing a command; `next` is the index behind the command's slot. */
  datatype Phase = Idle | Written(next: nat) | Published(next: nat) | Wrapped(next: nat)

  /** What became of a completed command's answer. */
  datatype Answer = Answered(cell: Cell, value: int) | Unwanted

  /** CompleteSlotCommand: the slot number, or an error number; never the value that says there is no answer. */
  function ResultOf(err: nat, slot: nat): (r: int)
    ensures r != UNANSWERED
  {
    if err == SUCCESS then slot else -1000 - err
  }

  /** The entry of the slot that is k slots behind the dequeue index. */
  function At(callbacks: seq<Cell?>, deq: nat, k: nat): Cell?
    requires deq < |callbacks| && k < |callbacks|
  {
    callbacks[Wrap(deq + k, |callbacks|)]
  }

  /**
   * The callback entries of the commands that are out, from the dequeue index on; no other slot has one but the
   * next, perhaps.
   */
  ghost predicate Entries(callbacks: seq<Cell?>, deq: nat, out: seq<Cell>, writing: bool) {
    && |out| < |callbacks| && deq < |callbacks|
    && (forall k :: 0 <= k < |out| ==> At(callbacks, deq, k) == null || At(callbacks, deq, k) == out[k])
    && (forall k :: (if writing then |out| + 1 else |out|) <= k < |callbacks| ==> At(callbacks, deq, k) == null)
    && (forall i, j :: 0 <= i < j < |callbacks| && callbacks[i] != null ==> callbacks[i] != callbacks[j])
  }

  lemma NoEntries(callbacks: seq<Cell?>)
    requires |callbacks| > 0 && forall i :: 0 <= i < |callbacks| ==> callbacks[i] == null
    ensures Entries(callbacks, 0, [], false)
  {
  }

  lemma EntryWritten(callbacks: seq<Cell?>, deq: nat, out: seq<Cell>, cell: Cell)
    requires Entries(callbacks, deq, out, false) && forall i :: 0 <= i < |callbacks| ==> callbacks[i] != cell
    ensures Entries(callbacks[Wrap(deq + |out|, |callbacks|) := cell], deq, out, true)
  {
    var callbacks' := callbacks[Wrap(deq + |out|, |callbacks|) := cell];
    forall k | 0 <= k < |callbacks| && k != |out| ensures At(callbacks', deq, k) == At(callbacks, deq, k) {}
  }

  lemma EntryPublished(callbacks: seq<Cell?>, deq: nat, out: seq<Cell>, cell: Cell)
    requires Entries(callbacks, deq, out, true) && |out| < |callbacks| - 1
    requires At(callbacks, deq, |out|) == null || At(callbacks, deq, |out|) == cell
    ensures Entries(callbacks, deq, out + [cell], false)
  {
  }

  lemma EntryWiped(callbacks: seq<Cell?>, deq: nat, out: seq<Cell>, writing: bool, i: int)
    requires Entries(callbacks, deq, out, writing) && 0 <= i < |callbacks|
    ensures Entries(callbacks[i := null], deq, out, writing)
  {
    var callbacks' := callbacks[i := null];
    forall k | 0 <= k < |callbacks|
      ensures At(callbacks', deq, k) == null || At(callbacks', deq, k) == At(callbacks, deq, k) {}
    forall j, k | 0 <= j < k < |callbacks| && callbacks'[j] != null ensures callbacks'[j] != callbacks'[k] {
      assert callbacks[j] == callbacks'[j];
    }
  }

  /** The oldest command's entry is cleared, and its slot becomes the last one to be used again. */
  lemma EntryCompleted(callbacks: seq<Cell?>, deq: nat, out: seq<Cell>, writing: bool)
    requires Entries(callbacks, deq, out, writing) && |out| > 0
    ensures callbacks[deq] == null || callbacks[deq] == out[0]
    ensures Entries(callbacks[deq := null], Wrap(deq + 1, |callbacks|), out[1..], writing)
  {
    var n, callbacks', deq' := |callbacks|, callbacks[deq := null], Wrap(deq + 1, |callbacks|);
    assert At(callbacks, deq, 0) == callbacks[deq];
    forall k | 0 <= k < n ensures At(callbacks', deq', k) == if k < n - 1 then At(callbacks, deq, k + 1) else null {}
  }

  /**
   * Each command has a cell of its own, which holds the answer once there is one; but the interrupt may have
   * copied the callback entry of the command completed last and not called it yet.
   */
  ghost predicate AnswersHold(cells: seq<Cell>, answers: seq<Answer>, allCells: set<Cell>, copied: Cell?, result: int)
    reads cells`value
  {
    && |answers| <= |cells|
    && (forall j, k :: 0 <= j < k < |cells| ==> cells[j] != cells[k])
    && (forall k :: 0 <= k < |cells| ==> cells[k] in allCells)
    && (copied != null ==>
      0 < |answers| && copied == cells[|answers| - 1] && answers[|answers| - 1] == Answered(copied, result))
    && (copied != null ==> result != UNANSWERED)
    && (forall k :: 0 <= k < |answers| ==>
      answers[k] == Unwanted || cells[k] == copied || answers[k] == Answered(cells[k], cells[k].value))
    && (forall k :: 0 <= k < |cells| ==>
          (k < |answers| && answers[k] != Unwanted && cells[k] != copied) == (cells[k].value != UNANSWERED))
  }

  lemma OneMoreCell(cells: seq<Cell>, answers: seq<Answer>, allCells: set<Cell>, copied: Cell?, result: int, cell: Cell)
    requires AnswersHold(cells, answers, allCells, copied, result) && cell !in cells && cell in allCells
      && cell.value == UNANSWERED
    ensures AnswersHold(cells + [cell], answers, allCells, copied, result)
  {
  }

  class CommandRing {
    /** The last slot is the link back to the first. */
    const ring: array<Entry<Command>>
    const callbacks: array<Cell?>
    var enqueueIndex: nat
    var dequeueIndex: nat
    var cycleState: bool

    var phase: Phase
    /** Where the controller is, and the cycle bit it expects. */
    var controllerIndex: nat
    var controllerCycle: bool

    /** The callback entry that the interrupt has copied and not called yet, and the result to call it with. */
    var copied: Cell?
    var copiedResult: int

    /** All commands issued, with the cells for their answers; how many the controller has fetched and completed. */
    ghost var issued: seq<Command>
    ghost var cells: seq<Cell>
    ghost var fetched: nat
    ghost var answers: seq<Answer>
    /** All cells there are. */
    ghost var allCells: set<Cell>

    /** The number of slots for commands. */
    function Size(): int
    {
      ring.Length - 1
    }

    /** The controller's place when it is seen as being past the link. */
    ghost function Place(): int
      reads this`controllerIndex
    {
      if controllerIndex == Size() then 0 else controllerIndex
    }

    ghost function PlaceCycle(): bool
      reads this`controllerIndex, this`controllerCycle
    {
      if controllerIndex == Size() then !controllerCycle else controllerCycle
    }

    /** Where the next command goes, and the cycle bit it will be given. */
    ghost function Next(): int
      reads this`phase, this`enqueueIndex
    {
      if phase.Published? || phase.Wrapped? then phase.next else enqueueIndex
    }

    ghost function NextCycle(): bool
      reads this`phase, this`cycleState
    {
      if phase.Published? && phase.next == 0 then !cycleState else cycleState
    }

    ghost predicate RingOk()
      reads ring, this`phase, this`enqueueIndex, this`cycleState, this`controllerIndex, this`controllerCycle,
        this`issued, this`fetched
    {
      && ring.Length >= 3 && controllerIndex <= Size() && fetched <= |issued|
      && RingHolds(ring[..Size()], Place(), PlaceCycle(), Next(), NextCycle(), issued[fetched..])
      && ring[Size()].cycle != cycleState
    }

    ghost predicate PhaseOk()
      reads ring, this`phase, this`enqueueIndex
    {
      && ring.Length >= 3 && enqueueIndex < Size()
      && (phase != Idle ==> phase.next == Wrap(enqueueIndex + 1, Size()))
    }

    ghost predicate CountsOk()
      reads this`controllerIndex, this`dequeueIndex, this`phase, this`enqueueIndex, this`issued, this`fetched,
        this`answers
    {
      && ring.Length >= 3 && controllerIndex <= Size() && dequeueIndex < Size()
      && |answers| <= fetched <= |issued|
      && |issued| - |answers| < (if phase.Written? then Size() - 1 else Size())
      && Place() == Wrap(dequeueIndex + (fetched - |answers|), Size())
      && Next() == Wrap(dequeueIndex + (|issued| - |answers|), Size())
    }

    ghost predicate CallbacksOk()
      reads callbacks, this`dequeueIndex, this`phase, this`issued, this`cells, this`answers, this`allCells, this`copied
    {
      && ring.Length >= 3 && callbacks.Length == ring.Length && callbacks[Size()] == null
      && |cells| == |issued| && |answers| <= |cells|
      && Entries(callbacks[..Size()], dequeueIndex, cells[|answers|..], phase.Written?)
      && forall i :: 0 <= i < callbacks.Length && callbacks[i] != null ==>
        callbacks[i] in allCells && callbacks[i] != copied
    }

    /** The cell of a command that is not seen yet. */
    ghost predicate PendingOk()
      reads callbacks, callbacks[..], this`phase, this`enqueueIndex
    {
      phase.Written? && enqueueIndex < callbacks.Length && callbacks[enqueueIndex] != null ==>
        callbacks[enqueueIndex].value == UNANSWERED
    }

    ghost predicate AnswersOk()
      reads this`cells, this`answers, this`allCells, this`copied, this`copiedResult, cells`value
    {
      AnswersHold(cells, answers, allCells, copied, copiedResult)
    }

    ghost predicate Valid()
      reads this, ring, callbacks, callbacks[..], cells`value
    {
      RingOk() && PhaseOk() && CountsOk() && CallbacksOk() && AnswersOk() && PendingOk()
    }

    /** InitCMDRing. */
    constructor (numTRBs: nat)
      requires numTRBs >= 3
      ensures Valid() && issued == [] && answers == [] && phase == Idle && ring.Length == numTRBs && copied == null
      ensures enqueueIndex == dequeueIndex == controllerIndex == fetched == 0 && allCells == {} && cells == []
      ensures fresh(ring) && fresh(callbacks) && callbacks.Length == numTRBs
    {
      hide RingHolds, Entries;
      ring := new Entry<Command>[numTRBs](_ => Entry(Command(0, 0), false));
      callbacks := new Cell?[numTRBs](_ => null);
      enqueueIndex, dequeueIndex, cycleState, phase, controllerIndex, controllerCycle := 0, 0, true, Idle, 0, true;
      issued, cells, fetched, answers, allCells := [], [], 0, [], {};
      copied, copiedResult := null, UNANSWERED;
      new;
      NoEntries(callbacks[..Size()]);
      assert RingHolds(ring[..Size()], 0, true, 0, true, issued[fetched..]) by { NothingIssued(ring[..Size()]); }
    }

    static lemma NothingIssued(slots: seq<Entry<Command>>)
      requires |slots| > 0 && forall i :: 0 <= i < |slots| ==> !slots[i].cycle
      ensures RingHolds(slots, 0, true, 0, true, [])
    {
    }

    // ---- the controller ----

    /** The controller goes past the link, or fetches the command it is at, if the cycle bit tells it to. */
    method Fetch() returns (moved: bool)
      requires Valid()
      modifies this`controllerIndex, this`controllerCycle, this`fetched
      ensures Valid() && (fetched > old(fetched) ==> fetched == old(fetched) + 1 <= |issued|)
      ensures old(fetched) < |issued| ==> moved && (old(controllerIndex) < Size() ==> fetched == old(fetched) + 1)
      ensures old(fetched) == |issued| ==> fetched == old(fetched)
    {
      hide CallbacksOk, AnswersOk, RingHolds;
      AtController();
      if ring[controllerIndex].cycle != controllerCycle {
        return false;
      }
      if controllerIndex == ring.Length - 1 {
        PassLink();
      } else {
        TakeCommand();
      }
      moved := true;
    }

    method PassLink()
      requires Valid() && controllerIndex == Size()
      modifies this`controllerIndex, this`controllerCycle
      ensures Valid()
    {
      hide CallbacksOk, AnswersOk, RingHolds;
      controllerIndex, controllerCycle := 0, !controllerCycle;
    }

    method TakeCommand()
      requires Valid() && controllerIndex < Size() && ring[controllerIndex].cycle == controllerCycle
      modifies this`controllerIndex, this`fetched
      ensures Valid() && fetched == old(fetched) + 1 <= |issued|
    {
      hide CallbacksOk, AnswersOk, RingHolds, PendingOk;
      AtController();
      controllerIndex := controllerIndex + 1;
      fetched := fetched + 1;
    }

    /** The cycle bits tell the controller exactly whether there is a command that it has not fetched. */
    lemma AtController()
      requires RingOk()
      ensures controllerIndex < Size() ==> (ring[controllerIndex].cycle == controllerCycle <==> fetched < |issued|)
      ensures controllerIndex < Size() && fetched < |issued| ==> ring[controllerIndex].item == issued[fetched]
      ensures controllerIndex < Size() && fetched < |issued| ==>
        RingHolds(ring[..Size()], Wrap(controllerIndex + 1, Size()),
                  if controllerIndex + 1 >= Size() then !controllerCycle else controllerCycle,
                  Next(), NextCycle(), issued[fetched + 1..])
      ensures controllerIndex == Size() && fetched < |issued| ==> ring[Size()].cycle == controllerCycle
    {
      hide RingHolds, Wrap;
      if controllerIndex < Size() {
        var slots, out := ring[..Size()], issued[fetched..];
        OldestItem(slots, Place(), PlaceCycle(), Next(), NextCycle(), out);
        if fetched < |issued| {
          Consumes(slots, Place(), PlaceCycle(), Next(), NextCycle(), out);
          assert out[1..] == issued[fetched + 1..];
        }
      } else if fetched < |issued| {
        AtLink();
      }
    }

    lemma AtLink()
      requires RingOk() && controllerIndex == Size() && fetched < |issued|
      ensures ring[Size()].cycle == controllerCycle
    {
    }

    // ---- EnqueCMD ----

    /** EnqueCMD finds out whether the ring has room, and writes the command and its callback; it is not seen yet. */
    method EnqueBegin(c: Command, cell: Cell) returns (room: bool)
      requires Valid() && phase == Idle && cell.value == UNANSWERED && cell !in allCells
      modifies ring, callbacks, this`phase, this`allCells
      ensures Valid() && allCells == old(allCells) + (if room then {cell} else {})
      ensures room == (|issued| - |answers| < Size() - 1)
      ensures if room then phase.Written? && ring[enqueueIndex].item == c && callbacks[enqueueIndex] == cell
              else phase == Idle
      ensures forall i :: 0 <= i < callbacks.Length && (!room || i != enqueueIndex) ==> callbacks[i] != cell
      ensures forall i :: 0 <= i < callbacks.Length && (!room || i != enqueueIndex) ==>
        callbacks[i] == old(callbacks[i])
    {
      hide RingOk, CallbacksOk, AnswersOk;
      NewCell(cell);
      var next := enqueueIndex;
      if next < ring.Length - 2 {
        next := next + 1;
      } else {
        next := 0;
      }
      if next == dequeueIndex {
        return false;
      }
      WriteBody(c);
      WriteCallback(cell, next);
      room := true;
    }

    lemma NewCell(cell: Cell)
      requires CallbacksOk() && AnswersOk() && cell !in allCells
      ensures copied != cell
      ensures callbacks.Length == ring.Length && |cells| == |issued|
      ensures cell !in cells && forall i :: 0 <= i < callbacks.Length ==> callbacks[i] != cell
    {
    }

    method WriteBody(c: Command)
      requires RingOk() && phase == Idle && enqueueIndex < Size()
      modifies ring
      ensures RingOk() && ring[enqueueIndex].item == c
    {
      hide RingHolds;
      HiddenWrite(ring[..Size()], Place(), PlaceCycle(), Next(), NextCycle(), issued[fetched..], c);
      var slots := ring[..Size()];
      ring[enqueueIndex] := ring[enqueueIndex].(item := c);
      assert ring[..Size()] == slots[enqueueIndex := slots[enqueueIndex].(item := c)];
    }

    method WriteCallback(cell: Cell, next: nat)
      requires Valid() && phase == Idle && cell.value == UNANSWERED && cell !in allCells
      requires |issued| - |answers| < Size() - 1 && next == Wrap(enqueueIndex + 1, Size())
      modifies callbacks, this`phase, this`allCells
      ensures Valid() && allCells == old(allCells) + {cell} && phase == Written(next) && callbacks[enqueueIndex] == cell
      ensures forall i :: 0 <= i < callbacks.Length && i != enqueueIndex ==> callbacks[i] == old(callbacks[i])
    {
      hide RingOk, AnswersOk, Entries;
      NewCell(cell);
      ghost var entries, out := callbacks[..Size()], cells[|answers|..];
      EntryWritten(entries, dequeueIndex, out, cell);
      callbacks[enqueueIndex] := cell;
      assert callbacks[..Size()] == entries[enqueueIndex := cell];
      phase := Written(next);
      allCells := allCells + {cell};
      StillHidden();
      StillAnswered();
    }

    /** A command that is written is not seen before its cycle bit is. */
    twostate lemma StillHidden()
      requires old(RingOk() && phase == Idle) && phase.Written? && unchanged(ring)
      requires unchanged(`enqueueIndex, `cycleState, `controllerIndex, `controllerCycle, `issued, `fetched)
      ensures RingOk()
    {
      hide RingHolds;
      assert ring[..Size()] == old(ring[..Size()]);
    }

    twostate lemma StillAnswered()
      requires old(AnswersOk()) && unchanged(`cells, `answers, `copied, `copiedResult) && old(allCells) <= allCells
      requires forall k :: 0 <= k < |cells| ==> cells[k].value == old(cells[k].value)
      ensures AnswersOk()
    {
    }

    /** The cycle bit is written with the last word: now the controller sees the command. */
    method EnquePublish(ghost c: Command, ghost cell: Cell)
      requires Valid() && phase.Written? && ring[enqueueIndex].item == c && callbacks[enqueueIndex] == cell
        && cell !in cells
      modifies ring, this`phase, this`issued, this`cells
      ensures Valid() && phase == Published(old(phase).next) && issued == old(issued) + [c]
        && cells == old(cells) + [cell]
    {
      hide RingOk, Entries, AnswersHold;
      OneMoreCell(cells, answers, allCells, copied, copiedResult, cell);
      MoreOut(cell);
      WriteCycle(c);
      cells := cells + [cell];
    }

    method WriteCycle(ghost c: Command)
      requires RingOk() && PhaseOk() && phase.Written? && ring[enqueueIndex].item == c
        && |issued| - fetched < Size() - 1
      modifies ring, this`phase, this`issued
      ensures RingOk() && phase == Published(old(phase).next) && issued == old(issued) + [c]
    {
      hide RingHolds;
      Posts(ring[..Size()], Place(), PlaceCycle(), Next(), NextCycle(), issued[fetched..], c);
      ghost var slots := ring[..Size()];
      assert issued[fetched..] + [c] == (issued + [c])[fetched..];
      ring[enqueueIndex] := ring[enqueueIndex].(cycle := cycleState);
      assert ring[..Size()] == slots[enqueueIndex := Entry(c, cycleState)];
      phase := Published(phase.next);
      issued := issued + [c];
    }

    lemma MoreOut(cell: Cell)
      requires CallbacksOk() && CountsOk() && phase.Written? && callbacks[enqueueIndex] == cell
      ensures Entries(callbacks[..Size()], dequeueIndex, (cells + [cell])[|answers|..], false)
      ensures |issued| - fetched < Size() - 1
    {
      hide Entries;
      EntryPublished(callbacks[..Size()], dequeueIndex, cells[|answers|..], cell);
      assert cells[|answers|..] + [cell] == (cells + [cell])[|answers|..];
    }

    /** Behind the last slot the link is given its cycle bit, and the driver's own is turned. */
    method EnqueWrap()
      requires Valid() && phase.Published?
      modifies ring, this`phase, this`cycleState
      ensures Valid() && phase == Wrapped(old(phase).next)
    {
      hide RingHolds, Entries, AnswersOk;
      ghost var slots := ring[..Size()];
      if phase.next == 0 {
        ring[ring.Length - 1] := ring[ring.Length - 1].(cycle := cycleState);
        cycleState := !cycleState;
      }
      assert ring[..Size()] == slots;
      phase := Wrapped(phase.next);
    }

    /** The next command goes behind this one. */
    method EnqueDone()
      requires Valid() && phase.Wrapped?
      modifies this`phase, this`enqueueIndex
      ensures Valid() && phase == Idle && enqueueIndex == old(phase).next
    {
      hide RingHolds, Entries, AnswersOk;
      enqueueIndex := phase.next;
      phase := Idle;
    }

    // ---- completions ----

    /**
     * DoCMDCompletion. The controller completes the commands that it has fetched in order; when it says that it
     * has stopped, all of them are completed and it names the place where it goes on. Other addresses are refused.
     */
    method DoCMDCompletion(idx: int, stopped: bool, err: nat, slot: nat) returns (ok: bool)
      requires Valid() && copied == null
      requires 0 <= idx < Size() ==>
        if stopped then |answers| == fetched && idx == controllerIndex
        else |answers| < fetched && idx == dequeueIndex
      modifies callbacks, this`dequeueIndex, this`answers, this`copied, this`copiedResult, allCells`value
      ensures Valid() && copied == null && ok == (0 <= idx < Size()) && old(answers) <= answers
      ensures !ok || stopped ==> answers == old(answers)
      ensures forall i :: 0 <= i < callbacks.Length ==> callbacks[i] == null || callbacks[i] == old(callbacks[i])
      ensures ok && !stopped ==>
        && |answers| == |old(answers)| + 1 <= |cells|
        && if old(callbacks[dequeueIndex]) == null then answers == old(answers) + [Unwanted]
           else answers == old(answers) + [Answered(cells[|old(answers)|], ResultOf(err, slot))]
                && cells[|old(answers)|].value == ResultOf(err, slot)
    {
      hide RingOk, PhaseOk, CallbacksOk, AnswersOk, PendingOk, CountsOk;
      ok := TakeCallback(idx, stopped, err, slot);
      if copied != null {
        CallCallback();
      }
    }

    /** Its first half: the callback entry is copied and cleared. */
    method TakeCallback(idx: int, stopped: bool, err: nat, slot: nat) returns (ok: bool)
      requires Valid() && copied == null
      requires 0 <= idx < Size() ==>
        if stopped then |answers| == fetched && idx == controllerIndex
        else |answers| < fetched && idx == dequeueIndex
      modifies callbacks, this`dequeueIndex, this`answers, this`copied, this`copiedResult
      ensures Valid() && ok == (0 <= idx < Size()) && old(answers) <= answers
      ensures !ok || stopped ==> answers == old(answers) && copied == null
      ensures forall i :: 0 <= i < callbacks.Length ==> callbacks[i] == null || callbacks[i] == old(callbacks[i])
      ensures phase.Written? && 0 <= enqueueIndex < callbacks.Length ==>
        callbacks[enqueueIndex] == old(callbacks[enqueueIndex])
      ensures ok && !stopped ==>
        && |answers| == |old(answers)| + 1 <= |cells| && copied == old(callbacks[dequeueIndex])
        && if copied == null then answers == old(answers) + [Unwanted]
           else answers == old(answers) + [Answered(cells[|old(answers)|], ResultOf(err, slot))]
                && copied == cells[|old(answers)|] && copiedResult == ResultOf(err, slot)
    {
      if idx < 0 || idx >= ring.Length - 1 {
        return false;
      }
      if stopped {
        SamePlace();
        dequeueIndex := idx;
        return true;
      }
      CopyEntry(ResultOf(err, slot));
      ok := true;
    }

    /** Its second half: the callback that was copied is called. */
    method CallCallback()
      requires Valid() && copied != null
      modifies this`copied, allCells`value
      ensures Valid() && copied == null && old(copied).value == copiedResult
      ensures forall cell :: cell in allCells && cell != old(copied) ==> cell.value == old(cell.value)
    {
      hide RingOk, Entries;
      CopiedIs();
      var copy := copied;
      copy.value := copiedResult;
      copied := null;
    }

    lemma CopiedIs()
      requires AnswersOk() && copied != null
      ensures copied in allCells && copiedResult != UNANSWERED
    {
    }

    lemma SamePlace()
      requires CountsOk() && |answers| == fetched && controllerIndex < Size()
      ensures dequeueIndex == controllerIndex
    {
    }

    /** The oldest command that is out is completed: its callback entry is taken. */
    method CopyEntry(result: int)
      requires Valid() && copied == null && |answers| < fetched && result != UNANSWERED
      modifies callbacks, this`dequeueIndex, this`answers, this`copied, this`copiedResult
      ensures Valid() && |old(answers)| < |cells| && |answers| == |old(answers)| + 1 && old(answers) <= answers
      ensures forall i :: 0 <= i < callbacks.Length ==> callbacks[i] == null || callbacks[i] == old(callbacks[i])
      ensures phase.Written? && 0 <= enqueueIndex < callbacks.Length ==>
        callbacks[enqueueIndex] == old(callbacks[enqueueIndex])
      ensures copied == old(callbacks[dequeueIndex]) && copiedResult == result
      ensures if copied == null then answers == old(answers) + [Unwanted]
              else
                && answers == old(answers) + [Answered(cells[|old(answers)|], result)]
                && copied == cells[|old(answers)|]
    {
      hide RingOk, CallbacksOk, AnswersOk, PendingOk, CountsOk, Wrap;
      BehindOldest();
      OldestEntry();
      var newIdx := dequeueIndex + 1;
      if newIdx >= ring.Length - 1 {
        newIdx := 0;
      }
      var copy := callbacks[dequeueIndex];
      TakeEntry(newIdx, copy, if copy == null then Unwanted else Answered(cells[|answers|], result));
      copiedResult := result;
      OneAnswered();
      StillPending();
    }

    twostate lemma StillPending()
      requires old(PendingOk()) && unchanged(`phase, `enqueueIndex)
      requires phase.Written? && enqueueIndex < callbacks.Length && callbacks[enqueueIndex] != null ==>
        callbacks[enqueueIndex] == old(callbacks[enqueueIndex])
          && callbacks[enqueueIndex].value == old(callbacks[enqueueIndex].value)
      ensures PendingOk()
    {
    }

    lemma BehindOldest()
      requires CountsOk() && |answers| < fetched
      ensures ring.Length >= 3 && dequeueIndex < Size() && |answers| < |issued|
      ensures phase.Written? ==> enqueueIndex != dequeueIndex
      ensures Wrap(dequeueIndex + 1, Size()) == if dequeueIndex + 1 >= ring.Length - 1 then 0 else dequeueIndex + 1
    {
    }

    /** The entry of the oldest command is cleared; its slot may be used again. */
    method TakeEntry(newIdx: nat, copy: Cell?, ghost answer: Answer)
      requires CallbacksOk() && CountsOk() && copied == null && |answers| < fetched
        && newIdx == Wrap(dequeueIndex + 1, Size())
      requires callbacks.Length == ring.Length && copy == callbacks[dequeueIndex]
      modifies callbacks, this`dequeueIndex, this`answers, this`copied
      ensures CallbacksOk() && CountsOk() && answers == old(answers) + [answer] && copied == copy
      ensures forall i :: 0 <= i < callbacks.Length ==>
        callbacks[i] == old(if i == dequeueIndex then null else callbacks[i])
    {
      hide Entries;
      OldestEntry();
      ghost var entries := callbacks[..Size()];
      callbacks[dequeueIndex] := null;
      assert callbacks[..Size()] == entries[dequeueIndex := null];
      dequeueIndex := newIdx;
      answers := answers + [answer];
      copied := copy;
    }

    twostate lemma OneAnswered()
      requires old(AnswersOk() && copied == null) && unchanged(`cells, `allCells)
      requires |answers| == |old(answers)| + 1 <= |cells| && old(answers) <= answers
      requires var k := |answers| - 1;
        if copied == null then answers[k] == Unwanted
        else copied == cells[k] && copiedResult != UNANSWERED && answers[k] == Answered(copied, copiedResult)
      requires forall k :: 0 <= k < |cells| ==> cells[k].value == old(cells[k].value)
      ensures AnswersOk()
    {
      forall k | 0 <= k < |old(answers)| ensures answers[k] == old(answers)[k] {}
    }

    lemma OldestEntry()
      requires CallbacksOk() && CountsOk() && |answers| < |issued|
      ensures callbacks.Length == ring.Length && |cells| == |issued|
        && (callbacks[dequeueIndex] != null ==> callbacks[dequeueIndex] in allCells)
      ensures callbacks[dequeueIndex] == null || callbacks[dequeueIndex] == cells[|answers|]
      ensures Entries(callbacks[..Size()][dequeueIndex := null], Wrap(dequeueIndex + 1, Size()), cells[|answers| + 1..],
                      phase.Written?)
      ensures forall i :: 0 <= i < callbacks.Length && i != dequeueIndex && callbacks[i] != null ==>
        callbacks[i] != callbacks[dequeueIndex]
    {
      EntryCompleted(callbacks[..Size()], dequeueIndex, cells[|answers|..], phase.Written?);
      assert cells[|answers|..][1..] == cells[|answers| + 1..];
      forall i | 0 <= i < callbacks.Length && i != dequeueIndex && callbacks[i] != null
        ensures callbacks[i] != callbacks[dequeueIndex] {
        assert i < Size() && callbacks[..Size()][i] == callbacks[i];
      }
    }

    // ---- the waiting thread, with the controller and the interrupt running in between its steps ----

    /** Neither a callback entry nor the one that the interrupt has copied refers to this cell. */
    ghost predicate Unreferenced(cell: Cell)
      reads callbacks, this`copied
    {
      copied != cell && forall i :: 0 <= i < callbacks.Length ==> callbacks[i] != cell
    }

    /** The controller's place is where the oldest uncompleted command is only if it has fetched no more. */
    lemma AtPlace()
      requires CountsOk()
      ensures Place() == dequeueIndex <==> |answers| == fetched
    {
    }

    lemma InCallbacks()
      requires Valid()
      ensures dequeueIndex < callbacks.Length
    {
    }

    /** One step of the controller, or of the interrupt when the controller has completed a command or stopped. */
    method OtherStep(fetch: bool, err: nat, slot: nat)
      requires Valid()
      modifies callbacks, this`controllerIndex, this`controllerCycle, this`fetched, this`dequeueIndex, this`answers
      modifies this`copied, this`copiedResult, allCells`value
      ensures Valid() && old(answers) <= answers
      ensures forall i :: 0 <= i < callbacks.Length ==> callbacks[i] == null || callbacks[i] == old(callbacks[i])
      ensures phase.Written? && 0 <= enqueueIndex < callbacks.Length ==>
        callbacks[enqueueIndex] == old(callbacks[enqueueIndex])
      ensures forall cell :: cell in old(allCells) && old(Unreferenced(cell)) ==>
        Unreferenced(cell) && cell.value == old(cell.value)
    {
      hide RingOk, CallbacksOk, AnswersOk, PendingOk, PhaseOk;
      AtPlace();
      InCallbacks();
      if fetch {
        var moved := Fetch();
      } else if copied != null {
        CallCallback();
      } else if (if controllerIndex == ring.Length - 1 then 0 else controllerIndex) != dequeueIndex {
        var ok := TakeCallback(dequeueIndex, false, err, slot);
      } else {
        var ok := TakeCallback(controllerIndex, true, err, slot);
      }
    }

    /** The controller and the interrupt make any number of steps. */
    method OthersRun()
      requires Valid()
      modifies callbacks, this`controllerIndex, this`controllerCycle, this`fetched, this`dequeueIndex, this`answers
      modifies this`copied, this`copiedResult, allCells`value
      ensures Valid() && old(answers) <= answers
      ensures forall i :: 0 <= i < callbacks.Length ==> callbacks[i] == null || callbacks[i] == old(callbacks[i])
      ensures phase.Written? && 0 <= enqueueIndex < callbacks.Length ==>
        callbacks[enqueueIndex] == old(callbacks[enqueueIndex])
      ensures forall cell :: cell in old(allCells) && old(Unreferenced(cell)) ==>
        Unreferenced(cell) && cell.value == old(cell.value)
    {
      hide RingOk, CallbacksOk, AnswersOk, PendingOk, PhaseOk, CountsOk;
      var steps: nat := *;
      while steps > 0
        invariant Valid() && old(answers) <= answers
        invariant forall i :: 0 <= i < callbacks.Length ==> callbacks[i] == null || callbacks[i] == old(callbacks[i])
        invariant phase.Written? && 0 <= enqueueIndex < callbacks.Length ==>
          callbacks[enqueueIndex] == old(callbacks[enqueueIndex])
        invariant forall cell :: cell in old(allCells) && old(Unreferenced(cell)) ==>
          Unreferenced(cell) && cell.value == old(cell.value)
      {
        var fetch: bool, err: nat, slot: nat := *, *, *;
        OtherStep(fetch, err, slot);
        steps := steps - 1;
      }
    }

    /** EnqueCMD: a command is issued if the ring has room for it; no other callback entry refers to its cell. */
    method EnqueCMD(c: Command, cell: Cell) returns (accepted: bool)
      requires Valid() && phase == Idle && cell.value == UNANSWERED && cell !in allCells
      modifies ring, callbacks, this`phase, this`allCells, this`issued, this`cells, this`cycleState, this`enqueueIndex
      modifies this`controllerIndex, this`controllerCycle, this`fetched, this`dequeueIndex, this`answers
      modifies this`copied, this`copiedResult, allCells`value, cell`value
      ensures Valid() && phase == Idle && old(answers) <= answers
      ensures accepted == (|old(issued)| - |old(answers)| < Size() - 1)
      ensures if accepted
              then issued == old(issued) + [c] && cells == old(cells) + [cell] && allCells == old(allCells) + {cell}
              else issued == old(issued) && cells == old(cells)
      ensures forall i :: 0 <= i < callbacks.Length && (!accepted || i != old(enqueueIndex)) ==> callbacks[i] != cell
      ensures !accepted ==> cell.value == UNANSWERED
      ensures forall other :: other in old(allCells) && old(Unreferenced(other)) ==>
        Unreferenced(other) && other.value == old(other.value)
    {
      hide RingOk, CallbacksOk, AnswersOk, PendingOk, CountsOk;
      NewCell(cell);
      accepted := EnqueBegin(c, cell);
      if !accepted {
        return;
      }
      OthersRun();
      EnquePublish(c, cell);
      OthersRun();
      EnqueWrap();
      OthersRun();
      EnqueDone();
    }

    /** An answered command has no callback entry. */
    lemma AnsweredHasNoEntry(cell: Cell)
      requires Valid() && phase == Idle && cell.value != UNANSWERED
      ensures forall i :: 0 <= i < callbacks.Length ==> callbacks[i] != cell
    {
      hide RingOk;
      forall i | 0 <= i < callbacks.Length ensures callbacks[i] != cell {
        if i < Size() {
          var k := if i >= dequeueIndex then i - dequeueIndex else i - dequeueIndex + Size();
          assert At(callbacks[..Size()], dequeueIndex, k) == callbacks[i];
          if k < |cells| - |answers| { assert cells[|answers| + k].value == UNANSWERED; }
        }
      }
    }

    /**
     * The cell of a command holds its answer, unless the interrupt still has to put it there, or says that there
     * is none.
     */
    lemma AnswerOf(k: nat)
      requires Valid() && k < |cells|
      ensures k < |answers| && answers[k].Answered? <==> cells[k].value != UNANSWERED || copied == cells[k]
      ensures copied == cells[k] ==> cells[k].value == UNANSWERED && answers[k] == Answered(cells[k], copiedResult)
      ensures cells[k].value != UNANSWERED ==> answers[k] == Answered(cells[k], cells[k].value)
    {
    }

    lemma CopiedIssued()
      requires Valid() && copied != null
      ensures copied in cells && copied in allCells
    {
    }

    lemma AnsweredIssued()
      requires Valid()
      ensures |answers| <= |issued| == |cells| && enqueueIndex < Size()
    {
    }

    /**
     * WaitForCMD, with no other such call at the same time: issues a command and waits for its answer for as
     * long as the controller and the interrupt make steps. When it returns, no callback entry refers to its
     * local variable; it returns the answer to its command if it has been called by then, and otherwise the
     * value that says that there is none. Wiping the entry comes too late if and only if the interrupt has
     * copied it by then and not called it: then the interrupt writes to the variable that is no more.
     */
    method WaitForCMD(c: Command) returns (ret: int, ghost cell: Cell)
      requires Valid() && phase == Idle
      modifies ring, callbacks, this`phase, this`allCells, this`issued, this`cells, this`cycleState, this`enqueueIndex
      modifies this`controllerIndex, this`controllerCycle, this`fetched, this`dequeueIndex, this`answers
      modifies this`copied, this`copiedResult, allCells`value
      ensures Valid() && phase == Idle && fresh(cell) && old(answers) <= answers
      ensures forall i :: 0 <= i < callbacks.Length ==> callbacks[i] != cell
      ensures ret == cell.value
        && (issued == old(issued) || (issued == old(issued) + [c] && cells == old(cells) + [cell]))
      ensures |old(issued)| < |issued| && |old(issued)| < |answers| && answers[|old(issued)|].Answered? <==>
        ret != UNANSWERED || copied == cell
      ensures ret != UNANSWERED ==> copied != cell && answers[|old(issued)|] == Answered(cell, ret)
      ensures Unreferenced(cell) <==> copied != cell
      ensures forall other :: other in old(allCells) && old(Unreferenced(other)) ==>
        Unreferenced(other) && other.value == old(other.value)
    {
      hide RingOk, CallbacksOk, AnswersOk, PendingOk, CountsOk, PhaseOk;
      var result := new Cell();
      cell := result;
      var gone: bool := *;
      NewCell(cell);
      AnsweredIssued();
      if gone {
        return UNANSWERED, cell;
      }
      var prevIndex := enqueueIndex;
      var accepted := EnqueCMD(c, result);
      if !accepted {
        if copied != null { CopiedIssued(); }
        return UNANSWERED, cell;
      }
      OthersRun();
      if result.value == UNANSWERED {
        OthersRun();
        if result.value == UNANSWERED {
          OthersRun();
          Wipe(prevIndex);
        }
      }
      ret := result.value;
      AnswerOf(|old(issued)|);
      if ret != UNANSWERED {
        AnsweredHasNoEntry(cell);
      }
    }

    /**
     * What happens to the cell of a call that has returned, when the controller and the interrupt go on: it may be
     * written to if and only if the interrupt had copied its callback by then. Whatever they do, it is not
     * otherwise; and if it had, calling what was copied (`call`) does it.
     */
    method AfterReturn(cell: Cell, call: bool)
      requires Valid() && cell in allCells && forall i :: 0 <= i < callbacks.Length ==> callbacks[i] != cell
      modifies callbacks, this`controllerIndex, this`controllerCycle, this`fetched, this`dequeueIndex, this`answers
      modifies this`copied, this`copiedResult, allCells`value
      ensures Valid()
      ensures old(copied) != cell ==> cell.value == old(cell.value) && Unreferenced(cell)
      ensures old(copied) == cell && call ==> cell.value != old(cell.value)
    {
      hide RingOk, CallbacksOk, AnswersOk, PendingOk, PhaseOk, CountsOk;
      if call && copied != null {
        CopiedUnanswered();
        CallCallback();
      } else {
        OthersRun();
      }
    }

    lemma CopiedUnanswered()
      requires Valid() && copied != null
      ensures copied.value == UNANSWERED && copiedResult != UNANSWERED
    {
    }

    /** The callback entry of a command that has not been answered in time is cleared. */
    method Wipe(prevIndex: nat)
      requires Valid() && phase == Idle && prevIndex < Size()
      modifies callbacks
      ensures Valid() && callbacks[prevIndex] == null
      ensures forall i :: 0 <= i < callbacks.Length && i != prevIndex ==> callbacks[i] == old(callbacks[i])
    {
      hide RingOk, AnswersOk, CountsOk, Entries;
      ghost var entries := callbacks[..Size()];
      EntryWiped(entries, dequeueIndex, cells[|answers|..], false, prevIndex);
      callbacks[prevIndex] := null;
      assert callbacks[..Size()] == entries[prevIndex := null];
    }

    // ---- what the controller sees ----

    /**
     * The controller's walk: past the link if its cycle bit is right, then slot by slot as long as the cycle bits
     * are.
     */
    ghost function Walk(index: nat, cycle: bool, steps: nat): seq<Command>
      requires ring.Length >= 3 && index <= Size()
      reads ring
      decreases steps
    {
      if steps == 0 || ring[index].cycle != cycle then []
      else if index == Size() then Walk(0, !cycle, steps - 1)
      else [ring[index].item] + Walk(index + 1, cycle, steps - 1)
    }

    /** It sees exactly the commands that are issued and not fetched, in order. */
    lemma WalkIsOutstanding(steps: nat)
      requires Valid() && steps >= 2 * (|issued| - fetched) + 2
      ensures Walk(controllerIndex, controllerCycle, steps) == issued[fetched..]
    {
      hide RingHolds, CallbacksOk, AnswersOk;
      WalkFrom(controllerIndex, controllerCycle, fetched, steps);
    }

    lemma {:induction false} WalkFrom(index: nat, cycle: bool, at: nat, steps: nat)
      requires RingOk() && at <= |issued| && index <= Size()
      requires steps >= 2 * (|issued| - at) + if index == Size() then 2 else 1
      requires var (place, placeCycle) := if index == Size() then (0, !cycle) else (index, cycle);
        RingHolds(ring[..Size()], place, placeCycle, Next(), NextCycle(), issued[at..])
      ensures Walk(index, cycle, steps) == issued[at..]
      decreases steps
    {
      hide RingHolds;
      var slots, out := ring[..Size()], issued[at..];
      if index == Size() {
        if |out| > 0 { LinkSeen(cycle, out); }
        if ring[index].cycle == cycle { WalkFrom(0, !cycle, at, steps - 1); }
      } else {
        OldestItem(slots, index, cycle, Next(), NextCycle(), out);
        if |out| > 0 {
          Consumes(slots, index, cycle, Next(), NextCycle(), out);
          assert out[1..] == issued[at + 1..] && out == [out[0]] + out[1..];
          WalkFrom(index + 1, cycle, at + 1, steps - 1);
        }
      }
    }

    lemma LinkSeen(cycle: bool, out: seq<Command>)
      requires RingOk() && RingHolds(ring[..Size()], 0, !cycle, Next(), NextCycle(), out) && |out| > 0
      ensures ring[Size()].cycle == cycle
    {
    }
  }

  /**
   * A run in which wiping the entry comes too late: the interrupt has copied it, the thread finds no answer, wipes
   * the entry and returns; what the interrupt does next is to write to `cell`.
   */
  method LateCall(c: Command) returns (r: CommandRing, cell: Cell)
    ensures r.Valid() && r.phase == Idle && r.issued == [c] && r.cells == [cell]
    ensures forall i :: 0 <= i < r.callbacks.Length ==> r.callbacks[i] != cell
    ensures cell.value == UNANSWERED && r.copied == cell
  {
    hide CommandRing.RingOk, CommandRing.CallbacksOk, CommandRing.AnswersOk, CommandRing.PendingOk;
    r, cell := OneFetched(c);
    var ok := r.TakeCallback(0, false, SUCCESS, 1);
    r.Wipe(0);
  }

  /** A new ring, with one command that the controller has fetched. */
  method OneFetched(c: Command) returns (r: CommandRing, cell: Cell)
    ensures r.Valid() && r.phase == Idle && r.issued == [c] && r.cells == [cell] && r.fetched == 1 && r.answers == []
    ensures fresh(r) && fresh(r.callbacks) && r.callbacks.Length == r.ring.Length == 3 && r.copied == null
      && r.dequeueIndex == 0
    ensures r.callbacks[0] == cell && cell.value == UNANSWERED
    ensures forall i :: 0 < i < r.callbacks.Length ==> r.callbacks[i] != cell
  {
    hide CommandRing.RingOk, CommandRing.CallbacksOk, CommandRing.AnswersOk, CommandRing.PendingOk,
      CommandRing.CountsOk;
    r := new CommandRing(3);
    cell := new Cell();
    var room := r.EnqueBegin(c, cell);
    r.EnquePublish(c, cell);
    r.EnqueWrap();
    r.EnqueDone();
    var moved := r.Fetch();
  }
}
