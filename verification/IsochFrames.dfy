/** The frames of an isochronous TD on the ring, and the way back from an event to its frame. */
module IsochFrames {
  import opened Basics
  import opened Trb
  import opened Admission
  import opened TransferSpec
  import opened TransferRings
  import opened Transfers
  import opened IsochRanges

  const MAX_TRANSFERS_PER_FRAME: nat := 8

  class IsochTD {
    const firstTrbIndex: array<int>
    const trbCount: array<int>
    var framesInTD: nat

    ghost predicate Valid()
      reads this
    {
      && firstTrbIndex != trbCount
      && firstTrbIndex.Length == MAX_TRANSFERS_PER_FRAME && trbCount.Length == MAX_TRANSFERS_PER_FRAME
      && framesInTD <= MAX_TRANSFERS_PER_FRAME
    }

    constructor (frames: nat)
      requires frames <= MAX_TRANSFERS_PER_FRAME
      ensures Valid() && framesInTD == frames && fresh(firstTrbIndex) && fresh(trbCount)
      ensures forall k :: 0 <= k < MAX_TRANSFERS_PER_FRAME ==> trbCount[k] == 0
    {
      firstTrbIndex := new int[MAX_TRANSFERS_PER_FRAME](_ => 0);
      trbCount := new int[MAX_TRANSFERS_PER_FRAME](_ => 0);
      framesInTD := frames;
    }

    /** The TRB at slot i belongs to frame k. */
    ghost predicate Owns(k: int, i: int)
      requires Valid() && 0 <= k < framesInTD
      reads this, firstTrbIndex, trbCount
    {
      firstTrbIndex[k] <= i < firstTrbIndex[k] + trbCount[k]
    }

    /** No slot belongs to two frames. */
    ghost predicate Disjoint()
      requires Valid()
      reads this, firstTrbIndex, trbCount
    {
      forall j, k, i :: 0 <= j < framesInTD && 0 <= k < framesInTD && Owns(j, i) && Owns(k, i) ==> j == k
    }

    /** The slots that its frames have got. */
    function Ranges(): (r: seq<SlotRange>)
      requires Valid()
      reads this, firstTrbIndex, trbCount
      ensures |r| == framesInTD && forall k, i :: 0 <= k < framesInTD ==> (r[k].Has(i) <==> Owns(k, i))
    {
      seq(framesInTD, k requires 0 <= k < framesInTD && Valid() reads this, firstTrbIndex, trbCount =>
        SlotRange(firstTrbIndex[k], trbCount[k]))
    }

    method FrameForEventIndex(trbIndex: int) returns (frame: int)
      requires Valid()
      ensures -1 <= frame < framesInTD && frame == FrameOf(Ranges(), trbIndex)
      ensures frame < 0 ==> forall k :: 0 <= k < framesInTD ==> !Owns(k, trbIndex)
      ensures frame >= 0 ==> Owns(frame, trbIndex)
      ensures Disjoint() ==> forall k :: 0 <= k < framesInTD && Owns(k, trbIndex) ==> k == frame
    {
      for transfer := 0 to framesInTD
        invariant forall k :: 0 <= k < transfer ==> !Owns(k, trbIndex)
      {
        var first := firstTrbIndex[transfer];
        if trbIndex >= first && trbIndex < first + trbCount[transfer] {
          assert Owns(transfer, trbIndex);
          FrameIs(Ranges(), trbIndex, transfer);
          return transfer;
        }
      }
      FrameIs(Ranges(), trbIndex, -1);
      return -1;
    }

    /** What the frames scheduled so far own is pending now and was not before. */
    ghost predicate Laid(before: seq<int>, after: seq<int>, upto: int)
      requires Valid() && 0 <= upto <= framesInTD
      reads this, firstTrbIndex, trbCount
    {
      && before <= after
      && (forall k, i :: 0 <= k < upto && Owns(k, i) ==> i in after && i !in before)
      && (forall k :: upto <= k < framesInTD ==> trbCount[k] == 0)
      && (forall j, k, i :: 0 <= j < upto && 0 <= k < upto && Owns(j, i) && Owns(k, i) ==> j == k)
    }
  }

  function Flatten(ts: seq<seq<Body>>): seq<Body> {
    if |ts| == 0 then [] else Flatten(ts[..|ts| - 1]) + ts[|ts| - 1]
  }

  lemma FlattenAppend(ts: seq<seq<Body>>, t: seq<Body>)
    ensures Flatten(ts + [t]) == Flatten(ts) + t
  {
    assert (ts + [t])[..|ts|] == ts;
  }

  /**
   * A frame that could be laid out owns as many slots as it has TRBs, in one range that ends at the slot its
   * last TRB is in; one that could not owns none and has left nothing on the ring.
   */
  ghost predicate Exact(r: Request, phys: nat, first: int, count: int, trbs: seq<Body>) {
    && count == |trbs|
    && (count > 0 ==> r.maxPacket > 0 && first >= 0 && trbs == TdTrbs(r, SlotAddress(phys, first + count - 1)))
  }

  /**
   * The loop of AddIsocFramesToSchedule_stage2: one transfer for each frame of a new TD. The slots of
   * different frames are disjoint, and disjoint from everything that was pending before. `laid` holds the
   * TRBs of each frame. If there is room for what is reserved for all frames, and their segments break only at
   * pages, every frame gets its own.
   */
  method ScheduleFrames(ring: TransferRing, td: IsochTD, frames: seq<Request>, ghost pageOffset: nat -> nat)
    returns (ghost laid: seq<seq<Body>>)
    requires td.Valid() && |frames| == td.framesInTD && ring.Valid() && ring.first < 0
    requires forall k :: 0 <= k < |frames| ==> frames[k].isIsoch && frames[k].Valid() && frames[k].NoEmptySegments()
    requires forall k :: 0 <= k < td.framesInTD ==> td.trbCount[k] == 0
    requires {td, td.firstTrbIndex, td.trbCount} !! {ring, ring.slots}
    modifies ring, ring.slots, td.firstTrbIndex, td.trbCount
    ensures ring.Valid() && ring.first < 0 && td.Valid() && td.Disjoint()
    ensures old(ring.Order()) <= ring.Order()
    ensures forall k, i :: 0 <= k < td.framesInTD && td.Owns(k, i) ==> i in ring.Order() && i !in old(ring.Order())
    ensures |laid| == |frames| == td.framesInTD && ring.Queue() == old(ring.Queue()) + Flatten(laid)
    ensures forall k :: 0 <= k < |frames| ==> Exact(frames[k], ring.phys, td.firstTrbIndex[k], td.trbCount[k], laid[k])
    ensures AllRegular(frames, pageOffset) && old(ring.HasRoomFor(ReservedForAll(frames, 0))) ==>
      forall k :: 0 <= k < |frames| ==> |laid[k]| > 0
  {
    hide TransferRing.Valid, TransferRing.Order, TransferRing.Queue, TransferRing.State, IsochTD.Disjoint, IsochTD.Owns,
      Exact, Flatten, TransferRing.HasRoomFor, TransferRing.Room, Regular, AllRegular;
    ghost var fits, start := AllRegular(frames, pageOffset) && ring.HasRoomFor(ReservedForAll(frames, 0)), ring.Order();
    ring.RoomIs();
    laid := [];
    assert Flatten(laid) == [] && ring.Queue() + [] == ring.Queue() by { FlattenNone(ring.Queue()); }
    for transfer := 0 to td.framesInTD
      invariant ring.Valid() && ring.first < 0 && td.Valid() && td.framesInTD == |frames|
      invariant td.Laid(start, ring.Order(), transfer)
      invariant |laid| == transfer && ring.Queue() == old(ring.Queue()) + Flatten(laid)
      invariant forall k :: 0 <= k < transfer ==>
        Exact(frames[k], ring.phys, td.firstTrbIndex[k], td.trbCount[k], laid[k])
      invariant fits ==> ring.Room() >= ReservedForAll(frames, transfer)
      invariant fits ==> forall k :: 0 <= k < transfer ==> |laid[k]| > 0
    {
      if fits { EachRegular(frames, pageOffset, transfer); }
      ghost var trbs := ScheduleFrame(ring, td, frames[transfer], transfer, pageOffset(transfer), start);
      FlattenAppend(laid, trbs);
      laid := laid + [trbs];
    }
    LaidMeans(td, start, ring.Order());
  }

  /** One transfer; the slots it gets are noted, if it gets any. */
  method ScheduleFrame(ring: TransferRing, td: IsochTD, r: Request, transfer: int, ghost pageOffset: nat,
                       ghost start: seq<int>)
    returns (ghost trbs: seq<Body>)
    requires ring.Valid() && ring.first < 0 && td.Valid() && 0 <= transfer < td.framesInTD
    requires r.isIsoch && r.Valid() && r.NoEmptySegments()
    requires td.Laid(start, ring.Order(), transfer)
    requires {td, td.firstTrbIndex, td.trbCount} !! {ring, ring.slots}
    modifies ring, ring.slots, td.firstTrbIndex, td.trbCount
    ensures ring.Valid() && ring.first < 0 && td.Valid() && td.Laid(start, ring.Order(), transfer + 1)
    ensures ring.Queue() == old(ring.Queue()) + trbs
    ensures Exact(r, ring.phys, td.firstTrbIndex[transfer], td.trbCount[transfer], trbs)
    ensures forall k :: 0 <= k < transfer ==>
      td.firstTrbIndex[k] == old(td.firstTrbIndex[k]) && td.trbCount[k] == old(td.trbCount[k])
    ensures Regular(r, pageOffset) && old(ring.Room()) >= ReservedTrbs(r.bytes) ==>
      |trbs| > 0 && ring.Room() + ReservedTrbs(r.bytes) >= old(ring.Room())
  {
    hide TransferRing.Valid, TransferRing.Order, TransferRing.Queue, TransferRing.State, TransferRing.HasRoomFor,
      TransferRing.Room, TdTrbs, DataTrbs, Regular, AddsSlots, IsochTD.Disjoint, IsochTD.Owns, IsochTD.Laid, Start,
      SlotAddress, IsCut, LastCut, Bodies;
    ghost var before := ring.Order();
    ring.RoomIs();
    var rc, first, count, last, fs := CreateTransfer(ring, r, pageOffset);
    OneFragment(r, fs, |DataTrbs(r, 0, r.offset, r.bytes)|);
    assert fs == 0;
    trbs := [];
    if rc == Success {
      trbs := TdTrbs(r, SlotAddress(ring.phys, last));
      ring.OrderOfQueue();
      TrbsReserved(r, pageOffset, SlotAddress(ring.phys, last));
      Record(td, transfer, first, count, start, before, ring.Order());
    } else {
      StaysLaid(td, start, before, transfer);
    }
  }

  /** The frames' segments are as the driver reckons with. */
  ghost predicate AllRegular(frames: seq<Request>, pageOffset: nat -> nat) {
    forall k :: 0 <= k < |frames| ==> Regular(frames[k], pageOffset(k))
  }

  lemma EachRegular(frames: seq<Request>, pageOffset: nat -> nat, k: nat)
    requires AllRegular(frames, pageOffset) && k < |frames|
    ensures Regular(frames[k], pageOffset(k))
  {
  }

  /** What is reserved for the frames from frame k on. */
  function ReservedForAll(frames: seq<Request>, k: nat): nat
    decreases |frames| - k
  {
    if k >= |frames| then 0 else ReservedTrbs(frames[k].bytes) + ReservedForAll(frames, k + 1)
  }

  lemma TrbsReserved(r: Request, pageOffset: nat, addr: nat)
    requires r.Valid() && r.NoEmptySegments()
    ensures |TdTrbs(r, addr)| > 0 && (Regular(r, pageOffset) ==> |TdTrbs(r, addr)| <= ReservedTrbs(r.bytes))
  {
    if Regular(r, pageOffset) { TdReserved(r, pageOffset, addr); }
  }

  /** An isochronous transfer is one fragment. */
  lemma OneFragment(r: Request, fs: nat, i: int)
    requires r.isIsoch && r.maxPacket > 0
    ensures LastCut(r, fs, i) || fs == 0 || IsCut(r, fs) ==> fs == 0
  {
  }

  lemma StaysLaid(td: IsochTD, start: seq<int>, before: seq<int>, transfer: int)
    requires td.Valid() && 0 <= transfer < td.framesInTD && td.Laid(start, before, transfer)
    ensures td.Laid(start, before, transfer + 1) && td.trbCount[transfer] == 0
  {
  }

  lemma FlattenNone(q: seq<Body>)
    ensures Flatten([]) == [] && q + [] == q
  {
  }

  lemma LaidMeans(td: IsochTD, before: seq<int>, after: seq<int>)
    requires td.Valid() && td.Laid(before, after, td.framesInTD)
    ensures td.Disjoint()
    ensures before <= after
    ensures forall k, i :: 0 <= k < td.framesInTD && td.Owns(k, i) ==> i in after && i !in before
  {
  }

  lemma NewSlot(before: seq<int>, after: seq<int>, lo: int, hi: int, i: int)
    requires AddsSlots(before, after, lo, hi) && NoDuplicates(after) && lo <= i <= hi
    ensures i in after && i !in before
  {
    assert after[|before| + (i - lo)] == i;
    forall j | 0 <= j < |before| ensures before[j] != i { assert after[j] == before[j]; }
  }

  /** Notes the slots that a frame has just got. */
  method Record(td: IsochTD, transfer: int, first: int, count: nat, ghost start: seq<int>, ghost before: seq<int>,
                ghost after: seq<int>)
    requires td.Valid() && 0 <= transfer < td.framesInTD && td.Laid(start, before, transfer)
    requires AddsSlots(before, after, first, first + count - 1) && NoDuplicates(after)
    modifies td.firstTrbIndex, td.trbCount
    ensures td.Valid() && td.Laid(start, after, transfer + 1) && td.framesInTD == old(td.framesInTD)
    ensures td.firstTrbIndex[..] == old(td.firstTrbIndex[..])[transfer := first]
      && td.trbCount[..] == old(td.trbCount[..])[transfer := count]
  {
    td.firstTrbIndex[transfer] := first;
    td.trbCount[transfer] := count;
    forall i | first <= i < first + count ensures i in after && i !in before {
      NewSlot(before, after, first, first + count - 1, i);
    }
    assert forall k, i :: 0 <= k < transfer ==> td.Owns(k, i) == old(td.Owns(k, i));
    assert forall i :: td.Owns(transfer, i) <==> first <= i < first + count;
  }
}
