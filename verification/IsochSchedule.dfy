/** Isochronous TDs and the ring on which their frames lie. */
module IsochSchedule {
  import opened Basics
  import opened Trb
  import opened TransferRings
  import opened TransferSpec
  import opened IsochRanges
  import opened IsochFrames
  import opened IsochDone

  /** The TDs' slots are pending, those of each TD behind those of the TDs in front of it. */
  ghost predicate InTurn(order: seq<int>, s: seq<DoneTD>) {
    && NoDuplicates(order)
    && (forall k, i :: 0 <= k < |s| && s[k].Owns(i) ==> i in order)
    && (forall j, k, a, b ::
          0 <= j < k < |s| && 0 <= a < |order| && 0 <= b < |order| && s[j].Owns(order[a]) && s[k].Owns(order[b]) ==>
            a < b)
  }

  lemma PlaceIn(order: seq<int>, s: seq<DoneTD>, k: int, i: int) returns (a: int)
    requires InTurn(order, s) && 0 <= k < |s| && s[k].Owns(i)
    ensures 0 <= a < |order| && order[a] == i
  {
    hide DoneTD.Owns;
    assert i in order;
    a :| 0 <= a < |order| && order[a] == i;
  }

  /** So that an event for one of them has one owner. */
  lemma InTurnDisjoint(order: seq<int>, s: seq<DoneTD>)
    requires InTurn(order, s)
    ensures DisjointTDs(s)
  {
    forall j, k, i | 0 <= j < k < |s| && s[j].Owns(i) ensures !s[k].Owns(i) {
      var a := PlaceIn(order, s, j, i);
    }
  }

  /** A TD is laid out behind those that are scheduled. */
  method ScheduleTD(ring: TransferRing, frames: seq<Request>, ghost pageOffset: nat -> nat, ghost s: seq<DoneTD>)
    returns (d: DoneTD, ghost laid: seq<seq<Body>>)
    requires ring.Valid() && ring.first < 0 && |frames| <= MAX_TRANSFERS_PER_FRAME && InTurn(ring.Order(), s)
    requires forall k :: 0 <= k < |frames| ==> frames[k].isIsoch && frames[k].Valid() && frames[k].NoEmptySegments()
    modifies ring, ring.slots
    ensures ring.Valid() && ring.first < 0 && old(ring.Order()) <= ring.Order()
    ensures fresh(d) && InTurn(ring.Order(), s + [d])
    ensures |laid| == |d.ranges| == |frames| && ring.Queue() == old(ring.Queue()) + Flatten(laid)
    ensures forall k :: 0 <= k < |frames| ==>
      Exact(frames[k], ring.phys, d.ranges[k].first, d.ranges[k].count, laid[k])
    ensures AllRegular(frames, pageOffset) && old(ring.HasRoomFor(ReservedForAll(frames, 0))) ==>
      forall k :: 0 <= k < |frames| ==> |laid[k]| > 0
  {
    hide TransferRing.Valid, TransferRing.Order, TransferRing.Queue, TransferRing.HasRoomFor, Exact, Flatten,
      AllRegular, ReservedForAll, Request.Valid, Request.NoEmptySegments, FrameOf, InTurn;
    ghost var before := ring.Order();
    var td := new IsochTD(|frames|);
    laid := ScheduleFrames(ring, td, frames, pageOffset);
    d := new DoneTD(td.Ranges());
    ring.OrderOfQueue();
    forall i | d.Owns(i) ensures i in ring.Order() && i !in before {
      var k := FrameOf(d.ranges, i);
      assert td.Owns(k, i);
    }
    NewInTurn(before, ring.Order(), s, d);
  }

  lemma NotBefore(before: seq<int>, after: seq<int>, b: int)
    requires before <= after && 0 <= b < |after| && after[b] !in before
    ensures |before| <= b
  {
    assert forall a :: 0 <= a < |before| ==> after[a] == before[a];
  }

  /** It has only slots that were not pending before. */
  lemma NewInTurn(before: seq<int>, after: seq<int>, s: seq<DoneTD>, d: DoneTD)
    requires InTurn(before, s) && before <= after && NoDuplicates(after)
    requires forall i :: d.Owns(i) ==> i in after && i !in before
    ensures InTurn(after, s + [d])
  {
    hide DoneTD.Owns;
    var s' := s + [d];
    forall k, i | 0 <= k < |s'| && s'[k].Owns(i) ensures i in after {
      if k < |s| { var a := PlaceIn(before, s, k, i); }
    }
    forall j, k, a, b | 0 <= j < k < |s'| && 0 <= a < |after| && 0 <= b < |after| && s'[j].Owns(after[a])
      && s'[k].Owns(after[b])
      ensures a < b {
      assert s[j].Owns(after[a]);
      var a' := PlaceIn(before, s, j, after[a]);
      assert after[a'] == after[a];
      if k < |s| {
        assert s[k].Owns(after[b]);
        var b' := PlaceIn(before, s, k, after[b]);
        assert after[b'] == after[b];
      } else {
        NotBefore(before, after, b);
      }
    }
  }

  /**
   * When everything up to the slot of an event has left the ring, all slots of the TDs behind the event's owner are
   * still pending: of those that stay in their slots, if the event is for its owner's last frame.
   */
  lemma EventKeeps(order: seq<int>, s: seq<DoneTD>, k: int)
    requires InTurn(order, s) && 0 <= k < |order|
    ensures var o := Owner(s, FrameAt(order[k]));
      && InTurn(order[k + 1..], s[if o < |s| then o + 1 else o..])
      && (o == |s| || FrameAt(order[k])(s[o]) == |s[o].ranges| - 1 ==>
            InTurn(order[k + 1..], s[Completes(s, FrameAt(order[k]))..]))
  {
    hide FrameOf, Owner;
    var o := Owner(s, FrameAt(order[k]));
    if o < |s| { BehindOwner(order, s, o, k); }
  }

  /** Behind a slot of one TD lie those of the TDs behind it. */
  lemma BehindOwner(order: seq<int>, s: seq<DoneTD>, o: int, k: int)
    requires InTurn(order, s) && 0 <= o < |s| && 0 <= k < |order| && s[o].Owns(order[k])
    ensures InTurn(order[k + 1..], s[o + 1..])
  {
    hide DoneTD.Owns;
    var t, rest := s[o + 1..], order[k + 1..];
    forall j, i | 0 <= j < |t| && t[j].Owns(i) ensures i in rest {
      var a := PlaceIn(order, s, o + 1 + j, i);
      assert rest[a - k - 1] == i;
    }
    forall j, l, a, b | 0 <= j < l < |t| && 0 <= a < |rest| && 0 <= b < |rest| && t[j].Owns(rest[a])
      && t[l].Owns(rest[b])
      ensures a < b {
      assert s[o + 1 + j].Owns(order[k + 1 + a]) && s[o + 1 + l].Owns(order[k + 1 + b]);
    }
  }

  /**
   * The source puts a TD in its slot before its frames are laid out. An event for a TD in front of it completes the
   * same TDs, whatever slots the new one seems to own meanwhile.
   */
  lemma HalfLaidOut(s: seq<DoneTD>, td: DoneTD, frameOf: DoneTD -> int)
    requires Owner(s, frameOf) < |s|
    ensures Completes(s + [td], frameOf) == Completes(s, frameOf) <= |s|
  {
    OwnerIs(s + [td], frameOf, Owner(s, frameOf));
  }
}
