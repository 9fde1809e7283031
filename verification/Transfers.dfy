/** Laying out one transfer descriptor on a ring: _createTransfer. */
module Transfers {
  import opened Basics
  import opened Hardware
  import opened Trb
  import opened Admission
  import opened TransferSpec
  import opened TransferRings

  datatype Status = Success | BadArgument | InternalError | SegmentError

  /** The address and length of the next TRB; `length` comes in as what is left of the TD. */
  method GenerateNextPhysicalSegment(r: Request, at: nat, length: nat) returns (rc: Status, words: (nat, nat), n: nat)
    requires r.immediate.None?
    ensures rc == if PieceLength(r, at, length).Some? then Success else SegmentError
    ensures rc == Success ==> PieceLength(r, at, length) == Some(n)
    ensures rc == Success && length > 0 ==>
      words == (WithAddress(CLEARED_BODY, r.segment(at).value.addr).a,
                WithAddress(CLEARED_BODY, r.segment(at).value.addr).b)
  {
    words, n := (0, 0), length;
    if length == 0 {
      return Success, words, n;
    }
    match r.segment(at) {
      case None =>
        return SegmentError, words, n;
      case Some(s) =>
        var b := WithAddress(CLEARED_BODY, s.addr);
        words := (b.a, b.b);
        var returnLength := 0x1_0000 - s.addr % 0x1_0000;
        if s.length < returnLength {
          returnLength := s.length;
        }
        if n > returnLength {
          n := returnLength;
        }
        rc := Success;
    }
  }

  /** The contents of data TRB i. */
  method LayOut(r: Request, mystery: Control, i: nat, at: nat, left: nat) returns (rc: Status, body: Body, n: nat)
    requires r.Valid() && mystery == (if i == 0 then r.mystery else CLEARED_CONTROL)
    ensures rc == if PieceLength(r, at, left).Some? then Success else SegmentError
    ensures rc == Success ==>
      PieceLength(r, at, left) == Some(n) && body == DataTrb(r, i, at, left, n) && body.control.kind != Link
  {
    var words := (0, 0);
    n := left;
    if r.immediate.Some? {
      if left > 0 {
        words := r.immediate.value;
      }
      rc := Success;
    } else {
      rc, words, n := GenerateNextPhysicalSegment(r, at, left);
      if rc != Success {
        body := CLEARED_BODY;
        return;
      }
    }
    if left == 0 {
      words := (0, 0);
    }
    var leftAfter := left - n;
    var fourth := CLEARED_CONTROL;
    if leftAfter == 0 && r.immediate.None? && r.finalTD && i > 0 {
      fourth := fourth.(bit1 := true);
    }
    var bytes, tdSize := 0, 0;
    if r.isIsoch || !(r.mystery.kind == StatusStage || r.mystery.kind == Noop) {
      var residueEstimate := r.maxPacket + r.following - 1;
      tdSize := (residueEstimate + leftAfter) / r.maxPacket;
      if tdSize > 31 {
        tdSize := 31;
      }
      bytes := n;
    }
    var base := if mystery != CLEARED_CONTROL then mystery else CLEARED_CONTROL.(kind := Normal);
    fourth := base.(bit1 := fourth.bit1);
    if r.immediate.None? {
      fourth := fourth.(chain := true);
    }
    body := Body(words.0, words.1, bytes, tdSize, fourth);
  }

  /**
   * Of the TRBs `all` of this TD, the first fs are published behind q0 and those up to i are in the
   * open fragment; `fourth` is kept for the first of them, whose control word is not written yet.
   */
  ghost predicate LaidOut(ring: TransferRing, q0: seq<Body>, all: seq<Body>, fs: int, i: int, fourth: Control)
    reads ring, ring.slots
  {
    && ring.Valid() && !ring.hole
    && 0 <= fs <= i <= |all|
    && ring.Queue() == q0 + all[..fs]
    && ring.Open() == Shown(all, fs, i)
    && (ring.first >= 0 <==> fs < i)
    && (fs < i ==> fourth == all[fs].control)
  }

  /** TRBs fs up to i as they stand in memory while their fragment is open. */
  function Shown(all: seq<Body>, fs: int, i: int): seq<Body>
    requires 0 <= fs <= i <= |all|
  {
    if fs == i then [] else [all[fs].(control := CLEARED_CONTROL)] + all[fs + 1..i]
  }

  /** The slots from lo to hi, and only these, have become pending, behind the others. */
  ghost predicate AddsSlots(before: seq<int>, after: seq<int>, lo: int, hi: int) {
    after == before + Range(lo, hi + 1)
  }

  lemma SlotsAddedLater(start: seq<int>, before: seq<int>, after: seq<int>, lo: int, hi: int)
    requires start <= before && AddsSlots(before, after, lo, hi) && lo <= hi
    ensures start <= after && |after| > 0 && after[|after| - 1] == hi
  {
  }

  /**
   * A link that is new in the middle of the ring has q TRBs or more in front of it. If it has more it is chained: when
   * q TRBs are in front of a TD, one inside the TD is. The one just in front of the TD is if bytes of its
   * transaction precede the TD.
   */
  predicate LinkedFrom(before: Option<(int, bool)>, after: Option<(int, bool)>, q: int, preceding: nat) {
    after == before || (after.Some? && after.value.0 >= q && (after.value.1 <==> after.value.0 > q || preceding > 0))
  }

  lemma StillLinked(m0: Option<(int, bool)>, m1: Option<(int, bool)>, m2: Option<(int, bool)>, q: int, preceding: nat)
    requires LinkedFrom(m0, m1, q, preceding) && LinkedFrom(m1, m2, q, preceding)
    ensures LinkedFrom(m0, m2, q, preceding)
  {
  }

  /** Puts TRB i into the slot just handed out. */
  method PutInSlot(ring: TransferRing, slot: int, body: Body, finalFourth: Control,
                   ghost q0: seq<Body>, ghost all: seq<Body>, ghost fs: int, ghost i: int) returns (fourth: Control)
    requires ring.Valid() && 0 <= fs <= i < |all| && all[i] == body && body.control.kind != Link
    requires ring.first >= 0 && 0 <= slot < ring.slots.Length && slot == ring.LastSlot()
      && ring.hole == (slot != ring.first)
    requires ring.slots[slot].body == CLEARED_BODY && (slot == ring.first <==> fs == i)
    requires ring.Queue() == q0 + all[..fs] && ring.Open() == Shown(all, fs, i) + [CLEARED_BODY]
    requires fs < i ==> finalFourth == all[fs].control
    modifies ring.slots, ring`hole, ring`hw
    ensures LaidOut(ring, q0, all, fs, i + 1, fourth)
    ensures ring.LastSlot() == old(ring.LastSlot()) && ring.Order() == old(ring.Order())
      && ring.Mid() == old(ring.Mid())
    ensures ring.Room() >= old(ring.Room())
    ensures old(ring.Fits()) ==> ring.Fits()
    ensures (old(ring.AtLink(true)) ==> ring.AtLink(true)) && (old(ring.AtLink(false)) ==> ring.AtLink(false))
  {
    hide TransferRing.Valid, TransferRing.Queue, TransferRing.Open, TransferRing.LastSlot, TransferRing.Order,
      TransferRing.Room, TransferRing.HasRoomFor, TransferRing.Mid, TransferRing.Fits, Shown;
    ShownNext(all, fs, i);
    if ring.first != slot {
      ring.FillSlot(slot, body);
      fourth := finalFourth;
    } else {
      ring.FillSlot(slot, body.(control := CLEARED_CONTROL));
      fourth := body.control;
    }
  }

  /** One more TRB of the fragment, with its control word unless it is the first. */
  lemma ShownNext(all: seq<Body>, fs: int, i: int)
    requires 0 <= fs <= i < |all|
    ensures var shown := if fs == i then all[i].(control := CLEARED_CONTROL) else all[i];
      Shown(all, fs, i + 1) == Shown(all, fs, i) + [shown]
    ensures forall t :: (Shown(all, fs, i) + [t])[..|Shown(all, fs, i)|] == Shown(all, fs, i)
  {
    if fs < i {
      assert all[fs + 1..i + 1] == all[fs + 1..i] + [all[i]];
    } else {
      assert all[fs + 1..i + 1] == [];
    }
    hide Shown;
  }

  /** With the first one's control word in place, they are what is published. */
  lemma ShownClosed(all: seq<Body>, fs: int, i: int)
    requires 0 <= fs < i <= |all|
    ensures var open, fourth := Shown(all, fs, i), all[fs].control;
      && |open| == i - fs && [open[0].(control := fourth)] + open[1..] == all[fs..i]
      && (if |open| == 1 then fourth.chain else open[|open| - 1].control.chain) == all[i - 1].control.chain
    ensures Shown(all, i, i) == []
  {
    ghost var head, tail := all[fs].(control := CLEARED_CONTROL), all[fs + 1..i];
    assert ([head] + tail)[1..] == tail;
    assert [all[fs]] + tail == all[fs..i];
  }

  lemma QueueJoins(q0: seq<Body>, all: seq<Body>, fs: int, i: int)
    requires 0 <= fs <= i <= |all|
    ensures (q0 + all[..fs]) + all[fs..i] == q0 + all[..i]
  {
    assert all[..fs] + all[fs..i] == all[..i];
  }

  /** Closes the fragment that holds TRBs fs up to i. */
  method CloseLaidOut(ring: TransferRing, fourth: Control, ghost q0: seq<Body>, ghost all: seq<Body>, ghost fs: int,
                      ghost i: int)
    requires LaidOut(ring, q0, all, fs, i, fourth) && fs < i && fourth.kind != Link
    modifies ring.slots, ring`first, ring`route, ring`hw, ring`history
    ensures LaidOut(ring, q0, all, i, i, fourth) && ring.first == -1 && ring.LastSlot() == old(ring.LastSlot())
    ensures ring.history == old(ring.history) + all[fs..i]
    ensures 0 <= old(ring.first) && old(ring.first) + (i - fs) == old(ring.LastSlot()) + 1 < ring.slots.Length
    ensures Bodies(ring.slots[..], old(ring.first), old(ring.first) + (i - fs)) == all[fs..i]
    ensures AddsSlots(old(ring.Order()), ring.Order(), old(ring.first), old(ring.LastSlot()))
    ensures ring.slots[ring.slots.Length - 1] == old(ring.slots[ring.slots.Length - 1]) && ring.Mid() == old(ring.Mid())
    ensures ring.Room() >= old(ring.Room())
    ensures old(ring.Fits() && ring.AtLink(all[i - 1].control.chain)) ==> ring.Fits()
    ensures old(ring.AtLink(true)) ==> ring.AtLink(true)
  {
    hide TransferRing.Valid, TransferRing.Queue, TransferRing.Open, TransferRing.LastSlot, TransferRing.Order,
      TransferRing.Room, TransferRing.HasRoomFor, TransferRing.Mid, TransferRing.Fits, Shown;
    ShownClosed(all, fs, i);
    QueueJoins(q0, all, fs, i);
    ring.Close(fourth);
  }

  /** What a failed layout leaves behind: the fragments that were closed, and nothing of the one that was open. */
  ghost predicate LeftOver(ring: TransferRing, q0: seq<Body>, h0: seq<Body>, data: seq<Body>, fs: nat)
    reads ring, ring.slots
  {
    && ring.Valid() && ring.first == -1 && fs < |data| + 1
    && ring.Queue() == q0 + data[..fs] && ring.history == h0 + data[..fs]
  }

  /** A finished layout: the TD's TRBs are pending behind q0, those of its last fragment in one range of slots. */
  ghost predicate Finished(ring: TransferRing, q0: seq<Body>, h0: seq<Body>, td: seq<Body>, firstTrbIndex: int,
                           lastTrbIndex: int)
    reads ring, ring.slots
  {
    && ring.Valid() && ring.first == -1
    && ring.Queue() == q0 + td && ring.history == h0 + td
    && 0 <= firstTrbIndex <= lastTrbIndex < ring.slots.Length - 1 && lastTrbIndex + 1 - firstTrbIndex <= |td|
    && Bodies(ring.slots[..], firstTrbIndex, lastTrbIndex + 1) == td[|td| - (lastTrbIndex + 1 - firstTrbIndex)..]
  }

  /** What is left to do: TRBs i and up of `all`, for the last `left` bytes. */
  ghost predicate Remaining(r: Request, all: seq<Body>, i: int, at: nat, left: nat, again: bool)
    requires r.maxPacket > 0
  {
    && at + left == r.offset + r.bytes
    && 0 <= i <= |all|
    && if again then (i == 0 || left > 0) && all[i..] == DataTrbs(r, i, at, left)
       else 0 < i == |all| && left == 0
  }

  lemma RemainingStep(r: Request, all: seq<Body>, i: int, at: nat, left: nat, n: nat)
    requires r.Valid() && r.NoEmptySegments() && Remaining(r, all, i, at, left, true)
      && PieceLength(r, at, left) == Some(n)
    ensures left > 0 ==> n > 0
    ensures i < |all| && all[i] == DataTrb(r, i, at, left, n)
    ensures Remaining(r, all, i + 1, at + n, left - n, left - n > 0)
  {
    var t := DataTrb(r, i, at, left, n);
    var rest := if left - n > 0 then DataTrbs(r, i + 1, at + n, left - n) else [];
    assert all[i..] == [t] + rest;
    assert all[i + 1..] == all[i..][1..] == rest;
  }

  /** The slots that the rest of the TD may take: one for every page left, and one for EVENT_DATA. */
  function Need(pageOffset: nat, at: nat, left: nat, again: bool): (n: nat)
    ensures n > 0
  {
    if again && left == 0 then 1 else Needed(pageOffset, at, left)
  }

  /** One round of the loop of _createTransfer. */
  method LayOutNext(ring: TransferRing, r: Request, mystery: Control, at: nat, left: nat, fourth: Control,
                    isFirstFragment: bool, i: nat,
                    ghost pageOffset: nat, ghost q0: seq<Body>, ghost all: seq<Body>, ghost fs: int)
    returns (rc: Status, n: nat, fourth': Control, slot: int)
    requires r.Valid() && r.NoEmptySegments() && mystery == (if i == 0 then r.mystery else CLEARED_CONTROL)
    requires LaidOut(ring, q0, all, fs, i, fourth) && Remaining(r, all, i, at, left, true)
    requires isFirstFragment <==> fs == 0
    modifies ring, ring.slots
    ensures LinkedFrom(old(ring.Mid()), ring.Mid(), |q0|, r.preceding)
    ensures ring.history == old(ring.history) && rc != BadArgument && ring.Order() == old(ring.Order())
    ensures rc == Success ==>
      && PieceLength(r, at, left) == Some(n) && n <= left && (left > 0 ==> n > 0)
      && LaidOut(ring, q0, all, fs, i + 1, fourth') && slot == ring.LastSlot()
      && Remaining(r, all, i + 1, at + n, left - n, left - n > 0)
    ensures rc != Success ==> ring.Valid() && ring.first == -1 && ring.Queue() == q0 + all[..fs]
    ensures old(ring.Room()) >= 1 && PieceLength(r, at, left).Some? ==> rc == Success
    ensures rc == Success ==> ring.Room() + 1 >= old(ring.Room())
    ensures (old(ring.Fits()) ==> ring.Fits()) && (rc == Success ==> ring.AtLink(true))
  {
    hide TransferRing.Valid, TransferRing.Queue, TransferRing.Open, TransferRing.LastSlot, TransferRing.Order,
      TransferRing.Room, TransferRing.HasRoomFor, Remaining, DataTrb, PieceLength, TransferRing.Mid,
      TransferRing.Fits, TransferRing.AtLink;
    n, fourth' := 0, fourth;
    InFront(ring, q0, all, fs, i, fourth);
    slot := ring.TakeSlot(false, isFirstFragment && r.preceding == 0);
    if slot < 0 {
      ring.Abandon();
      rc := InternalError;
      return;
    }
    var body;
    rc, body, n := LayOut(r, mystery, i, at, left);
    if rc != Success {
      ring.Abandon();
      return;
    }
    RemainingStep(r, all, i, at, left, n);
    fourth' := PutInSlot(ring, slot, body, fourth, q0, all, fs, i);
  }

  lemma InFront(ring: TransferRing, q0: seq<Body>, all: seq<Body>, fs: int, i: int, fourth: Control)
    requires LaidOut(ring, q0, all, fs, i, fourth)
    ensures |ring.Order()| == |q0| + fs
  {
    hide TransferRing.Valid, TransferRing.Queue, TransferRing.Order, TransferRing.Open;
    ring.OrderOfQueue();
  }

  lemma FitsAtFirst(ring: TransferRing, r: Request, pageOffset: nat)
    requires ring.Valid() && ring.Room() >= ReservedTrbs(r.bytes)
    ensures ring.Room() >= Need(pageOffset, r.offset, r.bytes, true)
  {
    if r.bytes > 0 { ReservationCovers(pageOffset + r.offset, r.bytes); }
  }

  /** The transfer's segments are as the driver reckons with. */
  ghost predicate Regular(r: Request, pageOffset: nat) {
    r.immediate.Some? || r.BreaksAtPages(pageOffset)
  }

  lemma NextPieceAvailable(r: Request, pageOffset: nat, at: nat, left: nat)
    requires r.Valid() && r.offset <= at && left == r.offset + r.bytes - at && Regular(r, pageOffset)
    ensures PieceLength(r, at, left).Some?
  {
    if left > 0 { NeededStep(r, pageOffset, at, left); }
  }

  lemma FitsNext(ring: TransferRing, r: Request, pageOffset: nat, at: nat, left: nat, n: nat, room: nat)
    requires ring.Valid() && r.Valid() && r.offset <= at && left == r.offset + r.bytes - at && Regular(r, pageOffset)
    requires PieceLength(r, at, left) == Some(n) && n <= left
    requires left > 0 && room == PagesTouched(pageOffset + at, left) && ring.Room() >= room
    ensures ring.Room() >= Need(pageOffset, at + n, left - n, left - n > 0)
  {
    NeededStep(r, pageOffset, at, left);
  }

  /** The data TRBs of the TD: the loop of _createTransfer. */
  method LayOutData(ring: TransferRing, r: Request, ghost pageOffset: nat, ghost q0: seq<Body>, ghost h0: seq<Body>,
                    ghost all: seq<Body>)
    returns (rc: Status, fourth: Control, i: nat, isFirstFragment: bool, lastTrbIndex: int, ghost fs: nat)
    requires r.Valid() && r.NoEmptySegments() && all == DataTrbs(r, 0, r.offset, r.bytes)
    requires ring.Valid() && ring.first < 0 && q0 == ring.Queue() && h0 == ring.history
    modifies ring, ring.slots
    ensures rc != BadArgument && (rc != Success ==> LeftOver(ring, q0, h0, all, fs))
    ensures rc == Success ==> ring.Valid() && fs < |all| && ring.history == h0 + all[..fs]
    ensures rc == Success ==>
      i == |all| && fs < i && LaidOut(ring, q0, all, fs, i, fourth) && lastTrbIndex == ring.LastSlot()
    ensures Regular(r, pageOffset) && old(ring.Room()) >= ReservedTrbs(r.bytes) ==>
              rc == Success && (i == 1 || ring.Room() >= 1)
    ensures LastCut(r, fs, i) && (isFirstFragment <==> fs == 0)
    ensures rc == Success ==> ring.Room() + i >= old(ring.Room())
    ensures LinkedFrom(old(ring.Mid()), ring.Mid(), |q0|, r.preceding)
    ensures old(ring.Order()) <= ring.Order() && (fs == 0 ==> ring.Order() == old(ring.Order()))
    ensures (old(ring.Fits()) ==> ring.Fits()) && (rc == Success ==> ring.AtLink(true))
  {
    hide *;
    ghost var start, mid := ring.Order(), ring.Mid();
    NothingLinked(mid, |q0|, r.preceding);
    ghost var fits := Regular(r, pageOffset) && ring.Room() >= ReservedTrbs(r.bytes);
    var at: nat, left: nat, mystery, again := r.offset, r.bytes, r.mystery, true;
    i, fs, isFirstFragment := 0, 0, true;
    fourth, lastTrbIndex := CLEARED_CONTROL, -1;
    StartsEmpty(ring, q0, all, fourth);
    AllRemain(r, all);
    NoCutYet(r);
    if fits { FitsAtFirst(ring, r, pageOffset); }
    DataTrbsAreNoLinks(r, 0, r.offset, r.bytes);
    while again
      invariant LaidOut(ring, q0, all, fs, i, fourth) && Remaining(r, all, i, at, left, again)
      invariant ring.Valid() && 0 <= fs <= i <= |all|
      invariant r.offset <= at && mystery == (if i == 0 then r.mystery else CLEARED_CONTROL)
      invariant (!again ==> fs < i && lastTrbIndex == ring.LastSlot()) && (isFirstFragment <==> fs == 0)
      invariant again && left == 0 ==> r.bytes == 0
      invariant fits && (again || r.bytes > 0) ==> ring.Room() >= Need(pageOffset, at, left, again)
      invariant ring.history == h0 + all[..fs] && ring.Room() + i >= old(ring.Room())
      invariant at == Start(r, i) && LastCut(r, fs, i) && (fs == 0 ==> ring.Order() == start)
      invariant (old(ring.Fits()) ==> ring.Fits()) && (!again ==> ring.AtLink(true))
      invariant start <= ring.Order() && LinkedFrom(mid, ring.Mid(), |q0|, r.preceding)
      decreases left + if again then 1 else 0
    {
      LeftBehind(r, all, i, at, left);
      ghost var room: nat := if left == 0 then 0 else PagesTouched(pageOffset + at, left);
      if fits { BeforeNext(ring, r, pageOffset, at, left, room); }
      ghost var linked := ring.Mid();
      var n;
      rc, n, fourth,
        lastTrbIndex := LayOutNext(ring, r, mystery, at, left, fourth, isFirstFragment, i, pageOffset, q0, all, fs);
      StillLinked(mid, linked, ring.Mid(), |q0|, r.preceding);
      if rc != Success {
        LeavesOver(ring, q0, h0, all, fs);
        return;
      }
      LaidOutMeans(ring, q0, all, fs, i + 1, fourth);
      if fits && left > 0 { FitsNext(ring, r, pageOffset, at, left, n, room); }
      NextCut(r, fs, i, left, n);
      left, at := left - n, at + n;
      i := i + 1;
      isFirstFragment, fs := CutAtBurst(ring, r, at, left, fourth, isFirstFragment, q0, h0, all, fs, i);
      LaidOutMeans(ring, q0, all, fs, i, fourth);
      mystery := CLEARED_CONTROL;
      again := left != 0;
    }
    rc := Success;
    NoneRemain(r, all, i, at, left);
    assert Need(pageOffset, at, left, again) == 1 by { NothingLeft(pageOffset, at); }
  }

  lemma LeavesOver(ring: TransferRing, q0: seq<Body>, h0: seq<Body>, data: seq<Body>, fs: nat)
    requires ring.Valid() && ring.first == -1 && fs <= |data|
    requires ring.Queue() == q0 + data[..fs] && ring.history == h0 + data[..fs]
    ensures LeftOver(ring, q0, h0, data, fs)
  {
  }

  lemma AllRemain(r: Request, all: seq<Body>)
    requires r.Valid() && all == DataTrbs(r, 0, r.offset, r.bytes)
    ensures r.maxPacket > 0 && Remaining(r, all, 0, r.offset, r.bytes, true) && (r.bytes == 0 ==> |all| == 1)
  {
    assert all[0..] == all;
    NoBytesOneTrb(r);
  }

  lemma LeftBehind(r: Request, all: seq<Body>, i: int, at: nat, left: nat)
    requires r.maxPacket > 0 && Remaining(r, all, i, at, left, true)
    ensures at + left == r.offset + r.bytes
  {
  }

  lemma NoneRemain(r: Request, all: seq<Body>, i: int, at: nat, left: nat)
    requires r.maxPacket > 0 && Remaining(r, all, i, at, left, false)
    ensures i == |all| && left == 0
  {
  }

  lemma LaidOutMeans(ring: TransferRing, q0: seq<Body>, all: seq<Body>, fs: int, i: int, fourth: Control)
    requires LaidOut(ring, q0, all, fs, i, fourth)
    ensures ring.Valid() && 0 <= fs <= i <= |all|
  {
  }

  /** The fragment is closed when whole bursts have been laid out and there are bytes to come. */
  method CutAtBurst(ring: TransferRing, r: Request, at: nat, left: nat, fourth: Control, isFirstFragment: bool,
                    ghost q0: seq<Body>, ghost h0: seq<Body>, ghost all: seq<Body>, ghost fs: nat, ghost i: nat)
    returns (isFirst: bool, ghost fs': nat)
    requires r.maxPacket > 0 && LaidOut(ring, q0, all, fs, i, fourth) && fs < i && ring.history == h0 + all[..fs]
    requires (isFirstFragment <==> fs == 0) && forall t :: t in all ==> t.control.kind != Link
    requires ring.AtLink(true) && (left != 0 ==> all[i - 1].control.chain)
    modifies ring.slots, ring`first, ring`route, ring`hw, ring`history
    ensures fs' == (if CutsAt(r, at, left) then i else fs) && (fs' != fs ==> left != 0)
    ensures LaidOut(ring, q0, all, fs', i, fourth) && (isFirst <==> fs' == 0)
    ensures 0 <= fs' <= i <= |all| && ring.history == h0 + all[..fs']
    ensures ring.LastSlot() == old(ring.LastSlot()) && ring.Mid() == old(ring.Mid()) && ring.Room() >= old(ring.Room())
    ensures (old(ring.Fits()) ==> ring.Fits()) && ring.AtLink(true)
    ensures old(ring.Order()) <= ring.Order() && (fs' == fs ==> ring.Order() == old(ring.Order()))
  {
    hide TransferRing.Valid, TransferRing.Queue, TransferRing.Open, TransferRing.Room, TransferRing.HasRoomFor, Shown,
      TransferRing.LastSlot, TransferRing.Order, AddsSlots, TransferRing.Mid, Bodies,
      TransferRing.Fits, TransferRing.AtLink;
    isFirst, fs' := isFirstFragment, fs;
    if at != 0 && !r.isIsoch && left != 0 && at % r.BurstBytes() == 0 {
      ghost var before, first, last := ring.Order(), ring.first, ring.LastSlot();
      CloseLaidOut(ring, fourth, q0, all, fs, i);
      SlotsAddedLater(before, before, ring.Order(), first, last);
      JoinHistory(h0, all, fs, i);
      fs' := i;
      isFirst := false;
    }
  }

  lemma NothingLinked(mid: Option<(int, bool)>, q: int, preceding: nat)
    ensures LinkedFrom(mid, mid, q, preceding)
  {
  }

  lemma NoBytesOneTrb(r: Request)
    requires r.maxPacket > 0
    ensures r.bytes == 0 ==> |DataTrbs(r, 0, r.offset, r.bytes)| == 1
  {
  }

  lemma NothingLeft(pageOffset: nat, at: nat)
    ensures Need(pageOffset, at, 0, false) == 1
  {
  }

  lemma JoinHistory(h: seq<Body>, all: seq<Body>, fs: int, i: int)
    requires 0 <= fs <= i <= |all|
    ensures (h + all[..fs]) + all[fs..i] == h + all[..i]
  {
  }

  lemma StartsEmpty(ring: TransferRing, q0: seq<Body>, all: seq<Body>, fourth: Control)
    requires ring.Valid() && ring.first < 0 && q0 == ring.Queue()
    ensures LaidOut(ring, q0, all, 0, 0, fourth)
  {
    assert q0 + all[..0] == q0;
  }

  lemma BeforeNext(ring: TransferRing, r: Request, pageOffset: nat, at: nat, left: nat, room: nat)
    requires ring.Valid() && r.Valid() && r.offset <= at && left == r.offset + r.bytes - at && Regular(r, pageOffset)
    requires ring.Room() >= Need(pageOffset, at, left, true)
    requires room == if left == 0 then 0 else PagesTouched(pageOffset + at, left)
    ensures PieceLength(r, at, left).Some? && ring.Room() >= 1 && ring.Room() >= room + 1
  {
    NextPieceAvailable(r, pageOffset, at, left);
  }

  method SingleControl(r: Request, control: Control, ghost body: Body) returns (fourth: Control)
    requires body.control == control && control.kind != Link
    ensures fourth == Single(r, body).control && fourth.kind != Link && !fourth.chain
  {
    fourth := control;
    if r.interruptNeeded {
      fourth := fourth.(ioc := true);
      if fourth.kind == Normal || fourth.kind == DataStage || fourth.kind == Isoch {
        fourth := fourth.(isp := true);
      }
    } else if r.inEndpoint {
      if fourth.kind == Normal || fourth.kind == Isoch {
        fourth := fourth.(bei := true, isp := true);
      } else if fourth.kind == DataStage {
        fourth := fourth.(isp := true);
      }
    }
    fourth := fourth.(chain := false, bit1 := false);
  }

  /** Finishes a TD of one TRB. */
  method FinishSingle(ring: TransferRing, r: Request, control: Control, lastTrbIndex: int,
                      ghost q0: seq<Body>, ghost h0: seq<Body>, ghost body: Body)
    requires r.Valid() && LaidOut(ring, q0, [body], 0, 1, control) && body.control.kind != Link
    requires lastTrbIndex == ring.LastSlot() && ring.history == h0
    modifies ring.slots, ring`first, ring`route, ring`hw, ring`history
    ensures lastTrbIndex >= 0 && Finished(ring, q0, h0, [Single(r, body)], lastTrbIndex, lastTrbIndex)
    ensures AddsSlots(old(ring.Order()), ring.Order(), lastTrbIndex, lastTrbIndex)
    ensures lastTrbIndex == ring.slots.Length - 2 ==> !ring.slots[ring.slots.Length - 1].body.control.chain
    ensures ring.Room() >= old(ring.Room()) && ring.Mid() == old(ring.Mid()) && (old(ring.Fits()) ==> ring.Fits())
  {
    hide TransferRing.Valid, TransferRing.Queue, TransferRing.Open, TransferRing.LastSlot, TransferRing.Order,
      TransferRing.Room, TransferRing.HasRoomFor, TransferRing.Mid, Shown, Single, AddsSlots, Finished, Bodies,
      TransferRing.Fits;
    var fourth := SingleControl(r, control, body);
    if lastTrbIndex == ring.slots.Length - 2 {
      ring.EndChainAtLink();
    }
    ghost var all := [Single(r, body)];
    SingleShown(r, q0, h0, body);
    CloseLaidOut(ring, fourth, q0, all, 0, 1);
    SingleFinished(ring, q0, h0, all, fourth, lastTrbIndex);
  }

  lemma SingleFinished(ring: TransferRing, q0: seq<Body>, h0: seq<Body>, all: seq<Body>, fourth: Control, last: int)
    requires |all| == 1 && LaidOut(ring, q0, all, 1, 1, fourth) && ring.first == -1 && ring.history == h0 + all[0..1]
    requires 0 <= last < ring.slots.Length - 1 && Bodies(ring.slots[..], last, last + 1) == all[0..1]
    ensures Finished(ring, q0, h0, all, last, last)
  {
    hide TransferRing.Valid, TransferRing.Queue, TransferRing.Open, Bodies;
    assert all[0..1] == all && all[..1] == all && all[|all| - 1..] == all;
  }

  lemma SingleShown(r: Request, q0: seq<Body>, h0: seq<Body>, body: Body)
    ensures var all := [Single(r, body)];
            && Shown([body], 0, 1) == Shown(all, 0, 1)
            && q0 + [body][..0] == q0 + all[..0]
            && all[0..1] == all && all[..1] == all && all[|all| - 1..] == all
  {
  }

  method EventBody(r: Request, addr: nat) returns (body: Body)
    ensures body == EventTrb(r, addr) && body.control.kind != Link && body.control.chain == (r.multiTD && !r.finalTD)
  {
    var fourth := CLEARED_CONTROL.(kind := EventData);
    if r.multiTD && !r.finalTD {
      fourth := fourth.(chain := true);
    }
    if r.interruptNeeded {
      fourth := fourth.(ioc := true);
    } else if r.inEndpoint {
      fourth := fourth.(bei := true, ioc := true);
    }
    body := WithAddress(CLEARED_BODY, addr).(control := fourth);
  }

  lemma ShownExtends(data: seq<Body>, body: Body, fs: nat)
    requires fs < |data|
    ensures var all := data + [body];
            all[..fs] == data[..fs] && all[fs] == data[fs] && Shown(all, fs, |data|) == Shown(data, fs, |data|)
  {
    var all := data + [body];
    assert all[fs + 1..|data|] == data[fs + 1..];
  }

  /** Puts the EVENT_DATA TRB behind the data TRBs of the open fragment. */
  method PutEvent(ring: TransferRing, r: Request, control: Control, firstFragment: bool,
                  ghost q0: seq<Body>, ghost data: seq<Body>, ghost fs: nat)
    returns (rc: Status, slot: int, fourth: Control)
    requires r.Valid() && fs < |data| && LaidOut(ring, q0, data, fs, |data|, control) && control.kind != Link
    requires firstFragment <==> fs == 0
    modifies ring, ring.slots
    ensures LinkedFrom(old(ring.Mid()), ring.Mid(), |q0|, r.preceding)
    ensures rc == Success || rc == InternalError
    ensures (old(ring.Room()) >= 1 ==> rc == Success) && (rc == Success ==> ring.Room() + 1 >= old(ring.Room()))
    ensures ring.history == old(ring.history) && ring.Order() == old(ring.Order())
    ensures rc != Success ==> ring.Valid() && ring.first == -1 && ring.Queue() == q0 + data[..fs]
    ensures (old(ring.Fits()) ==> ring.Fits()) && (rc == Success ==> ring.AtLink(r.multiTD && !r.finalTD))
    ensures rc == Success ==>
      && 0 <= slot == ring.LastSlot() && fourth == control
      && LaidOut(ring, q0, data + [EventTrb(r, SlotAddress(ring.phys, slot))], fs, |data| + 1, fourth)
    ensures rc == Success ==> EventTrb(r, SlotAddress(ring.phys, slot)).control.chain == (r.multiTD && !r.finalTD)
  {
    hide TransferRing.Valid, TransferRing.Queue, TransferRing.Open, TransferRing.LastSlot, TransferRing.Order,
      TransferRing.Room, TransferRing.HasRoomFor, TransferRing.Mid, Shown, EventTrb, SlotAddress,
      TransferRing.Fits, TransferRing.AtLink;
    fourth := control;
    InFront(ring, q0, data, fs, |data|, control);
    slot := ring.TakeSlot(r.finalTD || !r.multiTD, firstFragment && r.preceding == 0);
    if slot < 0 {
      ring.Abandon();
      return InternalError, slot, fourth;
    }
    var body := EventBody(r, SlotAddress(ring.phys, slot));
    ShownExtends(data, body, fs);
    fourth := PutInSlot(ring, slot, body, control, q0, data + [body], fs, |data|);
    rc := Success;
  }

  /** Finishes a longer TD with its EVENT_DATA TRB. */
  method FinishWithEvent(ring: TransferRing, r: Request, control: Control, firstFragment: bool,
                         ghost q0: seq<Body>, ghost h0: seq<Body>, ghost data: seq<Body>, ghost fs: nat)
    returns (rc: Status, lastTrbIndex: nat, firstTrbIndex: int)
    requires r.Valid() && fs < |data| && LaidOut(ring, q0, data, fs, |data|, control)
    requires ring.history == h0 + data[..fs] && control.kind != Link && (firstFragment <==> fs == 0)
    modifies ring, ring.slots
    ensures LinkedFrom(old(ring.Mid()), ring.Mid(), |q0|, r.preceding)
    ensures rc == Success || rc == InternalError
    ensures old(ring.Fits()) ==> ring.Fits()
    ensures (old(ring.Room()) >= 1 ==> rc == Success) && (rc == Success ==> ring.Room() + 1 >= old(ring.Room()))
    ensures rc != Success ==> LeftOver(ring, q0, h0, data, fs) && ring.Order() == old(ring.Order())
    ensures rc == Success ==>
      && AddsSlots(old(ring.Order()), ring.Order(), firstTrbIndex, lastTrbIndex)
      && Finished(ring, q0, h0, data + [EventTrb(r, SlotAddress(ring.phys, lastTrbIndex))], firstTrbIndex, lastTrbIndex)
      && firstTrbIndex + |data| + 1 - fs == lastTrbIndex + 1
  {
    hide TransferRing.Valid, TransferRing.Queue, TransferRing.Open, TransferRing.LastSlot, TransferRing.Order,
      TransferRing.Room, TransferRing.HasRoomFor, TransferRing.Mid, LinkedFrom, Shown, EventTrb, SlotAddress, AddsSlots,
      TransferRing.Fits, TransferRing.AtLink;
    lastTrbIndex, firstTrbIndex := 0, -1;
    var slot, fourth;
    rc, slot, fourth := PutEvent(ring, r, control, firstFragment, q0, data, fs);
    if rc == Success {
      lastTrbIndex := slot;
      ghost var all := data + [EventTrb(r, SlotAddress(ring.phys, lastTrbIndex))];
      JoinHistory(h0, all, fs, |all|);
      AllOf(data, all, fs);
      firstTrbIndex := ring.first;
      CloseLaidOut(ring, fourth, q0, all, fs, |all|);
    }
  }

  lemma AllOf(data: seq<Body>, all: seq<Body>, fs: nat)
    requires data <= all && fs <= |data|
    ensures all[..|all|] == all && all[..fs] == data[..fs] && all[fs..|all|] == all[|all| - (|all| - fs)..]
  {
  }

  /** _createTransfer: lays out one TD behind what is pending. */
  method CreateTransfer(ring: TransferRing, r: Request, ghost pageOffset: nat)
    returns (rc: Status, firstTrbIndex: int, trbCount: nat, lastTrbIndex: nat, ghost fs: nat)
    requires ring.Valid() && ring.first < 0
    requires r.maxPacket > 0 ==> r.Valid() && r.NoEmptySegments()
    modifies ring, ring.slots
    ensures rc == BadArgument <==> r.maxPacket == 0
    ensures ring.Valid() && ring.first < 0
    ensures rc == BadArgument ==>
      ring.State() == old(ring.State()) && ring.Queue() == old(ring.Queue()) && ring.history == old(ring.history)
    ensures rc == Success ==>
      && Finished(ring, old(ring.Queue()), old(ring.history), TdTrbs(r, SlotAddress(ring.phys, lastTrbIndex)),
                  firstTrbIndex, lastTrbIndex)
      && trbCount == |TdTrbs(r, SlotAddress(ring.phys, lastTrbIndex))|
      && firstTrbIndex + (trbCount - fs) == lastTrbIndex + 1
      && LastCut(r, fs, |DataTrbs(r, 0, r.offset, r.bytes)|)
    ensures rc == InternalError || rc == SegmentError ==>
      LeftOver(ring, old(ring.Queue()), old(ring.history), DataTrbs(r, 0, r.offset, r.bytes), fs)
        && (fs == 0 || IsCut(r, fs))
    ensures fs == 0 ==> if rc == Success then AddsSlots(old(ring.Order()), ring.Order(), firstTrbIndex, lastTrbIndex)
                           else ring.Order() == old(ring.Order())
    ensures old(ring.Order()) <= ring.Order()
      && (rc == Success ==> |ring.Order()| > 0 && ring.Order()[|ring.Order()| - 1] == lastTrbIndex)
    ensures rc == Success && trbCount == 1 && lastTrbIndex == ring.slots.Length - 2 ==>
      !ring.slots[ring.slots.Length - 1].body.control.chain
    ensures r.maxPacket > 0 && Regular(r, pageOffset) && old(ring.HasRoomFor(ReservedTrbs(r.bytes))) ==> rc == Success
    ensures rc == Success ==> ring.Room() + trbCount >= old(ring.Room())
    ensures LinkedFrom(old(ring.Mid()), ring.Mid(), |old(ring.Queue())|, r.preceding)
    ensures rc == Success && r.interruptNeeded ==>
      |ring.Queue()| > |old(ring.Queue())| && ring.Queue()[|ring.Queue()| - 1].control.ioc
    ensures old(ring.Fits()) ==> ring.Fits()
  {
    hide *;
    ring.RoomIs();
    NothingLinked(ring.Mid(), |ring.Queue()|, r.preceding);
    firstTrbIndex, lastTrbIndex, trbCount, fs := -1, 0, 0, 0;
    if r.maxPacket == 0 {
      return BadArgument, firstTrbIndex, trbCount, lastTrbIndex, fs;
    }
    ghost var q0, h0, data, start := ring.Queue(), ring.history, DataTrbs(r, 0, r.offset, r.bytes), ring.Order();
    ghost var mid := ring.Mid();
    var fourth, isFirstFragment, last;
    rc, fourth, trbCount, isFirstFragment, last, fs := LayOutData(ring, r, pageOffset, q0, h0, data);
    CutIsCut(r, fs, trbCount);
    if rc == Success {
      ghost var before, linked := ring.Order(), ring.Mid();
      rc, trbCount, firstTrbIndex,
        lastTrbIndex := Finish(ring, r, fourth, trbCount, isFirstFragment, last, q0, h0, data, fs);
      StillLinked(mid, linked, ring.Mid(), |q0|, r.preceding);
      if rc == Success {
        SlotsAddedLater(start, before, ring.Order(), firstTrbIndex, lastTrbIndex);
        FinishedIsSound(ring, q0, h0, TdTrbs(r, SlotAddress(ring.phys, lastTrbIndex)), firstTrbIndex, lastTrbIndex);
        LastTells(r, SlotAddress(ring.phys, lastTrbIndex));
        LastOfBoth(q0, TdTrbs(r, SlotAddress(ring.phys, lastTrbIndex)));
      }
    }
    if rc != Success { LeftOverIsSound(ring, q0, h0, data, fs); }
  }

  lemma FinishedIsSound(ring: TransferRing, q0: seq<Body>, h0: seq<Body>, td: seq<Body>, first: int, last: int)
    requires Finished(ring, q0, h0, td, first, last)
    ensures ring.Valid() && ring.first < 0 && ring.Queue() == q0 + td
  {
  }

  lemma LastOfBoth(q: seq<Body>, td: seq<Body>)
    requires |td| > 0
    ensures |q + td| > |q| && (q + td)[|q + td| - 1] == td[|td| - 1]
  {
  }

  lemma LeftOverIsSound(ring: TransferRing, q0: seq<Body>, h0: seq<Body>, data: seq<Body>, fs: nat)
    requires LeftOver(ring, q0, h0, data, fs)
    ensures ring.Valid() && ring.first < 0 && q0 <= ring.Queue() && (fs == 0 ==> ring.Queue() == q0)
  {
  }

  lemma CutIsCut(r: Request, fs: int, i: int)
    requires r.maxPacket > 0
    ensures LastCut(r, fs, i) ==> 0 <= fs && (fs == 0 || IsCut(r, fs))
  {
  }

  /**
   * What ScheduleTDs does with a TD: it is laid out if a TD of maxTDBytes would fit. If its segments are
   * as the driver reckons with, laying out a TD that is admitted never fails for want of slots.
   */
  method AdmitTransfer(ring: TransferRing, r: Request, maxTDBytes: nat, ghost pageOffset: nat)
    returns (admitted: bool, rc: Status)
    requires ring.Valid() && ring.first < 0 && r.bytes <= maxTDBytes
    requires r.Valid() && r.NoEmptySegments() && Regular(r, pageOffset)
    modifies ring, ring.slots
    ensures ring.Valid() && ring.first < 0
    ensures admitted == old(Survives(ring.State(), ReservedTrbs(maxTDBytes)))
    ensures admitted ==> rc == Success && |ring.Queue()| > |old(ring.Queue())| && old(ring.Queue()) <= ring.Queue()
    ensures !admitted ==> ring.State() == old(ring.State()) && ring.history == old(ring.history)
  {
    rc := InternalError;
    admitted := ring.CanTDFragmentFit(maxTDBytes);
    if admitted {
      RoomForSmaller(ring, r.bytes, maxTDBytes);
      hide Survives, TransferRing.Valid, TransferRing.Room, TransferRing.HasRoomFor, TransferRing.Queue,
        TransferRing.State, DataTrbs, LastCut, IsCut, Regular;
      var firstTrbIndex, trbCount, lastTrbIndex;
      ghost var fs;
      rc, firstTrbIndex, trbCount, lastTrbIndex, fs := CreateTransfer(ring, r, pageOffset);
    }
  }

  lemma RoomForSmaller(ring: TransferRing, bytes: nat, maxTDBytes: nat)
    requires ring.Valid() && ring.first < 0 && bytes <= maxTDBytes && Survives(ring.State(), ReservedTrbs(maxTDBytes))
    ensures ring.HasRoomFor(ReservedTrbs(bytes))
  {
    RoomSurvives(ring.State(), ReservedTrbs(maxTDBytes));
    ReservationMonotone(bytes, maxTDBytes);
    RoomMonotone(ring.State(), ReservedTrbs(bytes), ReservedTrbs(maxTDBytes));
  }

  /** The end of _createTransfer, behind its loop. */
  method Finish(ring: TransferRing, r: Request, fourth: Control, count: nat, isFirstFragment: bool, last: int,
                ghost q0: seq<Body>, ghost h0: seq<Body>, ghost data: seq<Body>, ghost fs: nat)
    returns (rc: Status, trbCount: nat, firstTrbIndex: int, lastTrbIndex: nat)
    requires r.Valid() && data == DataTrbs(r, 0, r.offset, r.bytes) && count == |data| && fs < |data|
    requires LaidOut(ring, q0, data, fs, |data|, fourth) && last == ring.LastSlot() && ring.history == h0 + data[..fs]
    requires isFirstFragment <==> fs == 0
    modifies ring, ring.slots
    ensures LinkedFrom(old(ring.Mid()), ring.Mid(), |q0|, r.preceding)
    ensures rc == Success || rc == InternalError
    ensures old(ring.Fits()) ==> ring.Fits()
    ensures count == 1 || old(ring.Room()) >= 1 ==> rc == Success
    ensures rc != Success ==> LeftOver(ring, q0, h0, data, fs) && ring.Order() == old(ring.Order())
    ensures rc == Success ==> AddsSlots(old(ring.Order()), ring.Order(), firstTrbIndex, lastTrbIndex)
    ensures rc == Success && trbCount == 1 && lastTrbIndex == ring.slots.Length - 2 ==>
      !ring.slots[ring.slots.Length - 1].body.control.chain
    ensures trbCount >= count && (rc == Success ==> ring.Room() + trbCount >= old(ring.Room()) + count)
    ensures rc == Success ==>
      var td := TdTrbs(r, SlotAddress(ring.phys, lastTrbIndex));
      && Finished(ring, q0, h0, td, firstTrbIndex, lastTrbIndex)
      && trbCount == |td| && firstTrbIndex + (trbCount - fs) == lastTrbIndex + 1
  {
    DataTrbsAreNoLinks(r, 0, r.offset, r.bytes);
    assert fourth.kind != Link;
    trbCount := count;
    if trbCount == 1 {
      assert data == [data[0]] && fs == 0 && h0 + data[..0] == h0;
      hide DataTrbs, LaidOut, Finished, TransferRing.Valid, TransferRing.Queue, AddsSlots, TransferRing.Order,
        TransferRing.Room, TransferRing.HasRoomFor, TransferRing.LastSlot;
      FinishSingle(ring, r, fourth, last, q0, h0, data[0]);
      rc, firstTrbIndex, lastTrbIndex := Success, last, last;
    } else {
      hide DataTrbs, LaidOut, Finished, LeftOver, EventTrb, TransferRing.Valid, TransferRing.Queue, AddsSlots,
        TransferRing.Order, TransferRing.Room, TransferRing.HasRoomFor, TransferRing.LastSlot;
      rc, lastTrbIndex, firstTrbIndex := FinishWithEvent(ring, r, fourth, isFirstFragment, q0, h0, data, fs);
      trbCount := trbCount + 1;
    }
  }
}
