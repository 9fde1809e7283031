/** Which transfers a ring has room for, whatever way their fragments fall. */
module Admission {
  import opened Basics
  import opened RingState
  import opened RingSteps

  /** The indices after one more slot is taken; what the slots hold does not matter here. */
  function Taken(s: Ring): Ring {
    var (enq, first, cs) := AfterTake(s);
    s.(enq := enq, first := first, cs := cs, turn := if enq == 0 then s.Last() else s.turn)
  }

  function Closed(s: Ring): Ring { s.(first := -1) }

  /** k more slots can be taken, no matter after which of them the open fragment is closed. */
  ghost predicate Survives(s: Ring, k: nat)
    decreases k
  {
    k == 0 || (!Refuses(s) && Survives(Taken(s), k - 1) && Survives(Closed(Taken(s)), k - 1))
  }

  /** The same in terms of the indices. */
  predicate HasRoom(s: Ring, k: nat) {
    k == 0 ||
    if s.Straddles() then k + s.Last() - s.first <= s.deq - 1
    else if s.enq < s.deq then k <= s.deq - 1 - s.enq
    else if s.deq == 0 then k <= s.Last() - 1 - s.enq
    else
      var carried := if s.first < 0 then 0 else s.enq - s.first;
      k <= s.Last() - s.enq || k + carried <= s.deq - 1
  }

  /** How many slots that is at most. */
  function MostRoom(s: Ring): nat {
    var n :=
      if s.Straddles() then s.deq - 1 - (s.Last() - s.first)
      else if s.enq < s.deq then s.deq - 1 - s.enq
      else if s.deq == 0 then s.Last() - 1 - s.enq
      else
        var carried := if s.first < 0 then 0 else s.enq - s.first;
        if s.Last() - s.enq < s.deq - 1 - carried then s.deq - 1 - carried else s.Last() - s.enq;
    if n < 0 then 0 else n
  }

  lemma RoomIsMost(s: Ring)
    ensures forall k: nat :: HasRoom(s, k) <==> k <= MostRoom(s)
  {
  }

  /** If there is room for k slots whenever there was room for n more, only n are gone. */
  lemma RoomLeft(s: Ring, s': Ring, n: nat)
    requires forall k: nat :: HasRoom(s, k + n) ==> HasRoom(s', k)
    ensures MostRoom(s') + n >= MostRoom(s)
  {
    hide HasRoom, MostRoom;
    RoomIsMost(s);
    RoomIsMost(s');
    var m := MostRoom(s);
    if m >= n {
      assert HasRoom(s, (m - n) + n);
      assert HasRoom(s', m - n);
    }
  }

  lemma TakenIndices(s: Ring)
    requires s.Indices() && !s.hole && !Refuses(s)
    ensures Taken(s).Indices() && Closed(Taken(s)).Indices()
  {
  }

  lemma RoomStep(s: Ring, k: nat)
    requires s.Indices() && !s.hole && k > 0
    ensures HasRoom(s, k) <==> !Refuses(s) && HasRoom(Taken(s), k - 1) && HasRoom(Closed(Taken(s)), k - 1)
  {
  }

  lemma {:induction false} RoomSurvives(s: Ring, k: nat)
    requires s.Indices() && !s.hole
    ensures Survives(s, k) <==> HasRoom(s, k)
    decreases k
  {
    if k > 0 {
      RoomStep(s, k);
      if !Refuses(s) {
        TakenIndices(s);
        RoomSurvives(Taken(s), k - 1);
        RoomSurvives(Closed(Taken(s)), k - 1);
      }
    }
  }

  /** How many TRBs the driver reserves for n bytes: one for every page they may touch, one for EVENT_DATA. */
  function ReservedTrbs(n: nat): nat {
    n / PAGE_SIZE + 2 + if n % PAGE_SIZE > 1 then 1 else 0
  }

  /** How many pages n bytes touch that start `at` bytes into a page. */
  function PagesTouched(at: nat, n: nat): nat {
    if n == 0 then 0 else (at % PAGE_SIZE + n + PAGE_SIZE - 1) / PAGE_SIZE
  }

  /** The reservation covers every alignment, and there is an alignment that needs all of it. */
  lemma ReservationCovers(at: nat, n: nat)
    requires n > 0
    ensures PagesTouched(at, n) + 1 <= ReservedTrbs(n)
  {
    var r, q := n % PAGE_SIZE, n / PAGE_SIZE;
    assert n == q * PAGE_SIZE + r;
    assert at % PAGE_SIZE + n + PAGE_SIZE - 1 == q * PAGE_SIZE + (at % PAGE_SIZE + r + PAGE_SIZE - 1);
  }

  lemma ReservationNeeded(n: nat)
    requires n > 1
    ensures PagesTouched(PAGE_SIZE - 1, n) + 1 == ReservedTrbs(n)
  {
    var r, q := n % PAGE_SIZE, n / PAGE_SIZE;
    assert n == q * PAGE_SIZE + r;
    assert (PAGE_SIZE - 1) % PAGE_SIZE + n + PAGE_SIZE - 1 == q * PAGE_SIZE + (2 * PAGE_SIZE - 2 + r);
  }

  /** A larger request never needs fewer TRBs. */
  lemma ReservationMonotone(m: nat, n: nat)
    requires m <= n
    ensures ReservedTrbs(m) <= ReservedTrbs(n)
  {
    if m / PAGE_SIZE == n / PAGE_SIZE {
      assert m % PAGE_SIZE <= n % PAGE_SIZE;
    }
  }

  lemma RoomMonotone(s: Ring, j: nat, k: nat)
    requires s.Indices() && j <= k && HasRoom(s, k)
    ensures HasRoom(s, j)
  {
  }

  /** A piece that does not end the transfer ends at a page boundary, and leaves a page fewer to touch. */
  lemma PieceEndsPage(at: nat, left: nat, n: nat)
    requires 0 < n <= left
    requires n < left ==> (at + n) % PAGE_SIZE == 0
    ensures PagesTouched(at + n, left - n) + 1 <= PagesTouched(at, left)
  {
    var o := at % PAGE_SIZE;
    if n < left {
      assert at == at / PAGE_SIZE * PAGE_SIZE + o;
      assert (o + n) % PAGE_SIZE == 0;
      var q := (o + n) / PAGE_SIZE;
      assert o + n == q * PAGE_SIZE && q >= 1;
      assert o + left + PAGE_SIZE - 1 == q * PAGE_SIZE + (left - n + PAGE_SIZE - 1);
    }
  }
}
