/** What the result of a Set TR Dequeue Pointer command makes of a transfer ring. */
module CommandResults {
  import opened Hardware
  import opened RingState
  import opened RingSteps
  import opened TransferRings
  import C = CommandRings

  /** The completion code for a command that the endpoint's state does not allow (xHCI 1.0 section 6.4.5). */
  const CONTEXT_STATE: nat := 19

  /** Exactly a completion with code 1 (SUCCESS), of whatever slot, is taken for one. */
  lemma SucceedsExactly(err: nat, slot: nat)
    ensures Succeeds(C.ResultOf(err, slot)) <==> err == 1
    ensures !Succeeds(C.UNANSWERED) && !Succeeds(ERROR_CONTEXT_STATE)
    ensures C.ResultOf(CONTEXT_STATE, slot) == ERROR_CONTEXT_STATE
  {
  }

  /** A result tells SUCCESS from every error, the errors from each other and from no answer, and the slots. */
  lemma ResultsDiffer(err: nat, slot: nat, err': nat, slot': nat)
    ensures C.ResultOf(1, slot) == slot
    ensures C.ResultOf(err, slot) == C.ResultOf(err', slot') ==> err == err' && (err == 1 ==> slot == slot')
    ensures C.ResultOf(err, slot) != C.UNANSWERED
  {
  }

  /**
   * SetTRDQPtr when its command is completed with code `err` for a slot: the controller stands at index i, with the
   * rest of the queue in front of it, if and only if the command was sent and the code is SUCCESS; otherwise nothing
   * has changed.
   */
  method SetDequeue(ring: TransferRing, i: int, state: EndpointState, isStreams: bool, err: nat, slot: nat)
    returns (ret: int)
    requires ring.State().Inv() && ring.first < 0 && 0 <= i < ring.slots.Length - 1 && Names(ring.State(), i)
    modifies ring`deq, ring`route, ring`hw, ring`history
    ensures var sent :=
        state == Stopped || state == Error || (state == Running && isStreams && old(ring.deq == ring.enq));
      && ret == (if sent then C.ResultOf(err, slot) else C.ResultOf(CONTEXT_STATE, slot))
      && if sent && err == 1 then
           var k := Offset(old(ring.State().Route()), old(ring.State().PlaceOf(i)));
           && ring.Valid() && ring.deq == i && ring.hw == Controller(old(ring.State().PlaceOf(i)), old(ring.hw.taken))
           && 0 <= k <= |old(ring.State().Pending())| && ring.Queue() == old(ring.State().Pending())[k..]
         else
           ring.State() == old(ring.State()) && ring.hw == old(ring.hw) && (ring.Valid() <==> old(ring.Valid()))
  {
    hide TransferRing.Valid, Ring.Inv, Ring.Pending, Names, C.ResultOf, Succeeds, Ring.Route, Offset;
    SucceedsExactly(err, slot);
    var dcs;
    ret, dcs := ring.SetTRDQPtr(i, state, isStreams, C.ResultOf(err, slot));
  }
}
