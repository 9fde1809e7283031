/** A circular buffer whose slots carry a cycle bit: the consumer knows by it which of them have been written. */
module CycleRings {

  datatype Entry<T> = Entry(item: T, cycle: bool)

  function Wrap(i: int, n: int): (w: int)
    ensures 0 <= i < 2 * n ==> 0 <= w < n
  {
    if i < n then i else i - n
  }

  /** The cycle bit the consumer expects i slots behind its dequeue index. */
  function CycleAt(deq: int, cs: bool, i: int, n: int): bool {
    if deq + i < n then cs else !cs
  }

  /**
   * The ring holds the items `out` from the dequeue index on; all other slots look old. The producer writes behind
   * them.
   */
  ghost predicate RingHolds<T>(ring: seq<Entry<T>>, deq: int, cs: bool, index: int, cycle: bool, out: seq<T>) {
    && 0 <= deq < |ring| && |out| < |ring|
    && index == Wrap(deq + |out|, |ring|) && cycle == CycleAt(deq, cs, |out|, |ring|)
    && (forall i :: 0 <= i < |out| ==> ring[Wrap(deq + i, |ring|)] == Entry(out[i], CycleAt(deq, cs, i, |ring|)))
    && (forall i :: |out| <= i < |ring| ==> ring[Wrap(deq + i, |ring|)].cycle != CycleAt(deq, cs, i, |ring|))
  }

  /** The producer's write is seen as the newest item, and nothing else changes. */
  lemma Posts<T>(ring: seq<Entry<T>>, deq: int, cs: bool, index: int, cycle: bool, out: seq<T>, e: T)
    requires RingHolds(ring, deq, cs, index, cycle, out) && |out| < |ring| - 1
    ensures RingHolds(ring[index := Entry(e, cycle)], deq, cs, Wrap(index + 1, |ring|),
                      if index + 1 >= |ring| then !cycle else cycle, out + [e])
  {
  }

  /** As long as its cycle bit looks old, what is written to the next slot is not seen. */
  lemma HiddenWrite<T>(ring: seq<Entry<T>>, deq: int, cs: bool, index: int, cycle: bool, out: seq<T>, e: T)
    requires RingHolds(ring, deq, cs, index, cycle, out)
    ensures 0 <= index < |ring| && RingHolds(ring[index := ring[index].(item := e)], deq, cs, index, cycle, out)
  {
  }

  /** The producer can tell that the ring is full: it stops one slot short of the consumer. */
  lemma RingFull<T>(ring: seq<Entry<T>>, deq: int, cs: bool, index: int, cycle: bool, out: seq<T>)
    requires RingHolds(ring, deq, cs, index, cycle, out)
    ensures Wrap(index + 1, |ring|) == deq <==> |out| == |ring| - 1
  {
  }

  /** The cycle bit tells whether there is an item, and which one is the oldest. */
  lemma OldestItem<T>(ring: seq<Entry<T>>, deq: int, cs: bool, index: int, cycle: bool, out: seq<T>)
    requires RingHolds(ring, deq, cs, index, cycle, out)
    ensures ring[deq].cycle == cs <==> |out| > 0
    ensures |out| > 0 ==> ring[deq].item == out[0]
  {
    if |out| > 0 {
      assert ring[Wrap(deq + 0, |ring|)] == Entry(out[0], CycleAt(deq, cs, 0, |ring|));
    } else {
      assert ring[Wrap(deq + 0, |ring|)].cycle != CycleAt(deq, cs, 0, |ring|);
    }
  }

  /** Going past the oldest item leaves the others, across the end of the ring. */
  lemma Consumes<T>(ring: seq<Entry<T>>, deq: int, cs: bool, index: int, cycle: bool, out: seq<T>)
    requires RingHolds(ring, deq, cs, index, cycle, out) && |out| > 0
    ensures RingHolds(ring, Wrap(deq + 1, |ring|), if deq + 1 >= |ring| then !cs else cs, index, cycle, out[1..])
  {
    hide Wrap, CycleAt;
    var n := |ring|;
    var deq', cs' := Wrap(deq + 1, n), if deq + 1 >= n then !cs else cs;
    OneOn(deq, cs, |out| - 1, n);
    assert index == Wrap(deq' + |out[1..]|, n) && cycle == CycleAt(deq', cs', |out[1..]|, n);
    forall i | 0 <= i < |out[1..]| ensures ring[Wrap(deq' + i, n)] == Entry(out[1..][i], CycleAt(deq', cs', i, n)) {
      OneOn(deq, cs, i, n);
      assert ring[Wrap(deq + (i + 1), n)] == Entry(out[i + 1], CycleAt(deq, cs, i + 1, n));
    }
    forall i | |out[1..]| <= i < n ensures ring[Wrap(deq' + i, n)].cycle != CycleAt(deq', cs', i, n) {
      OneOn(deq, cs, i, n);
      if i < n - 1 {
        assert ring[Wrap(deq + (i + 1), n)].cycle != CycleAt(deq, cs, i + 1, n);
      } else {
        assert ring[Wrap(deq + 0, n)] == Entry(out[0], CycleAt(deq, cs, 0, n));
      }
    }
  }

  lemma OneOn(deq: int, cs: bool, i: int, n: int)
    requires 0 <= deq < n && 0 <= i < n
    ensures var deq', cs' := Wrap(deq + 1, n), if deq + 1 >= n then !cs else cs;
      && Wrap(deq + 0, n) == deq && 0 <= deq' < n
      && Wrap(deq' + i, n) == (if i < n - 1 then Wrap(deq + (i + 1), n) else deq)
      && CycleAt(deq', cs', i, n) == (if i < n - 1 then CycleAt(deq, cs, i + 1, n) else !CycleAt(deq, cs, 0, n))
      && CycleAt(deq, cs, n, n) == !CycleAt(deq, cs, 0, n) && Wrap(deq + n, n) == deq
  {
  }
}
