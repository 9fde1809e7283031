/** Which frame of an isochronous TD a ring slot belongs to. */
module IsochRanges {
  /** The slots that one frame has got. */
  datatype SlotRange = SlotRange(first: int, count: int) {
    predicate Has(i: int) { first <= i < first + count }
  }

  /** The first of these ranges that has slot i, or -1. */
  function FrameOf(ranges: seq<SlotRange>, i: int): (k: int)
    ensures -1 <= k < |ranges| && (k >= 0 ==> ranges[k].Has(i))
    ensures forall j :: 0 <= j < (if k < 0 then |ranges| else k) ==> !ranges[j].Has(i)
  {
    if ranges == [] then -1
    else if ranges[0].Has(i) then 0
    else
      var k := FrameOf(ranges[1..], i);
      if k < 0 then -1 else k + 1
  }

  /** It is the frame that is found from the front. */
  lemma FrameIs(ranges: seq<SlotRange>, i: int, k: int)
    requires -1 <= k < |ranges| && (k >= 0 ==> ranges[k].Has(i))
    requires forall j :: 0 <= j < (if k < 0 then |ranges| else k) ==> !ranges[j].Has(i)
    ensures FrameOf(ranges, i) == k
  {
    var f := FrameOf(ranges, i);
  }
}
