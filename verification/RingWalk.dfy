/** What CountRingToED has to find: the rest of a chain of TRBs along the pending region. */
module RingWalk {
  import opened Trb
  import opened Hardware
  import opened RingState
  import opened RingSteps

  /**
   * The TRBs from index i to the end of the pending region; a mid-ring link is one of them, the terminal link is
   * not.
   */
  function Trail(s: Ring, i: int): seq<TRB>
    requires s.Inv() && s.first < 0 && 0 <= i < s.Last() && Names(s, i)
  {
    if s.enq < s.deq <= i then
      s.mem[i..if s.Route().turn == s.Last() then s.Last() else s.Route().turn + 1] + s.mem[..s.enq]
    else s.mem[i..s.enq]
  }

  /** Where the k-th TRB of the trail from i lies. */
  function TrailIndex(s: Ring, i: int, k: int): int {
    var end := if s.Route().turn == s.Last() then s.Last() else s.Route().turn + 1;
    if s.enq < s.deq <= i && i + k >= end then i + k - end else i + k
  }

  /** A TRB after which the walk goes on. */
  predicate Continues(t: TRB) {
    t.body.control.kind != EventData && t.body.control.chain
  }

  /** k is the place of the first TRB of the trail that ends the chain, or of the last one there is. */
  predicate EndsChain(trail: seq<TRB>, k: int) {
    && 0 <= k < |trail|
    && (forall j :: 0 <= j < k ==> Continues(trail[j]))
    && (k == |trail| - 1 || !Continues(trail[k]))
  }

  /** The byte counts of the first k TRBs of type NORMAL. */
  function NormalBytes(ts: seq<TRB>, k: int): nat
    requires 0 <= k <= |ts|
    decreases k
  {
    if k == 0 then 0
    else NormalBytes(ts, k - 1) + if ts[k - 1].body.control.kind == Normal then ts[k - 1].body.bytes else 0
  }

  /** The walk from i ends at `index`, where the chain ends, and has added up the NORMAL bytes behind i. */
  ghost predicate WalksTo(s: Ring, i: int, k: int, index: int, before: nat, total: nat)
    requires s.Inv() && s.first < 0 && 0 <= i < s.Last() && Names(s, i)
  {
    EndsChain(Trail(s, i), k) && index == TrailIndex(s, i, k) && total == before + NormalBytes(Trail(s, i)[1..], k)
  }

  /** TRB k of the trail is where TrailIndex says, and one step of the walk leads to the next one, or to the end. */
  ghost predicate StepsOn(s: Ring, i: int, k: int)
    requires s.Inv() && s.first < 0 && 0 <= i < s.Last() && Names(s, i) && 0 <= k < |Trail(s, i)|
  {
    var at := TrailIndex(s, i, k);
    && 0 <= at < s.Last() && s.mem[at] == Trail(s, i)[k]
    && var next := if s.mem[at].IsLink() || at + 1 >= s.Last() then 0 else at + 1;
       if k + 1 < |Trail(s, i)| then next == TrailIndex(s, i, k + 1) && next != s.enq else next == s.enq
  }

  /** One step of the walk leads to the next TRB of the trail, or to the enqueue index at its end. */
  lemma TrailStep(s: Ring, i: int, k: int)
    requires s.Inv() && s.first < 0 && 0 <= i < s.Last() && Names(s, i) && 0 <= k < |Trail(s, i)|
    ensures StepsOn(s, i, k)
  {
    hide StepsOn;
    if s.enq < s.deq <= i {
      TurnedStep(s, i, k);
    } else {
      StraightStep(s, i, k);
    }
  }

  lemma TurnedStep(s: Ring, i: int, k: int)
    requires s.Inv() && s.first < 0 && s.enq < s.deq <= i < s.Last() && Names(s, i) && 0 <= k < |Trail(s, i)|
    ensures StepsOn(s, i, k)
  {
  }

  lemma StraightStep(s: Ring, i: int, k: int)
    requires s.Inv() && s.first < 0 && 0 <= i < s.Last() && !(s.enq < s.deq <= i) && Names(s, i)
    requires 0 <= k < |Trail(s, i)|
    ensures StepsOn(s, i, k)
  {
  }

  lemma TrailStart(s: Ring, i: int)
    requires s.Inv() && s.first < 0 && 0 <= i < s.Last() && Names(s, i) && i != s.enq
    ensures |Trail(s, i)| > 0 && TrailIndex(s, i, 0) == i && s.mem[i] == Trail(s, i)[0]
  {
  }

  /** What a controller executes of these TRBs: all but the links. */
  function Executes(ts: seq<TRB>): seq<Body> {
    if |ts| == 0 then []
    else
      var t := ts[|ts| - 1];
      Executes(ts[..|ts| - 1]) + if t.IsLink() then [] else [t.body]
  }

  lemma {:induction false} ExecutesRun(mem: seq<TRB>, lo: int, hi: int, cs: bool)
    requires Run(mem, lo, hi, cs)
    ensures Executes(mem[lo..hi]) == Bodies(mem, lo, hi)
    decreases hi
  {
    if lo < hi {
      assert mem[lo..hi][..hi - lo - 1] == mem[lo..hi - 1];
      ExecutesRun(mem, lo, hi - 1, cs);
    }
  }

  lemma {:induction false} ExecutesBoth(ts: seq<TRB>, us: seq<TRB>)
    ensures Executes(ts + us) == Executes(ts) + Executes(us)
    decreases |us|
  {
    if |us| == 0 {
      assert ts + us == ts;
    } else {
      assert (ts + us)[..|ts + us| - 1] == ts + us[..|us| - 1];
      ExecutesBoth(ts, us[..|us| - 1]);
    }
  }

  /** The trail is what the controller has still to execute from index i on. */
  lemma TrailIsPending(s: Ring, i: int)
    requires s.Inv() && s.first < 0 && 0 <= i < s.Last() && Names(s, i)
    ensures var p := s.PlaceOf(i);
            Clear(s.mem, s.phys, s.Route().From(p)) &&
            Executes(Trail(s, i)) == Contents(s.mem, s.phys, s.Route().From(p))
  {
    SuffixFrom(s.mem, s.phys, s.Route(), s.PlaceOf(i));
    if s.enq < s.deq <= i {
      TurnedTrailIsPending(s, i);
    } else {
      ExecutesRun(s.mem, i, s.enq, s.cs);
    }
  }

  lemma TurnedTrailIsPending(s: Ring, i: int)
    requires s.Inv() && s.first < 0 && s.enq < s.deq <= i < s.Last() && Names(s, i)
    requires Clear(s.mem, s.phys, s.Route().From(s.PlaceOf(i)))
    ensures Executes(Trail(s, i)) == Contents(s.mem, s.phys, s.Route().From(s.PlaceOf(i)))
  {
    var turn, tail := s.Route().turn, s.mem[..s.enq];
    var head := s.mem[i..if turn == s.Last() then turn else turn + 1];
    assert Trail(s, i) == head + tail;
    assert Executes(head) == Bodies(s.mem, i, turn) by {
      if turn == s.Last() { ExecutesRun(s.mem, i, turn, !s.cs); } else { TurnExecutes(s.mem, i, turn, !s.cs); }
    }
    assert tail == s.mem[0..s.enq];
    ExecutesRun(s.mem, 0, s.enq, s.cs);
    hide Trail, Executes;
    ExecutesBoth(head, tail);
  }

  lemma TurnExecutes(mem: seq<TRB>, lo: int, turn: int, cs: bool)
    requires Run(mem, lo, turn, cs) && turn < |mem| && mem[turn].IsLink()
    ensures Executes(mem[lo..turn + 1]) == Bodies(mem, lo, turn)
  {
    assert mem[lo..turn + 1][..turn - lo] == mem[lo..turn];
    ExecutesRun(mem, lo, turn, cs);
  }
}
