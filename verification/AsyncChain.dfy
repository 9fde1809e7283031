/** How the TDs of an asynchronous endpoint lie on its transfer ring. */
module AsyncChain {
  import opened Basics
  import opened Trb
  import opened RingSteps
  import opened TransferSpec
  import opened Transfers

  /**
   * A TD on the ring: what was asked for, the index of its last TRB, and how many pending TRBs are in front of
   * that one.
   */
  datatype Laid = Laid(request: Request, last: int, end: int) {

    function Trbs(phys: nat): seq<Body> {
      if request.maxPacket > 0 && last >= 0 then TdTrbs(request, SlotAddress(phys, last)) else []
    }

    /** How many pending TRBs are in front of its first one. */
    function Start(phys: nat): int { end + 1 - |Trbs(phys)| }

    /** The pending TRBs from Start on are its own, and the last one of them is at index `last`. */
    predicate Lies(queue: seq<Body>, order: seq<int>, phys: nat) {
      && |Trbs(phys)| > 0 && 0 <= Start(phys) && 0 <= end < |queue| == |order|
      && queue[Start(phys)..end + 1] == Trbs(phys)
      && order[end] == last
    }
  }

  /** The TDs lie on the ring one behind the other; `order` says where each pending TRB is. */
  ghost predicate Chained(queue: seq<Body>, order: seq<int>, us: seq<Laid>, phys: nat) {
    && |order| == |queue|
    && (forall j :: 0 <= j < |us| ==> us[j].Lies(queue, order, phys))
    && (forall i, j :: 0 <= i < j < |us| ==> us[i].end < us[j].Start(phys))
  }

  /** The pending TRBs in front of the first TD: they belong to none. */
  function Lead(queue: seq<Body>, us: seq<Laid>, phys: nat): int {
    if |us| == 0 then |queue| else us[0].Start(phys)
  }

  /** Behind the first TD all TRBs belong to one of the TDs. */
  ghost predicate Tidy(queue: seq<Body>, us: seq<Laid>, phys: nat) {
    && (forall j :: 1 <= j < |us| ==> us[j].Start(phys) == us[j - 1].end + 1)
    && (|us| > 0 ==> us[|us| - 1].end == |queue| - 1)
  }

  /** If the link in the middle of the ring, with so many pending TRBs in front of it, is inside a TD, it is chained. */
  ghost predicate Through(us: seq<Laid>, phys: nat, mid: Option<(int, bool)>) {
    mid.Some? ==> forall j :: 0 <= j < |us| && us[j].Start(phys) < mid.value.0 <= us[j].end ==> mid.value.1
  }

  /** The TRBs of these TDs, in order. */
  function TrbsOf(us: seq<Laid>, phys: nat): seq<Body> {
    if |us| == 0 then [] else TrbsOf(us[..|us| - 1], phys) + us[|us| - 1].Trbs(phys)
  }

  lemma {:induction false} TidyUpTo(queue: seq<Body>, order: seq<int>, us: seq<Laid>, phys: nat, n: int)
    requires Chained(queue, order, us, phys) && Tidy(queue, us, phys) && Lead(queue, us, phys) == 0 && 0 < n <= |us|
    ensures 0 <= us[n - 1].end < |queue| && queue[..us[n - 1].end + 1] == TrbsOf(us[..n], phys)
    decreases n
  {
    hide Laid.Trbs, Laid.Lies, Chained;
    assert us[..n][..n - 1] == us[..n - 1];
    LeadIsFirst(queue, order, us, phys, n - 1);
    PartOf(queue, order, us, phys, n - 1);
    if n > 1 {
      TidyUpTo(queue, order, us, phys, n - 1);
      NextPart(queue, us[n - 2].end + 1, us[n - 1].end + 1);
    } else {
      assert us[..0] == [];
    }
  }

  lemma PartOf(queue: seq<Body>, order: seq<int>, us: seq<Laid>, phys: nat, j: int)
    requires Chained(queue, order, us, phys) && 0 <= j < |us|
    ensures 0 <= us[j].Start(phys) <= us[j].end + 1 <= |queue|
    ensures queue[us[j].Start(phys)..us[j].end + 1] == us[j].Trbs(phys)
  {
    hide TdTrbs;
    assert us[j].Lies(queue, order, phys);
  }

  lemma NextPart(queue: seq<Body>, m: int, k: int)
    requires 0 <= m <= k <= |queue|
    ensures queue[..k] == queue[..m] + queue[m..k]
  {
  }

  /** With nothing stray in front of them either, they are all that is pending. */
  lemma TidyIsAll(queue: seq<Body>, order: seq<int>, us: seq<Laid>, phys: nat)
    requires Chained(queue, order, us, phys) && Tidy(queue, us, phys) && Lead(queue, us, phys) == 0
    ensures queue == TrbsOf(us, phys)
  {
    hide TdTrbs;
    if |us| > 0 {
      TidyUpTo(queue, order, us, phys, |us|);
      assert us[..|us|] == us && queue[..|queue|] == queue;
    }
  }

  /** Behind the stray ones, every pending TRB belongs to a TD. */
  lemma {:induction false} TidyCovers(queue: seq<Body>, order: seq<int>, us: seq<Laid>, phys: nat, k: int, n: int)
    returns (j: int)
    requires Chained(queue, order, us, phys) && Tidy(queue, us, phys)
    requires Lead(queue, us, phys) <= k && 0 < n <= |us| && k <= us[n - 1].end
    ensures 0 <= j < n && us[j].Start(phys) <= k <= us[j].end
    decreases n
  {
    hide Laid.Trbs, Laid.Lies, Chained, Laid.Start;
    j := n - 1;
    if k < us[n - 1].Start(phys) {
      j := TidyCovers(queue, order, us, phys, k, n - 1);
    }
  }

  // ---------------------------------------------------------------- what happens to a chain

  /** More TRBs come behind. */
  lemma Grown(queue: seq<Body>, order: seq<int>, us: seq<Laid>, phys: nat, queue': seq<Body>, order': seq<int>)
    requires Chained(queue, order, us, phys) && queue <= queue' && order <= order' && |order'| == |queue'|
    ensures Chained(queue', order', us, phys)
  {
    hide TdTrbs;
    forall j | 0 <= j < |us| ensures us[j].Lies(queue', order', phys) {
      assert us[j].Lies(queue, order, phys);
      assert queue'[us[j].Start(phys)..us[j].end + 1] == queue[us[j].Start(phys)..us[j].end + 1];
    }
  }

  /** They are a TD's. */
  lemma Appended(queue: seq<Body>, order: seq<int>, us: seq<Laid>, phys: nat,
                 queue': seq<Body>, order': seq<int>, u: Laid)
    requires Chained(queue, order, us, phys) && queue' == queue + u.Trbs(phys) && |u.Trbs(phys)| > 0
    requires order <= order' && |order'| == |queue'| && order'[|order'| - 1] == u.last && u.end == |queue'| - 1
    ensures Chained(queue', order', us + [u], phys)
    ensures Tidy(queue, us, phys) ==> Tidy(queue', us + [u], phys)
    ensures Lead(queue', us + [u], phys) == Lead(queue, us, phys)
  {
    hide Laid.Lies, Laid.Trbs;
    Grown(queue, order, us, phys, queue', order');
    LastLies(queue, queue', order', phys, u);
    forall j | 0 <= j < |us| ensures us[j].end < |queue| { LeadIsFirst(queue, order, us, phys, j); }
  }

  lemma LastLies(queue: seq<Body>, queue': seq<Body>, order': seq<int>, phys: nat, u: Laid)
    requires queue' == queue + u.Trbs(phys) && |u.Trbs(phys)| > 0
    requires |order'| == |queue'| && order'[|order'| - 1] == u.last && u.end == |queue'| - 1
    ensures u.Lies(queue', order', phys) && u.Start(phys) == |queue|
  {
    hide TdTrbs;
    assert queue'[u.Start(phys)..u.end + 1] == u.Trbs(phys);
  }

  /** The link is as it was, or new behind the others. */
  lemma GrownThrough(queue: seq<Body>, order: seq<int>, us: seq<Laid>, phys: nat,
                     mid: Option<(int, bool)>, mid': Option<(int, bool)>, preceding: nat)
    requires Chained(queue, order, us, phys) && Through(us, phys, mid) && LinkedFrom(mid, mid', |queue|, preceding)
    ensures Through(us, phys, mid')
  {
    hide Laid.Lies, Laid.Trbs, Laid.Start;
    forall j | 0 <= j < |us| ensures us[j].end < |queue| { LeadIsFirst(queue, order, us, phys, j); }
  }

  lemma AppendedThrough(queue: seq<Body>, order: seq<int>, us: seq<Laid>, phys: nat, u: Laid,
                        mid: Option<(int, bool)>, mid': Option<(int, bool)>, preceding: nat)
    requires Chained(queue, order, us, phys) && Through(us, phys, mid) && LinkedFrom(mid, mid', |queue|, preceding)
    requires (mid.Some? ==> mid.value.0 <= |queue|) && u.Start(phys) == |queue|
    ensures Through(us + [u], phys, mid')
  {
    hide Laid.Lies, Laid.Trbs, Laid.Start;
    GrownThrough(queue, order, us, phys, mid, mid', preceding);
  }

  /** Both together: a TD's TRBs come behind. */
  lemma Joined(queue: seq<Body>, order: seq<int>, us: seq<Laid>, phys: nat, queue': seq<Body>, order': seq<int>,
               u: Laid, mid: Option<(int, bool)>, mid': Option<(int, bool)>, preceding: nat)
    requires Chained(queue, order, us, phys) && queue' == queue + u.Trbs(phys) && |u.Trbs(phys)| > 0
    requires order <= order' && |order'| == |queue'| && order'[|order'| - 1] == u.last && u.end == |queue'| - 1
    requires Through(us, phys, mid) && LinkedFrom(mid, mid', |queue|, preceding)
      && (mid.Some? ==> mid.value.0 <= |queue|)
    ensures Chained(queue', order', us + [u], phys) && Through(us + [u], phys, mid')
    ensures Tidy(queue, us, phys) ==> Tidy(queue', us + [u], phys)
    ensures Lead(queue', us + [u], phys) == Lead(queue, us, phys)
  {
    hide *;
    Appended(queue, order, us, phys, queue', order', u);
    LastLies(queue, queue', order', phys, u);
    AppendedThrough(queue, order, us, phys, u, mid, mid', preceding);
  }

  function Shifted(us: seq<Laid>, k: int): (vs: seq<Laid>)
    ensures |vs| == |us| && forall j :: 0 <= j < |us| ==> vs[j] == us[j].(end := us[j].end - k)
  {
    seq(|us|, j requires 0 <= j < |us| => us[j].(end := us[j].end - k))
  }

  lemma OneDropped(queue: seq<Body>, order: seq<int>, u: Laid, phys: nat, k: int)
    requires u.Lies(queue, order, phys) && 0 <= k <= u.Start(phys)
    ensures u.(end := u.end - k).Lies(queue[k..], order[k..], phys)
      && u.(end := u.end - k).Start(phys) == u.Start(phys) - k
  {
    hide TdTrbs;
    assert queue[k..][u.Start(phys) - k..u.end + 1 - k] == queue[u.Start(phys)..u.end + 1];
  }

  lemma LeadIsFirst(queue: seq<Body>, order: seq<int>, us: seq<Laid>, phys: nat, j: int)
    requires Chained(queue, order, us, phys) && 0 <= j < |us|
    ensures 0 <= Lead(queue, us, phys) <= us[j].Start(phys) <= us[j].end < |queue|
  {
    hide TdTrbs;
    assert us[0].Lies(queue, order, phys) && us[j].Lies(queue, order, phys);
  }

  /** A TD on the ring has pending TRBs. */
  lemma Within(queue: seq<Body>, order: seq<int>, us: seq<Laid>, phys: nat)
    requires Chained(queue, order, us, phys)
    ensures |us| > 0 ==> |queue| > 0
  {
    if |us| > 0 { LeadIsFirst(queue, order, us, phys, 0); }
  }

  /** k TRBs that belong to no TD leave the ring in front. */
  lemma LeadDropped(queue: seq<Body>, order: seq<int>, us: seq<Laid>, phys: nat, k: int)
    requires Chained(queue, order, us, phys) && 0 <= k <= Lead(queue, us, phys)
    ensures 0 <= k <= |queue| == |order| && Chained(queue[k..], order[k..], Shifted(us, k), phys)
    ensures Tidy(queue, us, phys) ==> Tidy(queue[k..], Shifted(us, k), phys)
    ensures Lead(queue[k..], Shifted(us, k), phys) == Lead(queue, us, phys) - k
  {
    hide Laid.Lies, Laid.Trbs, Laid.Start;
    if |us| > 0 { LeadIsFirst(queue, order, us, phys, 0); }
    var vs := Shifted(us, k);
    forall j | 0 <= j < |us|
      ensures vs[j].Lies(queue[k..], order[k..], phys) && vs[j].Start(phys) == us[j].Start(phys) - k {
      LeadIsFirst(queue, order, us, phys, j);
      assert us[j].Lies(queue, order, phys);
      OneDropped(queue, order, us[j], phys, k);
    }
    forall i, j | 0 <= i < j < |vs| ensures vs[i].end < vs[j].Start(phys) {
      assert us[i].end < us[j].Start(phys);
    }
  }

  /** The first n TDs are given up, but their TRBs stay on the ring. */
  lemma GivenUp(queue: seq<Body>, order: seq<int>, us: seq<Laid>, phys: nat, n: int)
    requires Chained(queue, order, us, phys) && 0 <= n <= |us|
    ensures Chained(queue, order, us[n..], phys)
    ensures Tidy(queue, us, phys) ==> Tidy(queue, us[n..], phys)
    ensures n > 0 && n < |us| ==> us[n - 1].end < Lead(queue, us[n..], phys)
    ensures n > 0 && Tidy(queue, us, phys) ==> Lead(queue, us[n..], phys) == us[n - 1].end + 1
  {
    hide Laid.Lies, Laid.Trbs, Laid.Start;
    assert forall j :: 0 <= j < |us| - n ==> us[n..][j] == us[n + j];
    forall i, j | 0 <= i < j < |us| - n ensures us[n..][i].end < us[n..][j].Start(phys) {
      assert us[n + i].end < us[n + j].Start(phys);
    }
  }

  /** The first n TDs leave the ring, with everything that is in front of their last TRB. */
  lemma Dropped(queue: seq<Body>, order: seq<int>, us: seq<Laid>, phys: nat, n: int)
    requires Chained(queue, order, us, phys) && 0 < n <= |us|
    ensures var k := us[n - 1].end + 1;
      && 0 <= k <= |queue| == |order| && Chained(queue[k..], order[k..], Shifted(us[n..], k), phys)
      && (Tidy(queue, us, phys) ==>
            Tidy(queue[k..], Shifted(us[n..], k), phys) && Lead(queue[k..], Shifted(us[n..], k), phys) == 0)
  {
    hide Laid.Lies, Laid.Trbs, Laid.Start, Chained, Tidy;
    LeadIsFirst(queue, order, us, phys, n - 1);
    GivenUp(queue, order, us, phys, n);
    LeadDropped(queue, order, us[n..], phys, us[n - 1].end + 1);
  }

  /** The first n TDs are given up, or leave the ring with the k TRBs up to their end. */
  lemma FewerThrough(us: seq<Laid>, phys: nat, n: int, k: int, mid: Option<(int, bool)>, mid': Option<(int, bool)>)
    requires Through(us, phys, mid) && 0 <= n <= |us| && MidShifted(mid, mid', k)
    ensures Through(us[n..], phys, mid) && Through(Shifted(us[n..], k), phys, mid')
  {
    hide TdTrbs;
    forall j | 0 <= j < |us| - n
      ensures us[n..][j] == us[n + j] && Shifted(us[n..], k)[j].Start(phys) == us[n + j].Start(phys) - k {
    }
  }

  /** Each TD's last TRB is in a slot of its own. */
  lemma LastIsEnd(queue: seq<Body>, order: seq<int>, us: seq<Laid>, phys: nat, j: int, k: int)
    requires Chained(queue, order, us, phys) && NoDuplicates(order)
    requires 0 <= j < |us| && 0 <= k < |order| && order[k] == us[j].last
    ensures k == us[j].end
  {
    hide TdTrbs;
    var e := us[j].end;
    assert us[j].Lies(queue, order, phys);
    assert order[k] == order[e];
  }

  /** The ends are in order. */
  lemma EndsGrow(queue: seq<Body>, order: seq<int>, us: seq<Laid>, phys: nat, i: int, j: int)
    requires Chained(queue, order, us, phys) && 0 <= i < j < |us|
    ensures us[i].end < us[j].end
  {
    hide TdTrbs;
    assert us[j].Lies(queue, order, phys);
  }
}
