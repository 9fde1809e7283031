/** Where the walk of CountRingToED ends when it starts at a TRB of a TD, and what it has added up. */
module TransferWalk {
  import opened Basics
  import opened Trb
  import opened Hardware
  import opened RingState
  import opened RingSteps
  import opened RingWalk
  import opened TransferSpec
  import opened TransferTiling

  /** The bytes of these TRBs that the walk counts. */
  function NormalOf(ts: seq<Body>): nat {
    if |ts| == 0 then 0
    else NormalOf(ts[..|ts| - 1]) + if ts[|ts| - 1].control.kind == Normal then ts[|ts| - 1].bytes else 0
  }

  /** The walk goes on behind such a TRB. */
  predicate GoesOnBehind(t: Body) { t.control.kind != EventData && t.control.chain }

  // ---------------------------------------------------------------- the walk along a trail

  lemma NormalOfOne(ts: seq<Body>, t: Body)
    ensures NormalOf(ts + [t]) == NormalOf(ts) + if t.control.kind == Normal then t.bytes else 0
  {
    assert (ts + [t])[..|ts|] == ts;
  }

  lemma {:induction false} WalkedBytes(us: seq<TRB>)
    ensures NormalBytes(us, |us|) == NormalOf(Executes(us))
    decreases |us|
  {
    hide NormalOf, Executes;
    if |us| > 0 {
      var n := |us| - 1;
      WalkedBytes(us[..n]);
      NormalBytesOfPrefix(us, us[..n], n);
      assert us[..n + 1] == us;
      ExecutesOne(us, n);
      NormalOfOne(Executes(us[..n]), us[n].body);
    } else {
      NothingWalked(us);
    }
  }

  lemma NothingWalked(us: seq<TRB>)
    requires us == []
    ensures NormalBytes(us, 0) == NormalOf(Executes(us)) == 0 && Executes(us) == []
  {
  }

  lemma {:induction false} NormalBytesOfPrefix(us: seq<TRB>, vs: seq<TRB>, k: int)
    requires 0 <= k <= |us| && k <= |vs| && us[..k] == vs[..k]
    ensures NormalBytes(us, k) == NormalBytes(vs, k)
    decreases k
  {
    if k > 0 {
      assert us[k - 1] == us[..k][k - 1] && vs[k - 1] == vs[..k][k - 1];
      assert us[..k - 1] == us[..k][..k - 1] && vs[..k - 1] == vs[..k][..k - 1];
      NormalBytesOfPrefix(us, vs, k - 1);
    }
  }

  lemma ExecutesOne(us: seq<TRB>, n: int)
    requires 0 <= n < |us|
    ensures Executes(us[..n + 1]) == if us[n].IsLink() then Executes(us[..n]) else Executes(us[..n]) + [us[n].body]
  {
    assert us[..n + 1][..n] == us[..n];
  }

  lemma ExecutesPrefix(us: seq<TRB>, n: int)
    requires 0 <= n <= |us|
    ensures Executes(us[..n]) <= Executes(us)
  {
    hide Executes;
    assert us[..n] + us[n..] == us;
    ExecutesBoth(us[..n], us[n..]);
  }

  /** As long as the walk goes on it has not come to the end of the TD. */
  lemma {:induction false} StillWithin(us: seq<TRB>, ts: seq<Body>, n: int)
    requires 0 <= n <= |us| && |ts| > 0 && ts <= Executes(us) && !GoesOnBehind(ts[|ts| - 1])
    requires forall j :: 0 <= j < n ==> Continues(us[j])
    ensures |Executes(us[..n])| < |ts|
    decreases n
  {
    hide Executes;
    if n > 0 {
      StillWithin(us, ts, n - 1);
      ExecutesOne(us, n - 1);
      ExecutesPrefix(us, n);
    } else {
      NothingWalked(us[..0]);
    }
  }

  /** A TD's TRBs but the last one go on, and so do links inside it: the walk ends at its last TRB. */
  lemma EndsWithTD(us: seq<TRB>, ts: seq<Body>, m: int)
    requires |ts| > 0 && ts <= Executes(us) && !GoesOnBehind(ts[|ts| - 1])
    requires forall j :: 0 <= j < |ts| - 1 ==> GoesOnBehind(ts[j])
    requires EndsChain(us, m) && forall j :: 0 <= j <= m && us[j].IsLink() ==> us[j].body.control.chain
    ensures Executes(us[..m + 1]) == ts && !us[m].IsLink() && us[m].body == ts[|ts| - 1]
  {
    hide Executes;
    StillWithin(us, ts, m);
    assert us[..|us|] == us;
    StillWithin(us, ts, if Continues(us[m]) then m + 1 else m);
    ExecutesOne(us, m);
    ExecutesPrefix(us, m + 1);
    var c := |Executes(us[..m])|;
    assert ts[c] == Executes(us)[c] == us[m].body;
    assert Executes(us[..m + 1]) == Executes(us)[..c + 1] == ts[..c + 1];
    assert ts[..|ts|] == ts;
  }

  // ---------------------------------------------------------------- the trail and the pending slots

  lemma {:induction false} AllExecuted(us: seq<TRB>)
    requires forall j :: 0 <= j < |us| ==> !us[j].IsLink()
    ensures |Executes(us)| == |us|
    decreases |us|
  {
    if |us| > 0 { AllExecuted(us[..|us| - 1]); }
  }

  /** A TRB of the trail lies in the slot that the pending TRBs' order gives it. */
  lemma TrailSlot(s: Ring, i: int, m: int)
    requires s.Inv() && s.first < 0 && 0 <= i < s.Last() && Names(s, i)
    requires 0 <= m < |Trail(s, i)| && !Trail(s, i)[m].IsLink()
    ensures var k := Offset(s.Route(), s.PlaceOf(i)) + |Executes(Trail(s, i)[..m])|;
            0 <= k < |s.Order()| && s.Order()[k] == TrailIndex(s, i, m)
  {
    hide Executes;
    var us, p := Trail(s, i), s.PlaceOf(i);
    SlotsFrom(s.Route(), p);
    if s.enq < s.deq <= i {
      TrailTurns(s, i, m);
    } else {
      AllExecuted(us[..m]);
    }
  }

  /** Without a link in front of them, or with one at place n, the first m TRBs are executed one by one. */
  lemma CountAround(us: seq<TRB>, n: int, end: int, m: int)
    requires 0 <= n <= end <= n + 1 && end <= m <= |us| && (end == n + 1 ==> us[n].IsLink())
    requires forall j :: 0 <= j < m && !(n <= j < end) ==> !us[j].IsLink()
    ensures |Executes(us[..m])| == n + m - end
  {
    hide Executes;
    assert us[..end] + us[end..m] == us[..m];
    ExecutesBoth(us[..end], us[end..m]);
    AllExecuted(us[..n]);
    if end == n + 1 { ExecutesOne(us, n); }
    AllExecuted(us[end..m]);
  }

  lemma TrailTurns(s: Ring, i: int, m: int)
    requires s.Inv() && s.first < 0 && s.enq < s.deq <= i < s.Last() && Names(s, i)
    requires 0 <= m < |Trail(s, i)| && !Trail(s, i)[m].IsLink()
    ensures var n := s.Route().turn - i;
      0 <= n &&
      if m < n then |Executes(Trail(s, i)[..m])| == m && TrailIndex(s, i, m) == i + m
      else |Executes(Trail(s, i)[..m])| == n + TrailIndex(s, i, m) && 0 <= TrailIndex(s, i, m) < s.enq
  {
    hide Executes, Clear;
    var us, n := Trail(s, i), s.Route().turn - i;
    var end := if s.Route().turn == s.Last() then n else n + 1;
    TrailLinks(s, i);
    if m < n {
      CountAround(us, m, m, m);
    } else {
      CountAround(us, n, end, m);
    }
  }

  /** A trail that turns has no link but the one at which it turns. */
  lemma TrailLinks(s: Ring, i: int)
    requires s.Inv() && s.first < 0 && s.enq < s.deq <= i < s.Last() && Names(s, i)
    ensures var us, n := Trail(s, i), s.Route().turn - i;
      var end := if s.Route().turn == s.Last() then n else n + 1;
      && 0 <= n && |us| == end + s.enq
      && (end == n + 1 ==> s.Route().turn < s.Last() && us[n] == s.mem[s.Route().turn] && us[n].IsLink())
      && forall j :: 0 <= j < |us| && !(n <= j < end) ==> !us[j].IsLink()
  {
    var us, n := Trail(s, i), s.Route().turn - i;
    var end := if s.Route().turn == s.Last() then n else n + 1;
    forall j | 0 <= j < |us| && !(n <= j < end) ensures !us[j].IsLink() {
      assert us[j] == s.mem[if j < n then i + j else j - end];
    }
  }

  // ---------------------------------------------------------------- what a TD's TRBs say

  /** Only an error makes another TRB than the last one of a TD raise an event. */
  ghost predicate Plain(r: Request) {
    && r.Valid() && r.NoEmptySegments() && Available(r, r.offset, r.bytes)
    && r.mystery.kind != EventData && (r.immediate.None? ==> !r.mystery.ioc && !r.mystery.isp)
  }

  lemma {:induction false} DataTrbsQuiet(r: Request, i: nat, at: nat, left: nat, k: int)
    requires r.Valid() && r.NoEmptySegments() && Available(r, at, left) && 0 <= k < |DataTrbs(r, i, at, left)|
    requires r.mystery.kind != EventData && !r.mystery.ioc && !r.mystery.isp
    ensures var c := DataTrbs(r, i, at, left)[k].control;
      !c.ioc && !c.isp && c.kind != EventData && (i + k > 0 ==> c.kind == Normal)
    decreases left
  {
    hide DataTrb, Request.NoEmptySegments;
    var ts, n := DataTrbs(r, i, at, left), PieceLength(r, at, left).value;
    DataTrbQuiet(r, i, at, left, n);
    if n < left {
      var rest := DataTrbs(r, i + 1, at + n, left - n);
      assert ts == [DataTrb(r, i, at, left, n)] + rest;
      if k > 0 { DataTrbsQuiet(r, i + 1, at + n, left - n, k - 1); }
    }
  }

  lemma DataTrbQuiet(r: Request, i: nat, at: nat, left: nat, n: nat)
    requires r.Valid() && n <= left && (left > 0 && r.immediate.None? ==> r.segment(at).Some?)
    requires r.mystery.kind != EventData && !r.mystery.ioc && !r.mystery.isp
    ensures var c := DataTrb(r, i, at, left, n).control;
      !c.ioc && !c.isp && c.kind != EventData && (i > 0 ==> c.kind == Normal)
  {
  }

  lemma OneDataTrb(r: Request)
    requires Plain(r) && (r.immediate.Some? || r.bytes == 0)
    ensures |DataTrbs(r, 0, r.offset, r.bytes)| == 1
  {
  }

  lemma SomeDataTrbs(r: Request)
    requires Plain(r)
    ensures |DataTrbs(r, 0, r.offset, r.bytes)| > 0
  {
  }

  /**
   * All TRBs of a TD but the last one go on, and raise no event of their own; the last one ends the walk.
   */
  lemma OnlyLastTells(r: Request, addr: nat)
    requires Plain(r)
    ensures var ts := TdTrbs(r, addr);
      && |ts| > 0 && !GoesOnBehind(ts[|ts| - 1])
      && forall k :: 0 <= k < |ts| - 1 ==> GoesOnBehind(ts[k]) && !ts[k].control.ioc && !ts[k].control.isp
  {
    hide DataTrbs, Available, Request.NoEmptySegments;
    SomeDataTrbs(r);
    var ts, data := TdTrbs(r, addr), DataTrbs(r, 0, r.offset, r.bytes);
    if |data| > 1 {
      if r.immediate.Some? { OneDataTrb(r); }
      forall k | 0 <= k < |data| ensures GoesOnBehind(data[k]) && !data[k].control.ioc && !data[k].control.isp {
        DataTrbsChain(r, 0, r.offset, r.bytes, k);
        DataTrbsQuiet(r, 0, r.offset, r.bytes, k);
      }
    }
  }

  lemma {:induction false} NormalOfRest(ts: seq<Body>, k: int, n: int)
    requires 0 <= k <= n <= |ts| && forall j :: k <= j < n ==> ts[j].control.kind == Normal
    ensures NormalOf(ts[k..n]) == BytesBefore(ts, n) - BytesBefore(ts, k)
    decreases n
  {
    if k < n {
      NormalOfRest(ts, k, n - 1);
      NormalOfOne(ts[k..n - 1], ts[n - 1]);
      assert ts[k..n] == ts[k..n - 1] + [ts[n - 1]];
    }
  }

  /** The TRBs behind data TRB k are for the bytes that the TRBs up to it are not for. */
  lemma BytesBehind(r: Request, addr: nat, k: int)
    requires Plain(r) && r.immediate.None? && !r.IsNoopOrStatus() && r.bytes > 0
    requires 0 <= k < |DataTrbs(r, 0, r.offset, r.bytes)|
    ensures k + 1 <= |TdTrbs(r, addr)|
    ensures NormalOf(TdTrbs(r, addr)[k + 1..]) == r.bytes - BytesBefore(DataTrbs(r, 0, r.offset, r.bytes), k + 1)
  {
    hide DataTrbs, Available, Request.NoEmptySegments, Request.IsNoopOrStatus, NormalOf, BytesBefore, Tiles;
    var ts, data := TdTrbs(r, addr), DataTrbs(r, 0, r.offset, r.bytes);
    DataTrbsTile(r, 0, r.offset, r.bytes, 0);
    if |data| > 1 {
      forall j | k + 1 <= j < |data|
        ensures data[j].control.kind == Normal { DataTrbsQuiet(r, 0, r.offset, r.bytes, j); }
      NormalOfRest(data, k + 1, |data|);
      NormalOfOne(data[k + 1..], EventTrb(r, addr));
      assert data[k + 1..|data|] == data[k + 1..];
      assert ts == data + [EventTrb(r, addr)];
      assert ts[k + 1..] == data[k + 1..] + [EventTrb(r, addr)];
    } else {
      assert ts[k + 1..] == [];
      NothingWalked([]);
    }
  }

  lemma NoLinkAhead(s: Ring, i: int)
    requires s.Inv() && s.first < 0 && 0 <= i < s.Last() && !(s.enq < s.deq <= i) && Names(s, i)
    ensures forall j :: 0 <= j < |Trail(s, i)| ==> !Trail(s, i)[j].IsLink()
  {
    forall j | 0 <= j < |Trail(s, i)| ensures !Trail(s, i)[j].IsLink() { assert Trail(s, i)[j] == s.mem[i + j]; }
  }

  /** A link on the trail is the one in the middle of the ring, and the only one. */
  lemma LinkOnTrail(s: Ring, i: int, n: int)
    requires s.Inv() && s.first < 0 && 0 <= i < s.Last() && Names(s, i)
    requires 0 <= n < |Trail(s, i)| && Trail(s, i)[n].IsLink()
    ensures MidLink(s) == Some((Offset(s.Route(), s.PlaceOf(i)) + n, Trail(s, i)[n].body.control.chain))
    ensures forall j :: 0 <= j < n ==> !Trail(s, i)[j].IsLink()
  {
    hide Clear;
    if s.enq < s.deq <= i { TrailLinks(s, i); } else { NoLinkAhead(s, i); }
  }

  /** The walk does not come to a link behind the TD. */
  lemma LinkWithin(us: seq<TRB>, ts: seq<Body>, m: int, n: int)
    requires |ts| > 0 && ts <= Executes(us) && !GoesOnBehind(ts[|ts| - 1]) && EndsChain(us, m)
    requires 0 <= n <= m && forall j :: 0 <= j < n ==> !us[j].IsLink()
    ensures n < |ts|
  {
    hide Executes;
    StillWithin(us, ts, n);
    AllExecuted(us[..n]);
  }

  /**
   * CountRingToED from TRB k of a TD: it ends at the TD's last TRB; and if `rem` bytes of TRB k have not been
   * moved, what it adds up is the TD's bytes less those moved. (A link inside the TD, behind TRB k, is chained.)
   */
  lemma CountsTheRest(s: Ring, i: int, m: int, index: int, rem: nat, total: nat, r: Request, addr: nat, k: int)
    requires s.Inv() && s.first < 0 && 0 <= i < s.Last() && Names(s, i) && WalksTo(s, i, m, index, rem, total)
    requires Plain(r) && 0 <= k < |TdTrbs(r, addr)| && TdTrbs(r, addr)[k..] <= Executes(Trail(s, i))
      && !Trail(s, i)[0].IsLink()
    requires var p, mid := Offset(s.Route(), s.PlaceOf(i)), MidLink(s);
      mid.Some? && p < mid.value.0 < p + |TdTrbs(r, addr)| - k ==> mid.value.1
    ensures var e := Offset(s.Route(), s.PlaceOf(i)) + |TdTrbs(r, addr)| - 1 - k;
      0 <= e < |s.Order()| && index == s.Order()[e]
    ensures r.immediate.None? && !r.IsNoopOrStatus() && r.bytes > 0 && k < |DataTrbs(r, 0, r.offset, r.bytes)| ==>
      total == r.bytes - (BytesBefore(DataTrbs(r, 0, r.offset, r.bytes), k + 1) - rem)
  {
    hide DataTrbs, Available, Request.NoEmptySegments, Request.IsNoopOrStatus, NormalOf, BytesBefore, Executes,
      NormalBytes, Trail, TrailIndex, Ring.Inv, Names, TdTrbs, MidLink, Offset;
    var ts, us := TdTrbs(r, addr), Trail(s, i);
    OnlyLastTells(r, addr);
    forall n | 0 <= n <= m && us[n].IsLink() ensures us[n].body.control.chain {
      LinkOnTrail(s, i, n);
      LinkWithin(us, ts[k..], m, n);
    }
    EndsWithTD(us, ts[k..], m);
    TrailSlot(s, i, m);
    ExecutesOne(us, m);
    BehindFirst(us, m);
    if r.immediate.None? && !r.IsNoopOrStatus() && r.bytes > 0 && k < |DataTrbs(r, 0, r.offset, r.bytes)| {
      assert ts[k..][1..] == ts[k + 1..];
      BytesBehind(r, addr, k);
    }
  }

  lemma BehindFirst(us: seq<TRB>, m: int)
    requires 0 <= m < |us| && !us[0].IsLink()
    ensures Executes(us[..m + 1]) != [] && NormalBytes(us[1..], m) == NormalOf(Executes(us[..m + 1])[1..])
  {
    hide Executes, NormalBytes, NormalOf;
    assert us[..1] + us[1..m + 1] == us[..m + 1];
    ExecutesBoth(us[..1], us[1..m + 1]);
    ExecutesOne(us, 0);
    NothingWalked(us[..0]);
    assert Executes(us[..m + 1])[1..] == Executes(us[1..m + 1]);
    NormalBytesOfPrefix(us[1..], us[1..m + 1], m);
    WalkedBytes(us[1..m + 1]);
  }
}
