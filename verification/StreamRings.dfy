/** The rings of a streams endpoint: sorting them by address, and finding the one an event is for. */
module StreamRings {
  import opened Basics

  const TWO_64 := 0x1_0000_0000_0000_0000
  const TWO_63 := 0x8000_0000_0000_0000
  const TRBS_PER_PAGE := 256
  const STACK_SIZE := 9
  const MAX_SORTED := 511

  /** The part of a ring's record that belongs to its memory, and what stays with the record when rings are sorted. */
  datatype StreamRing = StreamRing(physAddr: nat, md: Option<nat>, ptr: nat, numTRBs: nat, numPages: nat,
                                   cycleState: bool)

  datatype Memory = Memory(physAddr: nat, md: Option<nat>, ptr: nat)

  function MemoryOf(r: StreamRing): Memory {
    Memory(r.physAddr, r.md, r.ptr)
  }

  function Memories(s: seq<StreamRing>): (m: seq<Memory>)
    ensures |m| == |s|
    ensures forall i :: 0 <= i < |s| ==> m[i] == MemoryOf(s[i])
  {
    seq(|s|, i requires 0 <= i < |s| => MemoryOf(s[i]))
  }

  /** The TRB index of one address relative to another: the signed 64-bit difference, shifted right by four. */
  function DiffTRBIndex(a: nat, b: nat): int {
    var d := (a - b) % TWO_64;
    (if d < TWO_63 then d else d - TWO_64) / TRB_SIZE
  }

  /** An address that the signed shift orders properly. */
  predicate Aligned(a: nat) {
    a % TRB_SIZE == 0 && a < TWO_63
  }

  lemma DiffIsOrder(a: nat, b: nat)
    requires Aligned(a) && Aligned(b)
    ensures DiffTRBIndex(a, b) > 0 <==> a > b
    ensures DiffTRBIndex(a, b) <= 0 <==> a <= b
  {
  }

  /** What sorting does not touch. */
  ghost predicate RestKept(s: seq<StreamRing>, s': seq<StreamRing>) {
    |s| == |s'| && forall i :: 0 <= i < |s| ==>
      s'[i].numTRBs == s[i].numTRBs && s'[i].numPages == s[i].numPages && s'[i].cycleState == s[i].cycleState
  }

  /** Only the memories at indices l to r have changed places. */
  ghost predicate Permuted(s: seq<StreamRing>, s': seq<StreamRing>, l: int, r: int) {
    && RestKept(s, s')
    && multiset(Memories(s)) == multiset(Memories(s'))
    && (forall i :: 0 <= i < |s| && !(l <= i <= r) ==> s'[i] == s[i])
  }

  method Swap(rings: array<StreamRing>, l: int, r: int)
    requires 0 <= l < rings.Length && 0 <= r < rings.Length
    modifies rings
    ensures Memories(rings[..]) == old(Memories(rings[..])[l := MemoryOf(rings[r])][r := MemoryOf(rings[l])])
    ensures RestKept(old(rings[..]), rings[..])
  {
    var key := rings[l].physAddr;
    var value1 := rings[l].md;
    var value2 := rings[l].ptr;
    rings[l] := rings[l].(physAddr := rings[r].physAddr);
    rings[l] := rings[l].(md := rings[r].md);
    rings[l] := rings[l].(ptr := rings[r].ptr);
    rings[r] := rings[r].(physAddr := key);
    rings[r] := rings[r].(md := value1);
    rings[r] := rings[r].(ptr := value2);
  }

  lemma Swapped(s: seq<StreamRing>, s': seq<StreamRing>, l: int, r: int)
    requires 0 <= l < r < |s| && RestKept(s, s')
    requires Memories(s') == Memories(s)[l := MemoryOf(s[r])][r := MemoryOf(s[l])]
    ensures Permuted(s, s', l, r) && MemoryOf(s'[l]) == MemoryOf(s[r]) && MemoryOf(s'[r]) == MemoryOf(s[l])
    ensures forall i :: 0 <= i < |s| && i != l && i != r ==> s'[i] == s[i]
  {
    var m, m' := Memories(s), Memories(s');
    assert m'[l] == m[r] && m'[r] == m[l];
    forall i | 0 <= i < |s| && i != l && i != r ensures s'[i] == s[i] {
      assert m'[i] == m[i];
    }
  }

  /** Exchanges two rings' memory: the address, the descriptor and the mapping move together. */
  method Exchange(rings: array<StreamRing>, l: int, r: int)
    requires 0 <= l < r < rings.Length
    modifies rings
    ensures Permuted(old(rings[..]), rings[..], l, r)
    ensures rings[l].physAddr == old(rings[r].physAddr) && rings[r].physAddr == old(rings[l].physAddr)
    ensures forall i :: 0 <= i < rings.Length && i != l && i != r ==> rings[i] == old(rings[i])
  {
    hide Permuted, RestKept;
    ghost var s := rings[..];
    Swap(rings, l, r);
    Swapped(s, rings[..], l, r);
    assert forall i :: 0 <= i < |s| ==> s[i] == old(rings[i]) && rings[..][i] == rings[i];
  }

  lemma PermutedTwice(s: seq<StreamRing>, s': seq<StreamRing>, s'': seq<StreamRing>, l: int, r: int, l': int, r': int)
    requires Permuted(s, s', l, r) && Permuted(s', s'', l', r') && l <= l' && r' <= r
    ensures Permuted(s, s'', l, r)
  {
  }

  /** What is in a stretch after sorting it was in that stretch before. */
  lemma FromStretch(s: seq<StreamRing>, s': seq<StreamRing>, l: int, r: int, i: int)
    requires Permuted(s, s', l, r) && 0 <= l <= i <= r < |s|
    ensures exists j :: l <= j <= r && MemoryOf(s'[i]) == MemoryOf(s[j])
  {
    var m, m' := Memories(s), Memories(s');
    SameStretch(m, m', l, r + 1);
    assert m'[l..r + 1][i - l] in multiset(m'[l..r + 1]);
    var k :| 0 <= k < r + 1 - l && m[l..r + 1][k] == m'[i];
    assert m[l + k] == m'[i];
  }

  lemma SameStretch<T>(m: seq<T>, m': seq<T>, l: int, h: int)
    requires |m| == |m'| && 0 <= l <= h <= |m| && multiset(m) == multiset(m')
    requires forall j :: 0 <= j < |m| && !(l <= j < h) ==> m[j] == m'[j]
    ensures multiset(m[l..h]) == multiset(m'[l..h])
  {
    Thirds(m, l, h);
    Thirds(m', l, h);
    assert m[..l] == m'[..l] && m[h..] == m'[h..];
    Cancel(m[..l], m[l..h], m'[l..h], m[h..]);
  }

  lemma Thirds<T>(m: seq<T>, l: int, h: int)
    requires 0 <= l <= h <= |m|
    ensures m == m[..l] + m[l..h] + m[h..]
  {
  }

  lemma Cancel<T>(a: seq<T>, b: seq<T>, b': seq<T>, c: seq<T>)
    requires multiset(a + b + c) == multiset(a + b' + c)
    ensures multiset(b) == multiset(b')
  {
    assert multiset(a + b + c) == multiset(a) + multiset(b) + multiset(c);
    assert multiset(a + b' + c) == multiset(a) + multiset(b') + multiset(c);
    assert multiset(b) == multiset(a + b + c) - multiset(a) - multiset(c);
  }

  /** The last ring from l to r whose address is at most the pivot, or l - 1. */
  method ScanDown(rings: array<StreamRing>, l: int, r: int, pivot: nat) returns (R: int)
    requires 0 <= l <= r + 1 <= rings.Length && Aligned(pivot) && forall i :: l <= i <= r ==> Aligned(rings[i].physAddr)
    ensures l - 1 <= R <= r && (l <= R ==> rings[R].physAddr <= pivot)
    ensures forall i :: R < i <= r ==> rings[i].physAddr > pivot
  {
    hide DiffTRBIndex, Aligned;
    R := r;
    while l <= R && DiffTRBIndex(rings[R].physAddr, pivot) > 0
      invariant l - 1 <= R <= r
      invariant forall i :: R < i <= r ==> rings[i].physAddr > pivot
    {
      DiffIsOrder(rings[R].physAddr, pivot);
      R := R - 1;
    }
    if l <= R { DiffIsOrder(rings[R].physAddr, pivot); }
  }

  /** The first ring from l to r whose address is more than the pivot, or r + 1. */
  method ScanUp(rings: array<StreamRing>, l: int, r: int, pivot: nat) returns (L: int)
    requires 0 <= l <= r + 1 <= rings.Length && Aligned(pivot) && forall i :: l <= i <= r ==> Aligned(rings[i].physAddr)
    ensures l <= L <= r + 1 && (L <= r ==> rings[L].physAddr > pivot)
    ensures forall i :: l <= i < L ==> rings[i].physAddr <= pivot
  {
    hide DiffTRBIndex, Aligned;
    L := l;
    while L <= r && DiffTRBIndex(rings[L].physAddr, pivot) <= 0
      invariant l <= L <= r + 1
      invariant forall i :: l <= i < L ==> rings[i].physAddr <= pivot
    {
      DiffIsOrder(rings[L].physAddr, pivot);
      L := L + 1;
    }
    if L <= r { DiffIsOrder(rings[L].physAddr, pivot); }
  }

  /** Moves the rings at l to r whose address is at most the pivot's in front of the others. */
  method Partition(rings: array<StreamRing>, l: int, r: int, pivotIndex: int) returns (p: int)
    requires 0 <= l <= pivotIndex <= r < rings.Length
    requires forall i :: l <= i <= r ==> Aligned(rings[i].physAddr)
    modifies rings
    ensures l <= p <= r && Permuted(old(rings[..]), rings[..], l, r)
    ensures forall i :: l <= i <= p ==> rings[i].physAddr <= old(rings[pivotIndex].physAddr)
    ensures forall i :: p < i <= r ==> rings[i].physAddr > old(rings[pivotIndex].physAddr)
    ensures p == r ==> rings[..] == old(rings[..])
  {
    hide Aligned, Permuted;
    var pivot := rings[pivotIndex].physAddr;
    ghost var s := rings[..];
    var L, R := l, r;
    ghost var swapped := false;
    SamePermuted(s, l, r);
    while L <= R
      invariant l <= L <= R + 1 <= r + 1 && Aligned(pivot)
      invariant forall i :: l <= i <= r ==> Aligned(rings[i].physAddr)
      invariant forall i :: l <= i < L ==> rings[i].physAddr <= pivot
      invariant forall i :: R < i <= r ==> rings[i].physAddr > pivot
      invariant if swapped then l < L && R < r else rings[..] == s
      invariant rings.Length == |s| && Permuted(s, rings[..], l, r)
      decreases R - L + 1
    {
      ghost var s1 := rings[..];
      R := ScanDown(rings, L, R, pivot);
      L := ScanUp(rings, L, R, pivot);
      assert L != R;
      if L < R {
        Exchange(rings, L, R);
        PermutedTwice(s, s1, rings[..], l, r, L, R);
        L, R, swapped := L + 1, R - 1, true;
      }
    }
    p := R;
  }

  lemma SamePermuted(s: seq<StreamRing>, l: int, r: int)
    ensures Permuted(s, s, l, r)
  {
  }

  // ---------------------------------------------------------------- qsort

  /** n halved k times. */
  function Half(n: nat, k: nat): nat {
    if k == 0 then n else Half(n, k - 1) / 2
  }

  function Pow2(k: nat): nat {
    if k == 0 then 1 else 2 * Pow2(k - 1)
  }

  /** A stretch that is no longer than n halved k times is one whose length times 2^k is at most n. */
  lemma {:induction false} HalvesFit(n: nat, size: nat, k: nat)
    requires size <= Half(n, k)
    ensures size * Pow2(k) <= n
    decreases k
  {
    if k > 0 {
      HalvesFit(n, 2 * size, k - 1);
      assert size * Pow2(k) == (2 * size) * Pow2(k - 1);
    }
  }

  /** The stack of stretches still to be sorted: the one at depth k has at most n / 2^k rings. */
  ghost predicate Stacked(ls: seq<int>, rs: seq<int>, n: nat) {
    && |ls| == |rs|
    && forall k :: 0 <= k < |ls| ==> 1 <= ls[k] <= rs[k] + 1 <= n + 1 && rs[k] - ls[k] + 1 <= Half(n, k)
  }

  /** `own` says of each ring at which depth of the stack its stretch is; -1 if it is where it belongs. */
  ghost predicate Owned(own: seq<int>, ls: seq<int>, rs: seq<int>, n: nat) {
    && |own| == n + 1 && |ls| == |rs|
    && (forall i :: 1 <= i <= n ==> -1 <= own[i] < |ls|)
    && (forall i, k :: 1 <= i <= n && 0 <= k < |ls| ==> (own[i] == k <==> ls[k] <= i <= rs[k]))
  }

  /** Rings that are not in the same stretch are in order. */
  ghost predicate Ordered(s: seq<StreamRing>, own: seq<int>, n: nat) {
    n < |s| && |own| == n + 1 &&
    forall i, j :: 1 <= i < j <= n && (own[i] != own[j] || own[i] < 0) ==> s[i].physAddr <= s[j].physAddr
  }

  ghost predicate Sorted(s: seq<StreamRing>, n: nat) {
    n < |s| && forall i, j :: 1 <= i < j <= n ==> s[i].physAddr <= s[j].physAddr
  }

  function Weight(l: int, r: int): nat {
    if r <= l then 1 else 2 * (r - l) + 1
  }

  /** What is left to do: each round either takes a stretch off the stack or breaks one in two. */
  function Work(ls: seq<int>, rs: seq<int>): nat
    requires |ls| == |rs|
  {
    if |ls| == 0 then 0 else Work(ls[..|ls| - 1], rs[..|rs| - 1]) + Weight(ls[|ls| - 1], rs[|rs| - 1])
  }

  lemma WorkOf(ls: seq<int>, rs: seq<int>, l: int, r: int)
    requires |ls| == |rs|
    ensures Work(ls + [l], rs + [r]) == Work(ls, rs) + Weight(l, r)
  {
    assert (ls + [l])[..|ls|] == ls && (rs + [r])[..|rs|] == rs;
  }

  function Given(own: seq<int>, l: int, p: int, r: int, low: int, high: int): seq<int> {
    seq(|own|, i requires 0 <= i < |own| => if l <= i <= p then low else if p < i <= r then high else own[i])
  }

  /** A stretch of at most one ring is sorted. */
  lemma Popped(s: seq<StreamRing>, own: seq<int>, ls: seq<int>, rs: seq<int>, n: nat)
    requires |ls| > 0 && Stacked(ls, rs, n) && Owned(own, ls, rs, n) && Ordered(s, own, n)
      && ls[|ls| - 1] >= rs[|rs| - 1]
    ensures var t, own' := |ls| - 1, Given(own, ls[|ls| - 1], rs[|ls| - 1], rs[|ls| - 1], -1, -1);
      Stacked(ls[..t], rs[..t], n) && Owned(own', ls[..t], rs[..t], n) && Ordered(s, own', n)
      && Work(ls[..t], rs[..t]) < Work(ls, rs)
  {
    hide Ordered, Owned, Given, Half;
    PoppedOwned(own, ls, rs, n);
    PoppedOrdered(s, own, ls, rs, n);
  }

  lemma PoppedOwned(own: seq<int>, ls: seq<int>, rs: seq<int>, n: nat)
    requires |ls| == |rs| > 0 && Owned(own, ls, rs, n) && ls[|ls| - 1] >= rs[|rs| - 1]
    ensures var t := |ls| - 1; Owned(Given(own, ls[t], rs[t], rs[t], -1, -1), ls[..t], rs[..t], n)
  {
    var t := |ls| - 1;
    var own' := Given(own, ls[t], rs[t], rs[t], -1, -1);
    forall i | 1 <= i <= n ensures -1 <= own'[i] < t && (own'[i] == own[i] || own[i] == t) {
      assert own[i] == t <==> ls[t] <= i <= rs[t];
    }
    forall i, k | 1 <= i <= n && 0 <= k < t ensures own'[i] == k <==> ls[k] <= i <= rs[k] {
      assert own[i] == k <==> ls[k] <= i <= rs[k];
    }
  }

  lemma PoppedOrdered(s: seq<StreamRing>, own: seq<int>, ls: seq<int>, rs: seq<int>, n: nat)
    requires |ls| == |rs| > 0 && Owned(own, ls, rs, n) && Ordered(s, own, n) && ls[|ls| - 1] >= rs[|rs| - 1]
    ensures var t := |ls| - 1; Ordered(s, Given(own, ls[t], rs[t], rs[t], -1, -1), n)
  {
    var t := |ls| - 1;
    var own' := Given(own, ls[t], rs[t], rs[t], -1, -1);
    forall i, j | 1 <= i < j <= n && (own'[i] != own'[j] || own'[i] < 0) ensures s[i].physAddr <= s[j].physAddr {
      assert own[i] != own[j] || own[i] < 0;
    }
  }

  /** The stretch on top of the stack is replaced by two. */
  function Pushed(s: seq<int>, below: int, top: int): seq<int>
    requires |s| > 0
  {
    s[..|s| - 1] + [below] + [top]
  }

  lemma BrokenStack(ls: seq<int>, rs: seq<int>, n: nat, l: int, r: int, l': int, r': int)
    requires |ls| > 0 && Stacked(ls, rs, n)
    requires 1 <= l <= r <= n && 1 <= l' <= r' <= n && r' - l' <= r - l
    requires (r - l + 1) + (r' - l' + 1) == rs[|ls| - 1] - ls[|ls| - 1] + 1
    ensures Stacked(Pushed(ls, l, l'), Pushed(rs, r, r'), n)
      && Work(Pushed(ls, l, l'), Pushed(rs, r, r')) < Work(ls, rs)
  {
    hide Work, Half;
    HalfOnce(n, |ls| - 1);
    BrokenWork(ls, rs, l, r, l', r');
    forall k | 0 <= k < |ls| - 1 ensures Pushed(ls, l, l')[k] == ls[k] && Pushed(rs, r, r')[k] == rs[k] {}
  }

  lemma HalfOnce(n: nat, k: nat)
    ensures Half(n, k + 1) == Half(n, k) / 2
  {
  }

  lemma BrokenWork(ls: seq<int>, rs: seq<int>, l: int, r: int, l': int, r': int)
    requires |ls| == |rs| > 0 && l <= r && l' <= r' && (r - l + 1) + (r' - l' + 1) == rs[|ls| - 1] - ls[|ls| - 1] + 1
    ensures Work(Pushed(ls, l, l'), Pushed(rs, r, r')) < Work(ls, rs)
  {
    hide Work;
    var t := |ls| - 1;
    WorkOf(ls[..t], rs[..t], l, r);
    WorkOf(ls[..t] + [l], rs[..t] + [r], l', r');
    WorkOf(ls[..t], rs[..t], ls[t], rs[t]);
    assert ls == ls[..t] + [ls[t]] && rs == rs[..t] + [rs[t]];
  }

  lemma BrokenOwned(own: seq<int>, ls: seq<int>, rs: seq<int>, n: nat, p: int)
    requires |ls| > 0 && Stacked(ls, rs, n) && ls[|ls| - 1] <= p < rs[|ls| - 1] && Owned(own, ls, rs, n)
    ensures var t := |ls| - 1;
      && Owned(Given(own, ls[t], p, rs[t], t, t + 1), Pushed(ls, ls[t], p + 1), Pushed(rs, p, rs[t]), n)
      && Owned(Given(own, ls[t], p, rs[t], t + 1, t), Pushed(ls, p + 1, ls[t]), Pushed(rs, rs[t], p), n)
  {
    var t := |ls| - 1;
    forall i, k | 1 <= i <= n && own[i] == t && 0 <= k < t ensures !(ls[k] <= i <= rs[k]) {}
  }

  lemma BrokenOrdered(s: seq<StreamRing>, s': seq<StreamRing>, own: seq<int>, l: int, p: int, r: int, n: nat, t: int,
                      low: int, high: int)
    requires 1 <= l <= p < r <= n < |s| && Ordered(s, own, n) && Permuted(s, s', l, r)
    requires forall i :: 1 <= i <= n ==> own[i] <= t && (own[i] == t <==> l <= i <= r)
    requires t >= 0 && ((low == t && high == t + 1) || (low == t + 1 && high == t))
    requires forall i, j :: l <= i <= p < j <= r ==> s'[i].physAddr <= s'[j].physAddr
    ensures Ordered(s', Given(own, l, p, r, low, high), n)
  {
    var own' := Given(own, l, p, r, low, high);
    forall i, j | 1 <= i < j <= n && (own'[i] != own'[j] || own'[i] < 0) ensures s'[i].physAddr <= s'[j].physAddr {
      if l <= i <= r && j > r {
        FromStretch(s, s', l, r, i);
        var i' :| l <= i' <= r && MemoryOf(s'[i]) == MemoryOf(s[i']);
        assert own[i'] != own[j];
      } else if i < l && l <= j <= r {
        FromStretch(s, s', l, r, j);
        var j' :| l <= j' <= r && MemoryOf(s'[j]) == MemoryOf(s[j']);
        assert own[i] != own[j'];
      }
    }
  }

  /** Breaks a stretch in two, neither of them empty, at its last ring's address. */
  method Break(rings: array<StreamRing>, l: int, r: int) returns (p: int)
    requires 0 <= l < r < rings.Length && forall i :: l <= i <= r ==> Aligned(rings[i].physAddr)
    modifies rings
    ensures l <= p < r && Permuted(old(rings[..]), rings[..], l, r)
    ensures forall i, j :: l <= i <= p < j <= r ==> rings[i].physAddr <= rings[j].physAddr
  {
    hide Aligned, Permuted;
    p := Partition(rings, l, r, r);
    if p == r {
      assert rings[r] == rings[..][r];
      p := p - 1;
    }
  }

  /** Replaces the stretch on top of the stack by two. */
  method Push(lefts: array<int>, rights: array<int>, top: int, l: int, r: int, l': int, r': int) returns (tos: int)
    requires lefts.Length == rights.Length == STACK_SIZE && lefts != rights && 0 <= top < STACK_SIZE - 1
    modifies lefts, rights
    ensures tos == top + 1
    ensures lefts[..tos + 1] == old(Pushed(lefts[..top + 1], l, l'))
      && rights[..tos + 1] == old(Pushed(rights[..top + 1], r, r'))
  {
    tos := top;
    lefts[tos] := l;
    rights[tos] := r;
    tos := tos + 1;
    lefts[tos] := l';
    rights[tos] := r';
  }

  /** What a round of the sort keeps. */
  ghost predicate Sorting(s: seq<StreamRing>, own: seq<int>, ls: seq<int>, rs: seq<int>, n: nat) {
    && Stacked(ls, rs, n) && Owned(own, ls, rs, n) && Ordered(s, own, n)
    && n < |s| && forall i :: 1 <= i <= n ==> Aligned(s[i].physAddr)
  }

  /** A round that breaks the stretch on top of the stack; the shorter part of it is the next to be broken. */
  method BreakTop(rings: array<StreamRing>, lefts: array<int>, rights: array<int>, top: int, maxStream: nat,
                  ghost own: seq<int>)
    returns (tos: int, ghost own': seq<int>)
    requires lefts.Length == rights.Length == STACK_SIZE && lefts != rights && 0 <= top < STACK_SIZE
      && maxStream <= MAX_SORTED
    requires Sorting(rings[..], own, lefts[..top + 1], rights[..top + 1], maxStream) && lefts[top] < rights[top]
    modifies rings, lefts, rights
    ensures 0 <= tos < STACK_SIZE && Permuted(old(rings[..]), rings[..], 1, maxStream)
    ensures Sorting(rings[..], own', lefts[..tos + 1], rights[..tos + 1], maxStream)
    ensures Work(lefts[..tos + 1], rights[..tos + 1]) < old(Work(lefts[..top + 1], rights[..top + 1]))
  {
    hide Aligned, Permuted, Stacked, Owned, Ordered, Work, Given, Pushed;
    var L, R := lefts[top], rights[top];
    ghost var ls, rs, s := lefts[..top + 1], rights[..top + 1], rings[..];
    OnTop(ls, rs, own, maxStream);
    var pivotIndex := Break(rings, L, R);
    StillAligned(s, rings[..], L, R, maxStream);
    SamePermuted(s, 1, maxStream);
    PermutedTwice(s, s, rings[..], 1, maxStream, L, R);
    BrokenOwned(own, ls, rs, maxStream, pivotIndex);
    if R - pivotIndex <= pivotIndex - L + 1 {
      BrokenOrdered(s, rings[..], own, L, pivotIndex, R, maxStream, top, top, top + 1);
      BrokenStack(ls, rs, maxStream, L, pivotIndex, pivotIndex + 1, R);
      own' := Given(own, L, pivotIndex, R, top, top + 1);
      tos := Push(lefts, rights, top, L, pivotIndex, pivotIndex + 1, R);
    } else {
      BrokenOrdered(s, rings[..], own, L, pivotIndex, R, maxStream, top, top + 1, top);
      BrokenStack(ls, rs, maxStream, pivotIndex + 1, R, L, pivotIndex);
      own' := Given(own, L, pivotIndex, R, top + 1, top);
      tos := Push(lefts, rights, top, pivotIndex + 1, R, L, pivotIndex);
    }
  }

  /**
   * Sorts rings 1 to maxStream by address. Of the two parts of a stretch the longer one is put aside, so
   * nine places on the stack are enough.
   */
  method Sort(rings: array<StreamRing>, maxStream: nat)
    requires maxStream < rings.Length && maxStream <= MAX_SORTED
    requires forall i :: 1 <= i <= maxStream ==> Aligned(rings[i].physAddr)
    modifies rings
    ensures Sorted(rings[..], maxStream) && Permuted(old(rings[..]), rings[..], 1, maxStream)
  {
    hide Aligned, Permuted, Stacked, Owned, Ordered, Work, Given;
    var lefts, rights := new int[STACK_SIZE], new int[STACK_SIZE];
    var tos := 0;
    lefts[tos] := 1;
    rights[tos] := maxStream;
    ghost var s := rings[..];
    ghost var own := seq(maxStream + 1, i => if i == 0 then -1 else 0);
    SamePermuted(s, 1, maxStream);
    Initially(s, own, lefts[..1], rights[..1], maxStream);
    while tos >= 0
      invariant -1 <= tos < STACK_SIZE && rings.Length == |s|
      invariant Sorting(rings[..], own, lefts[..tos + 1], rights[..tos + 1], maxStream)
        && Permuted(s, rings[..], 1, maxStream)
      decreases Work(lefts[..tos + 1], rights[..tos + 1])
    {
      if lefts[tos] >= rights[tos] {
        ghost var ls, rs := lefts[..tos + 1], rights[..tos + 1];
        Popped(rings[..], own, ls, rs, maxStream);
        own := Given(own, ls[tos], rs[tos], rs[tos], -1, -1);
        assert lefts[..tos] == ls[..tos] && rights[..tos] == rs[..tos];
        tos := tos - 1;
        continue;
      }
      ghost var s1 := rings[..];
      tos, own := BreakTop(rings, lefts, rights, tos, maxStream, own);
      PermutedTwice(s, s1, rings[..], 1, maxStream, 1, maxStream);
    }
    Finally(rings[..], own, maxStream);
  }

  lemma Initially(s: seq<StreamRing>, own: seq<int>, ls: seq<int>, rs: seq<int>, n: nat)
    requires ls == [1] && rs == [n] && n < |s| && |own| == n + 1 && forall i :: 1 <= i <= n ==> own[i] == 0
    ensures Stacked(ls, rs, n) && Owned(own, ls, rs, n) && Ordered(s, own, n)
  {
  }

  lemma Finally(s: seq<StreamRing>, own: seq<int>, n: nat)
    requires Ordered(s, own, n) && Owned(own, [], [], n)
    ensures Sorted(s, n)
  {
  }

  /** The top of the stack, when there is a stretch of more than one ring there, is not its last place. */
  lemma OnTop(ls: seq<int>, rs: seq<int>, own: seq<int>, n: nat)
    requires 0 < |ls| <= STACK_SIZE && Stacked(ls, rs, n) && Owned(own, ls, rs, n) && n <= MAX_SORTED
      && ls[|ls| - 1] < rs[|ls| - 1]
    ensures |ls| < STACK_SIZE && 1 <= ls[|ls| - 1] && rs[|ls| - 1] <= n
    ensures forall i :: 1 <= i <= n ==>
      own[i] <= |ls| - 1 && (own[i] == |ls| - 1 <==> ls[|ls| - 1] <= i <= rs[|ls| - 1])
  {
    if |ls| == STACK_SIZE {
      HalfOnce(n, 0);
      HalfOnce(n, 1);
      HalfOnce(n, 2);
      HalfOnce(n, 3);
      HalfOnce(n, 4);
      HalfOnce(n, 5);
      HalfOnce(n, 6);
      HalfOnce(n, 7);
    }
  }

  lemma StillAligned(s: seq<StreamRing>, s': seq<StreamRing>, l: int, r: int, n: nat)
    requires Permuted(s, s', l, r) && 1 <= l <= r <= n < |s| && forall i :: 1 <= i <= n ==> Aligned(s[i].physAddr)
    ensures forall i :: 1 <= i <= n ==> Aligned(s'[i].physAddr)
  {
    hide Aligned;
    forall i | 1 <= i <= n ensures Aligned(s'[i].physAddr) {
      if l <= i <= r { FromStretch(s, s', l, r, i); }
    }
  }

  // ---------------------------------------------------------------- FindStream

  /** What sorting the pages of a streams endpoint establishes. */
  ghost predicate Searchable(s: seq<StreamRing>, n: nat) {
    && n < |s|
    && (forall i :: 1 <= i <= n ==>
      s[i].physAddr % PAGE_SIZE == 0 && s[i].physAddr < TWO_63 && s[i].numTRBs == TRBS_PER_PAGE)
    && (forall i, j :: 1 <= i < j <= n ==> s[i].physAddr < s[j].physAddr)
  }

  /** An address lies within a ring, in front of the link at its end. */
  predicate InRing(r: StreamRing, addr: nat) {
    r.numTRBs > 0 && r.physAddr <= addr < r.physAddr + TRB_SIZE * (r.numTRBs - 1)
  }

  lemma DiffLocates(s: seq<StreamRing>, n: nat, i: int, addr: nat)
    requires Searchable(s, n) && 1 <= i <= n && addr < TWO_64
    ensures var d := DiffTRBIndex(addr, s[i].physAddr);
      && (InRing(s[i], addr) <==> 0 <= d < s[i].numTRBs - 1)
      && (InRing(s[i], addr) ==> d == (addr - s[i].physAddr) / TRB_SIZE)
      && (d < 0 ==> addr < s[i].physAddr || addr >= TWO_63)
      && (d >= s[i].numTRBs - 1 ==> addr >= s[i].physAddr + TRB_SIZE * (s[i].numTRBs - 1))
  {
    hide Searchable;
    SearchablePage(s, n, i);
  }

  lemma SearchablePage(s: seq<StreamRing>, n: nat, i: int)
    requires Searchable(s, n) && 1 <= i <= n
    ensures i < |s| && s[i].physAddr % PAGE_SIZE == 0 && s[i].physAddr < TWO_63 && s[i].numTRBs == TRBS_PER_PAGE
  {
  }

  lemma {:induction false} AtMostOne(s: seq<StreamRing>, n: nat, i: int, j: int, addr: nat)
    requires Searchable(s, n) && 1 <= i <= n && 1 <= j <= n && InRing(s[i], addr)
      && s[j].physAddr <= addr < s[j].physAddr + PAGE_SIZE
    ensures i == j
  {
  }

  /** The first of n rings that an address lies in. */
  function LinearFind(s: seq<StreamRing>, n: nat, addr: nat): Option<int>
    requires n < |s|
  {
    if n == 0 then None
    else
      var r := LinearFind(s, n - 1, addr);
      if r.Some? then r else if InRing(s[n], addr) then Some(n) else None
  }

  lemma {:induction false} LinearFinds(s: seq<StreamRing>, n: nat, addr: nat)
    requires n < |s|
    ensures var r := LinearFind(s, n, addr);
      if r.Some? then
        1 <= r.value <= n && InRing(s[r.value], addr) && forall i :: 1 <= i < r.value ==> !InRing(s[i], addr)
      else forall i :: 1 <= i <= n ==> !InRing(s[i], addr)
  {
    if n > 0 { LinearFinds(s, n - 1, addr); }
  }

  /** Nobody is found for the address of a link at the end of a ring. */
  lemma LinksAreNobodys(s: seq<StreamRing>, n: nat, k: int, addr: nat)
    requires Searchable(s, n) && 1 <= k <= n
      && s[k].physAddr + TRB_SIZE * (TRBS_PER_PAGE - 1) <= addr < s[k].physAddr + PAGE_SIZE
    ensures LinearFind(s, n, addr) == None
  {
    LinearFinds(s, n, addr);
    var r := LinearFind(s, n, addr);
    if r.Some? { AtMostOne(s, n, r.value, k, addr); }
  }

  /** FindStream: the one ring among the first lastStream that an address lies in, and the TRB it is the address of. */
  method FindStream(rings: array<StreamRing>, maxStream: nat, lastStream: nat, addr: nat)
    returns (stream: Option<int>, index: int)
    requires Searchable(rings[..], maxStream) && lastStream <= maxStream && addr < TWO_64
    ensures stream.Some? ==>
      && 1 <= stream.value <= lastStream && InRing(rings[stream.value], addr)
      && index == (addr - rings[stream.value].physAddr) / TRB_SIZE
      && forall i :: 1 <= i <= maxStream && InRing(rings[i], addr) ==> i == stream.value
    ensures stream.None? ==> index == 0 && forall i :: 1 <= i <= lastStream ==> !InRing(rings[i], addr)
    ensures stream == LinearFind(rings[..], lastStream, addr)
  {
    hide DiffTRBIndex, LinearFind;
    LinearFinds(rings[..], lastStream, addr);
    ghost var s := rings[..];
    var L, R := 1, lastStream;
    while L <= R
      invariant 1 <= L <= R + 1 <= lastStream + 1
      invariant forall i :: 1 <= i < L || R < i <= lastStream ==> !InRing(rings[i], addr)
      decreases R - L
    {
      var M := (L + R) / 2;
      DiffLocates(s, maxStream, M, addr);
      var diff := DiffTRBIndex(addr, rings[M].physAddr);
      if diff < 0 {
        forall i | M <= i <= lastStream ensures !InRing(rings[i], addr) {
          assert s[i].physAddr >= s[M].physAddr;
          if addr >= TWO_63 { PagesEnd(s, maxStream, i); }
        }
        R := M - 1;
        continue;
      }
      if diff >= rings[M].numTRBs - 1 {
        forall i | 1 <= i <= M ensures !InRing(rings[i], addr) {
          assert s[i].physAddr <= s[M].physAddr;
        }
        L := M + 1;
        continue;
      }
      forall i | 1 <= i <= maxStream && InRing(rings[i], addr) ensures i == M {
        AtMostOne(s, maxStream, i, M, addr);
      }
      return Some(M), diff;
    }
    return None, 0;
  }

  lemma PagesEnd(s: seq<StreamRing>, n: nat, i: int)
    requires Searchable(s, n) && 1 <= i <= n
    ensures s[i].physAddr + PAGE_SIZE <= TWO_63
  {
  }

  // ---------------------------------------------------------------- AllocStreamsContextArray

  /** The page a stream's ring gets, unless it has memory already. */
  function PageOf(r: StreamRing, page: nat): nat {
    if r.md.Some? then r.physAddr else page
  }

  /** No two rings get the same page. */
  ghost predicate PagesApart(s: seq<StreamRing>, pages: seq<nat>, n: nat) {
    && n < |s| && |pages| == n + 1
    && (forall i :: 1 <= i <= n ==>
      var a := PageOf(s[i], pages[i]);
        && a % PAGE_SIZE == 0 && a < TWO_63
        && (s[i].md.Some? ==> s[i].numTRBs == TRBS_PER_PAGE))
    && (forall i, j :: 1 <= i < j <= n ==> PageOf(s[i], pages[i]) != PageOf(s[j], pages[j]))
  }

  ghost predicate Paged(s: seq<StreamRing>, n: nat) {
    && n < |s|
    && (forall i :: 1 <= i <= n ==>
      s[i].physAddr % PAGE_SIZE == 0 && s[i].physAddr < TWO_63 && s[i].numTRBs == TRBS_PER_PAGE)
    && (forall i, j :: 1 <= i < j <= n ==> s[i].physAddr != s[j].physAddr)
  }

  lemma {:induction false} OnceEach<T>(m: seq<T>, x: T)
    requires forall i, j :: 0 <= i < j < |m| ==> m[i] != m[j]
    ensures multiset(m)[x] <= 1
  {
    if |m| > 0 {
      var k := |m| - 1;
      OnceEach(m[..k], x);
      assert m == m[..k] + [m[k]];
      if x == m[k] { assert x !in m[..k]; }
    }
  }

  lemma Twice<T>(m: seq<T>, i: int, j: int)
    requires 0 <= i < j < |m| && m[i] == m[j]
    ensures multiset(m)[m[i]] >= 2
  {
    assert m == m[..j] + [m[j]] + m[j + 1..];
    assert m[i] in m[..j];
  }

  /** Distinct pages, sorted, can be searched. */
  lemma SortedPages(s: seq<StreamRing>, s': seq<StreamRing>, n: nat)
    requires Paged(s, n) && Permuted(s, s', 1, n) && Sorted(s', n)
    ensures Searchable(s', n)
  {
    hide Permuted;
    PagesKept(s, s', n);
    forall i, j | 1 <= i < j <= n ensures s'[i].physAddr < s'[j].physAddr {
      if s'[i].physAddr == s'[j].physAddr { StillApart(s, s', n, i, j); }
    }
  }

  lemma PagesKept(s: seq<StreamRing>, s': seq<StreamRing>, n: nat)
    requires Paged(s, n) && Permuted(s, s', 1, n)
    ensures |s'| == |s|
    ensures forall i :: 1 <= i <= n ==>
      s'[i].physAddr % PAGE_SIZE == 0 && s'[i].physAddr < TWO_63 && s'[i].numTRBs == TRBS_PER_PAGE
  {
    forall i | 1 <= i <= n
      ensures s'[i].physAddr % PAGE_SIZE == 0 && s'[i].physAddr < TWO_63 && s'[i].numTRBs == TRBS_PER_PAGE {
      FromStretch(s, s', 1, n, i);
    }
  }

  lemma StillApart(s: seq<StreamRing>, s': seq<StreamRing>, n: nat, i: int, j: int)
    requires Paged(s, n) && Permuted(s, s', 1, n) && 1 <= i < j <= n
    ensures s'[i].physAddr != s'[j].physAddr
  {
    if s'[i].physAddr == s'[j].physAddr {
      FromStretch(s, s', 1, n, i);
      FromStretch(s, s', 1, n, j);
      var m, m' := Memories(s), Memories(s');
      SameStretch(m, m', 1, n + 1);
      assert m'[i] == m'[j];
      Twice(m'[1..n + 1], i - 1, j - 1);
      OnceEach(m[1..n + 1], m'[i]);
    }
  }

  /** A ring with a page at bus address `page` that is mapped at `at`, unless it has memory already. */
  function WithPage(r: StreamRing, page: nat, at: nat): StreamRing {
    if r.md.Some? then r
    else r.(ptr := at, physAddr := page, numTRBs := TRBS_PER_PAGE, numPages := 1, cycleState := true)
  }

  /** All rings with their pages, which are mapped one behind the other. */
  ghost predicate Assigned(s: seq<StreamRing>, s': seq<StreamRing>, pages: seq<nat>, base: nat, n: nat) {
    && n < |s| == |s'| && |pages| == n + 1 && s'[0] == s[0]
    && forall i :: 1 <= i <= n ==> s'[i] == WithPage(s[i], pages[i], base + (i - 1) * PAGE_SIZE)
  }

  /**
   * A ring that gets its memory here starts in cycle state 1 with a page full of TRBs at its bus address; the pages
   * are mapped one behind the other from `base` on. A ring with memory stays as it is.
   */
  lemma NewRings(s: seq<StreamRing>, s': seq<StreamRing>, pages: seq<nat>, base: nat, n: nat, i: nat, j: nat)
    requires Assigned(s, s', pages, base, n) && 1 <= i <= j <= n
    ensures s[i].md.Some? ==> s'[i] == s[i]
    ensures s[i].md.None? ==>
      && s'[i].md.None? && s'[i].cycleState && s'[i].physAddr == pages[i]
      && s'[i].numTRBs * TRB_SIZE == s'[i].numPages * PAGE_SIZE == PAGE_SIZE
      && s'[i].ptr >= base
    ensures s[i].md.None? && s[j].md.None? ==> s'[j].ptr == s'[i].ptr + (j - i) * PAGE_SIZE
    ensures s[1].md.None? ==> s'[1].ptr == base
  {
  }

  /** Each ring without memory gets a page and starts empty. */
  method AssignPages(rings: array<StreamRing>, maxStream: nat, pages: seq<nat>, base: nat)
    requires PagesApart(rings[..], pages, maxStream)
    modifies rings
    ensures Assigned(old(rings[..]), rings[..], pages, base, maxStream)
    ensures Paged(rings[..], maxStream) && forall i :: 1 <= i <= maxStream ==> Aligned(rings[i].physAddr)
  {
    ghost var s := rings[..];
    var streamId: nat, at: nat := 1, base;
    hide PagesApart;
    while streamId <= maxStream
      invariant 1 <= streamId <= maxStream + 1 && maxStream < rings.Length && |pages| == maxStream + 1
      invariant at == base + (streamId - 1) * PAGE_SIZE
      invariant forall i :: 1 <= i < streamId ==> rings[i] == WithPage(s[i], pages[i], base + (i - 1) * PAGE_SIZE)
      invariant forall i :: streamId <= i < rings.Length ==> rings[i] == s[i]
      invariant rings[0] == s[0]
    {
      if rings[streamId].md == None {
        rings[streamId] :=
          rings[streamId].(ptr := at, physAddr := pages[streamId], numTRBs := TRBS_PER_PAGE, numPages := 1,
                           cycleState := true);
      }
      streamId := streamId + 1;
      at := at + PAGE_SIZE;
    }
    AllPaged(s, rings[..], pages, base, maxStream);
  }

  lemma AllPaged(s: seq<StreamRing>, s': seq<StreamRing>, pages: seq<nat>, base: nat, n: nat)
    requires PagesApart(s, pages, n) && Assigned(s, s', pages, base, n)
    ensures Paged(s', n)
    ensures forall i :: 1 <= i <= n ==> Aligned(s'[i].physAddr)
  {
    hide PageOf, WithPage, Aligned;
    forall i | 1 <= i <= n
      ensures s'[i].physAddr == PageOf(s[i], pages[i]) && s'[i].numTRBs == TRBS_PER_PAGE && Aligned(s'[i].physAddr)
    {
      OnePaged(s[i], pages[i], base + (i - 1) * PAGE_SIZE);
    }
  }

  lemma OnePaged(r: StreamRing, page: nat, at: nat)
    requires PageOf(r, page) % PAGE_SIZE == 0 && PageOf(r, page) < TWO_63 && (r.md.Some? ==> r.numTRBs == TRBS_PER_PAGE)
    ensures var w := WithPage(r, page, at);
      w.physAddr == PageOf(r, page) && w.numTRBs == TRBS_PER_PAGE && Aligned(w.physAddr)
  {
    hide Aligned;
    PageAligned(PageOf(r, page));
  }

  lemma PageAligned(a: nat)
    requires a % PAGE_SIZE == 0 && a < TWO_63
    ensures Aligned(a)
  {
    var pages := a / PAGE_SIZE;
    assert a == PAGE_SIZE * pages;
    DivisionIsUnique(a, TRB_SIZE, TRBS_PER_PAGE * pages, 0);
  }

  /** Tells the controller the address of each ring that has got its memory just now. */
  method SetContexts(rings: array<StreamRing>, contexts: array<nat>, maxStream: nat)
    requires maxStream < rings.Length && contexts.Length == maxStream + 1
    requires forall i :: 1 <= i <= maxStream ==> rings[i].physAddr % PAGE_SIZE == 0
    modifies contexts
    ensures forall i :: 1 <= i <= maxStream ==>
      contexts[i] == if rings[i].md == None then rings[i].physAddr + 3 else old(contexts[i])
  {
    var streamId := 1;
    while streamId <= maxStream
      invariant 1 <= streamId <= maxStream + 1
      invariant forall i :: 1 <= i < streamId ==>
        contexts[i] == if rings[i].md == None then rings[i].physAddr + 3 else old(contexts[i])
      invariant forall i :: streamId <= i <= maxStream ==> contexts[i] == old(contexts[i])
    {
      if rings[streamId].md == None {
        WholeTRBs(rings[streamId].physAddr);
        contexts[streamId] := rings[streamId].physAddr / TRB_SIZE * TRB_SIZE + 3;
      }
      streamId := streamId + 1;
    }
  }

  lemma WholeTRBs(a: nat)
    requires a % PAGE_SIZE == 0
    ensures a / TRB_SIZE * TRB_SIZE == a
  {
    var pages := a / PAGE_SIZE;
    assert a == PAGE_SIZE * pages;
    assert a / TRB_SIZE == TRBS_PER_PAGE * pages;
  }

  /**
   * AllocStreamsContextArray: each ring without memory gets a page of its own (`paged`) and starts empty;
   * sorted by address, with address and mapping kept together, the rings can be searched; and the
   * controller's entry of each stream that gets its ring here has that ring's address.
   */
  method AllocStreams(rings: array<StreamRing>, contexts: array<nat>, maxStream: nat, pages: seq<nat>, base: nat)
    returns (ghost paged: seq<StreamRing>)
    requires maxStream <= MAX_SORTED && PagesApart(rings[..], pages, maxStream) && contexts.Length == maxStream + 1
    modifies rings, contexts
    ensures Assigned(old(rings[..]), paged, pages, base, maxStream) && Permuted(paged, rings[..], 1, maxStream)
    ensures Searchable(rings[..], maxStream) && rings[0] == old(rings[0])
    ensures forall i :: 1 <= i <= maxStream ==>
      contexts[i] == if rings[i].md == None then rings[i].physAddr + 3 else old(contexts[i])
  {
    hide Permuted, PagesApart, Paged, Aligned, Sorted;
    AssignPages(rings, maxStream, pages, base);
    paged := rings[..];
    PagedRoom(paged, maxStream);
    Sort(rings, maxStream);
    SortedPages(paged, rings[..], maxStream);
    FirstKept(paged, rings[..], maxStream);
    SetContexts(rings, contexts, maxStream);
  }

  lemma PagedRoom(s: seq<StreamRing>, n: nat)
    requires Paged(s, n)
    ensures n < |s|
  {
  }

  lemma FirstKept(s: seq<StreamRing>, s': seq<StreamRing>, n: nat)
    requires Permuted(s, s', 1, n) && |s| > 0
    ensures |s'| > 0 && s'[0] == s[0]
  {
  }
}
