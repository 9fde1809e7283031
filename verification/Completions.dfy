/** The queue of completions: callbacks that are run from it may add to it. */
module Completions {

  const MAX_FREE_RETENTION := 16

  /** A completion as it is given to AddItem. */
  datatype Completion = Completion(action: int, status: int, actualByteCount: nat)

  class CompleterItem {
    var contents: Completion
    /** Stale in the last item of a list. */
    var next: CompleterItem?

    constructor ()
    {
      contents, next := Completion(0, 0, 0), null;
    }
  }

  ghost predicate Chain(head: CompleterItem?, tail: CompleterItem?, s: seq<CompleterItem>)
    reads s`next
  {
    && (if s == [] then head == null && tail == null else head == s[0] && tail == s[|s| - 1])
    && forall i :: 0 <= i < |s| - 1 ==> s[i].next == s[i + 1]
  }

  ghost predicate Apart(active: seq<CompleterItem>, free: seq<CompleterItem>, nodes: set<CompleterItem>) {
    && (forall i, j :: 0 <= i < j < |active + free| ==> (active + free)[i] != (active + free)[j])
    && forall i :: 0 <= i < |active + free| ==> (active + free)[i] in nodes
  }

  /** The items hold these completions. */
  ghost predicate Hold(active: seq<CompleterItem>, waiting: seq<Completion>)
    reads active`contents
  {
    |active| == |waiting| && forall i :: 0 <= i < |active| ==> active[i].contents == waiting[i]
  }

  lemma ActiveTaken(active: seq<CompleterItem>, free: seq<CompleterItem>, nodes: set<CompleterItem>)
    requires Apart(active, free, nodes) && active != []
    ensures Apart(active[1..], free, nodes) && active[0] in nodes && active[0] !in active[1..] && active[0] !in free
    ensures |active| > 1 ==> active[0] != active[|active| - 1]
  {
    var all := active + free;
    assert active[1..] + free == all[1..];
    forall i | 0 <= i < |free| ensures free[i] == all[|active| + i] {}
    forall i | 0 <= i < |active[1..]| ensures active[1..][i] == all[i + 1] {}
    assert all[0] == active[0];
  }

  lemma FreeTaken(active: seq<CompleterItem>, free: seq<CompleterItem>, nodes: set<CompleterItem>)
    requires Apart(active, free, nodes) && free != []
    ensures Apart(active, free[1..], nodes) && free[0] in nodes && free[0] !in free[1..] && free[0] !in active
    ensures |free| > 1 ==> free[0] != free[|free| - 1]
  {
    var all, rest := active + free, active + free[1..];
    forall i | 0 <= i < |rest| ensures rest[i] == all[if i < |active| then i else i + 1] {}
    assert all[|active|] == free[0];
    forall i | 0 <= i < |active| ensures active[i] == all[i] {}
    forall i | 0 <= i < |free[1..]| ensures free[1..][i] == all[|active| + 1 + i] {}
  }

  lemma Added(active: seq<CompleterItem>, free: seq<CompleterItem>, nodes: set<CompleterItem>, item: CompleterItem)
    requires Apart(active, free, nodes) && item in nodes && item !in active && item !in free
    ensures Apart(active + [item], free, nodes) && Apart(active, free + [item], nodes)
  {
    var all, other, more := active + free, active + [item] + free, active + (free + [item]);
    assert more == all + [item];
    forall i | 0 <= i < |other| && i != |active| ensures other[i] == all[if i < |active| then i else i - 1] {}
    forall i | 0 <= i < |all| ensures all[i] != item {
      if i < |active| { assert all[i] in active; } else { assert all[i] in free; }
    }
  }

  lemma MoreNodes(active: seq<CompleterItem>, free: seq<CompleterItem>, nodes: set<CompleterItem>, item: CompleterItem)
    requires Apart(active, free, nodes)
    ensures Apart(active, free, nodes + {item})
  {
  }

  lemma Unlinked(head: CompleterItem?, tail: CompleterItem?, s: seq<CompleterItem>)
    requires Chain(head, tail, s) && s != [] && (|s| > 1 ==> s[0] != s[|s| - 1])
    ensures if head == tail then s[1..] == [] else Chain(head.next, tail, s[1..])
  {
  }

  class Completer {
    var activeHead: CompleterItem?
    var activeTail: CompleterItem?
    var freeHead: CompleterItem?
    var freeTail: CompleterItem?
    var freeCount: nat
    var flushing: bool
    /** The owner has been asked to have Flush called. */
    var scheduled: bool
    /** What the owner was given without passing through the queue, when there was no memory. */
    var immediate: seq<Completion>

    ghost var active: seq<CompleterItem>
    ghost var free: seq<CompleterItem>
    ghost var nodes: set<CompleterItem>
    /** What was put on the queue, and what was delivered from it, in order. */
    ghost var added: seq<Completion>
    ghost var delivered: seq<Completion>

    ghost predicate Valid()
      reads this, nodes
    {
      && Apart(active, free, nodes)
      && (forall i :: 0 <= i < |active| ==> active[i] in nodes) && (forall i :: 0 <= i < |free| ==> free[i] in nodes)
      && Chain(activeHead, activeTail, active) && Chain(freeHead, freeTail, free)
      && freeCount == |free| <= MAX_FREE_RETENTION
      && |delivered| + |active| == |added| && delivered <= added && Hold(active, added[|delivered|..])
      && (active != [] && !flushing ==> scheduled)
    }

    constructor ()
      ensures Valid() && added == [] && delivered == [] && !flushing && freeCount == 0
    {
      activeHead, activeTail, freeHead, freeTail, freeCount, flushing, scheduled, immediate := null, null, null, null,
        0, false, false, [];
      active, free, nodes, added, delivered := [], [], {}, [], [];
    }

    /** An item from the free list, or a new one if there is memory for it. */
    method GetItem(canAllocate: bool) returns (item: CompleterItem?)
      requires Valid()
      modifies this`freeHead, this`freeTail, this`freeCount, this`free, this`nodes
      ensures Valid() && fresh(nodes - old(nodes)) && old(nodes) <= nodes
      ensures item == null <==> old(free) == [] && !canAllocate
      ensures item != null ==> item in nodes && item !in active && item !in free
      ensures old(free) != [] ==> item == old(free)[0] && free == old(free)[1..]
      ensures old(free) == [] ==> free == [] && (item != null ==> fresh(item))
    {
      hide Apart, Hold;
      if freeHead != null {
        FreeTaken(active, free, nodes);
        Unlinked(freeHead, freeTail, free);
        item := freeHead;
        if freeHead == freeTail {
          freeHead, freeTail := null, null;
        } else {
          freeHead := item.next;
        }
        freeCount := freeCount - 1;
        free := free[1..];
      } else if canAllocate {
        item := new CompleterItem();
        MoreNodes(active, free, nodes, item);
        nodes := nodes + {item};
      } else {
        item := null;
      }
    }

    /** The other list is not touched. */
    twostate lemma ActiveKept()
      requires old(Chain(activeHead, activeTail, active)) && unchanged(`activeHead, `activeTail, `active)
      requires forall i :: 0 <= i < |active| ==> active[i].next == old(active[i].next)
      ensures Chain(activeHead, activeTail, active)
    {
    }

    twostate lemma FreeKept()
      requires old(Chain(freeHead, freeTail, free)) && unchanged(`freeHead, `freeTail, `free)
      requires forall i :: 0 <= i < |free| ==> free[i].next == old(free[i].next)
      ensures Chain(freeHead, freeTail, free)
    {
    }

    twostate lemma WaitingKept()
      requires old(|delivered| <= |added| && Hold(active, added[|delivered|..]))
        && unchanged(`active, `added, `delivered) && |delivered| <= |added|
      requires forall i :: 0 <= i < |active| ==> active[i].contents == old(active[i].contents)
      ensures Hold(active, added[|delivered|..])
    {
    }

    /** Links an item behind the ones that wait. */
    method LinkActive(item: CompleterItem)
      requires Chain(activeHead, activeTail, active) && forall i :: 0 <= i < |active| ==> active[i] != item
      requires forall i, j :: 0 <= i < j < |active| ==> active[i] != active[j]
      modifies this`activeHead, this`activeTail, this`active, (if active == [] then {} else {active[|active| - 1]})`next
      ensures Chain(activeHead, activeTail, active) && active == old(active) + [item]
    {
      if activeTail != null {
        activeTail.next := item;
      } else {
        activeHead := item;
      }
      activeTail := item;
      active := active + [item];
    }

    /** Puts an item behind the ones that wait. */
    method Append(item: CompleterItem, c: Completion)
      requires Valid() && item in nodes && item !in active && item !in free
      modifies this`activeHead, this`activeTail, this`active, this`added, this`scheduled, nodes
      ensures Valid() && added == old(added) + [c] && active == old(active) + [item]
    {
      hide Apart, Chain, Hold;
      Waiting();
      Added(active, free, nodes, item);
      InLists(item);
      MoreWaiting(item, c);
      item.contents := c;
      LinkActive(item);
      FreeKept();
      HoldsMore();
      added := added + [c];
      if !flushing {
        scheduled := true;
      }
    }

    lemma MoreWaiting(item: CompleterItem, c: Completion)
      requires |delivered| <= |added|
      ensures added[|delivered|..] + [c] == (added + [c])[|delivered|..]
    {
    }

    /** The items that wait hold what they held, and the last one what it was given. */
    twostate lemma HoldsMore()
      requires old(|delivered| <= |added| && Hold(active, added[|delivered|..])) && unchanged(`added, `delivered)
        && |delivered| <= |added|
      requires |active| == |old(active)| + 1 && old(active) <= active
      requires forall i :: 0 <= i < |old(active)| ==> active[i].contents == old(active[i].contents)
      ensures Hold(active, added[|delivered|..] + [active[|old(active)|].contents])
    {
      forall i | 0 <= i < |old(active)| ensures active[i] == old(active)[i] {}
    }

    lemma InLists(item: CompleterItem)
      requires Apart(active, free, nodes) && item !in active && item !in free
      ensures forall i :: 0 <= i < |active| ==> active[i] != item
      ensures forall i :: 0 <= i < |free| ==> free[i] != item
      ensures forall i, j :: 0 <= i < |active| && 0 <= j < |free| ==> active[i] != free[j]
      ensures forall i, j :: 0 <= i < j < |active| ==> active[i] != active[j]
      ensures forall i, j :: 0 <= i < j < |free| ==> free[i] != free[j]
    {
      var all := active + free;
      forall i, j | 0 <= i < |active| && 0 <= j < |free| ensures active[i] != free[j] {
        assert all[i] == active[i] && all[|active| + j] == free[j];
      }
      forall i, j | 0 <= i < j < |active| ensures active[i] != active[j] {
        assert all[i] == active[i] && all[j] == active[j];
      }
      forall i, j | 0 <= i < j < |free| ensures free[i] != free[j] {
        assert all[|active| + i] == free[i] && all[|active| + j] == free[j];
      }
    }

    /**
     * AddItem: puts a completion on the queue. Without an item to hold it, it is given to the owner at once
     * if the caller allows that, and refused otherwise.
     */
    method AddItem(hasCompletion: bool, c: Completion, allowImmediate: bool, canAllocate: bool) returns (ok: bool)
      requires Valid()
      modifies this`freeHead, this`freeTail, this`freeCount, this`free, this`nodes, this`immediate
      modifies this`activeHead, this`activeTail, this`active, this`added, this`scheduled, nodes
      ensures Valid() && fresh(nodes - old(nodes)) && old(nodes) <= nodes
      ensures !hasCompletion ==> ok && added == old(added) && immediate == old(immediate)
      ensures hasCompletion && (old(free) != [] || canAllocate) ==>
        ok && added == old(added) + [c] && immediate == old(immediate)
      ensures hasCompletion && old(free) == [] && !canAllocate ==>
        added == old(added) && ok == allowImmediate && immediate == if ok then old(immediate) + [c] else old(immediate)
    {
      hide Apart, Chain, Hold;
      if !hasCompletion {
        return true;
      }
      var item := GetItem(canAllocate);
      if item == null {
        if allowImmediate {
          immediate := immediate + [c];
        }
        return allowImmediate;
      }
      Append(item, c);
      ok := true;
    }

    /** Takes the first item off the queue, and keeps it for later unless enough are kept already. */
    method TakeFirst() returns (c: Completion)
      requires Valid() && flushing && active != []
      modifies this`activeHead, this`activeTail, this`active, this`freeHead, this`freeTail, this`freeCount, this`free,
        this`delivered, nodes
      ensures Valid() && c == old(added[|delivered|]) && delivered == old(delivered) + [c] && active == old(active)[1..]
      ensures free == if old(|free|) < 16 then old(free) + [old(active)[0]] else old(free)
    {
      hide Apart;
      ActiveTaken(active, free, nodes);
      Unlinked(activeHead, activeTail, active);
      var item := activeHead;
      if item == activeTail {
        activeHead, activeTail := null, null;
      } else {
        activeHead := item.next;
      }
      c := item.contents;
      delivered := delivered + [c];
      active := active[1..];
      if freeCount < MAX_FREE_RETENTION {
        Keep(item);
      }
    }

    method Keep(item: CompleterItem)
      requires Valid() && flushing && freeCount < MAX_FREE_RETENTION && item in nodes && item !in active
        && item !in free
      modifies this`freeHead, this`freeTail, this`freeCount, this`free, nodes`next
      ensures Valid() && free == old(free) + [item]
    {
      hide Apart, Chain, Hold;
      Added(active, free, nodes, item);
      InLists(item);
      LinkFree(item);
      freeCount := freeCount + 1;
      ActiveKept();
      WaitingKept();
    }

    method LinkFree(item: CompleterItem)
      requires Chain(freeHead, freeTail, free) && forall i :: 0 <= i < |free| ==> free[i] != item
      requires forall i, j :: 0 <= i < j < |free| ==> free[i] != free[j]
      modifies this`freeHead, this`freeTail, this`free, (if free == [] then {} else {free[|free| - 1]})`next
      ensures Chain(freeHead, freeTail, free) && free == old(free) + [item]
    {
      if freeTail != null {
        freeTail.next := item;
      } else {
        freeHead := item;
      }
      freeTail := item;
      free := free + [item];
    }

    /** The owner's callback: it may add completions, `budget` at most, and ask for a flush. */
    method Callback(budget: nat) returns (left: nat)
      requires Valid() && flushing
      modifies this`freeHead, this`freeTail, this`freeCount, this`free, this`nodes, this`immediate
      modifies this`activeHead, this`activeTail, this`active, this`added, this`scheduled, nodes
      ensures Valid() && flushing && fresh(nodes - old(nodes)) && old(nodes) <= nodes
      ensures old(added) <= added && left + |added| <= budget + |old(added)|
    {
      hide Apart, Chain, Hold;
      left := budget;
      while left > 0
        invariant Valid() && flushing && fresh(nodes - old(nodes)) && old(nodes) <= nodes
        invariant old(added) <= added && left + |added| <= budget + |old(added)|
      {
        var more: bool, c: Completion, allowImmediate: bool, canAllocate: bool := *, *, *, *;
        if !more {
          break;
        }
        var ok := AddItem(true, c, allowImmediate, canAllocate);
        left := left - 1;
      }
    }

    /**
     * InternalFlush: everything that waits is delivered, in the order in which it was added and with the contents it
     * was added with; so is what the callbacks add meanwhile, `budget` completions at most.
     */
    method InternalFlush(budget: nat)
      requires Valid() && !flushing && active != []
      modifies this, nodes
      ensures Valid() && !flushing && fresh(nodes - old(nodes))
      ensures old(added) <= added && |added| <= |old(added)| + budget && delivered == added && active == []
    {
      hide Apart, Chain, Hold;
      flushing := true;
      var left: nat := budget;
      while true
        invariant Valid() && flushing && active != [] && fresh(nodes - old(nodes)) && old(nodes) <= nodes
        invariant old(added) <= added && left + |added| <= budget + |old(added)|
        decreases left + |active|
      {
        var c := TakeFirst();
        left := Callback(left);
        if activeHead == null {
          break;
        }
        Waiting();
      }
      Waiting();
      flushing := false;
    }

    lemma Waiting()
      requires Valid()
      ensures activeHead == null <==> active == []
      ensures delivered <= added && |delivered| + |active| == |added|
    {
      hide Apart, Hold;
    }

    /** Flush: nothing to do if nothing waits, or if a flush is under way and this is one of its callbacks. */
    method Flush(budget: nat)
      requires Valid()
      modifies this, nodes
      ensures Valid() && flushing == old(flushing) && fresh(nodes - old(nodes)) && old(added) <= added
      ensures flushing ==> added == old(added) && delivered == old(delivered)
      ensures !flushing ==> delivered == added
    {
      hide Apart, Chain, Hold;
      Waiting();
      if activeHead != null && !flushing {
        InternalFlush(budget);
      }
    }
  }
}
