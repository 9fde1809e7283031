/** Transfer descriptors of an asynchronous endpoint and the intrusive lists that hold them. */
module AsyncQueue {
  import opened Basics

  /** An IOUSBCommand: its request length, whether it has a completion action, and its scratch word 9. */
  class Command {
    const request: nat
    const hasAction: bool
    var scratch: int

    constructor (request: nat, hasAction: bool)
      ensures this.request == request && this.hasAction == hasAction && scratch == 0
    {
      this.request, this.hasAction, scratch := request, hasAction, 0;
    }
  }

  /** What a descriptor says of its share of a transfer. */
  datatype Facts = Facts(command: Command?, bytes: nat, following: nat, preceding: nat, multi: bool, final: bool,
                         interrupt: bool, shortfall: int, absolute: bool)

  /** What _createTransfer takes from a descriptor, and where the descriptor's last TRB is. */
  datatype Share = Share(bytes: nat, following: nat, preceding: nat, multiTD: bool, final: bool, last: nat)

  class AsyncTD {
    var command: Command?
    var bytesThisTD: nat
    var bytesFollowingThisTD: nat
    var bytesPreceedingThisTD: nat
    var interruptThisTD: bool
    var multiTDTransaction: bool
    var finalTDInTransaction: bool
    var shortfall: int
    var absoluteShortfall: bool
    var lastTrbIndex: nat
    var next: AsyncTD?

    constructor ()
      ensures command == null && !interruptThisTD && !finalTDInTransaction && !absoluteShortfall
    {
      command, next := null, null;
      bytesThisTD, bytesFollowingThisTD, bytesPreceedingThisTD, shortfall, lastTrbIndex := 0, 0, 0, 0, 0;
      interruptThisTD, multiTDTransaction, finalTDInTransaction, absoluteShortfall := false, false, false, false;
    }

    function Says(): Facts
      reads this`command, this`bytesThisTD, this`bytesFollowingThisTD, this`bytesPreceedingThisTD,
            this`multiTDTransaction, this`finalTDInTransaction, this`interruptThisTD, this`shortfall,
            this`absoluteShortfall
    {
      Facts(command, bytesThisTD, bytesFollowingThisTD, bytesPreceedingThisTD, multiTDTransaction, finalTDInTransaction,
            interruptThisTD, shortfall, absoluteShortfall)
    }

    function OnRing(): Share
      reads this`bytesThisTD, this`bytesFollowingThisTD, this`bytesPreceedingThisTD, this`multiTDTransaction,
            this`finalTDInTransaction, this`lastTrbIndex
    {
      Share(bytesThisTD, bytesFollowingThisTD, bytesPreceedingThisTD, multiTDTransaction, finalTDInTransaction,
            lastTrbIndex)
    }

    /** Everything but the link is zeroed before a descriptor is used again; the link is stale anyway. */
    method Reinit()
      modifies this
      ensures command == null && !interruptThisTD && !finalTDInTransaction && !absoluteShortfall
        && bytesFollowingThisTD == 0
    {
      command, next := null, null;
      bytesThisTD, bytesFollowingThisTD, bytesPreceedingThisTD, shortfall, lastTrbIndex := 0, 0, 0, 0, 0;
      interruptThisTD, multiTDTransaction, finalTDInTransaction, absoluteShortfall := false, false, false, false;
    }
  }

  /**
   * A head, tail and count triple of an endpoint. The `next` of the tail is whatever an earlier list
   * left there: the end of the list is where the tail is.
   */
  class TDQueue {
    var head: AsyncTD?
    var tail: AsyncTD?
    var count: nat
    ghost var s: seq<AsyncTD>

    ghost predicate Valid()
      reads this, s`next
    {
      && count == |s|
      && (if |s| == 0 then head == null && tail == null else head == s[0] && tail == s[|s| - 1])
      && (forall i :: 0 <= i < |s| - 1 ==> s[i].next == s[i + 1])
      && (forall i, j :: 0 <= i < j < |s| ==> s[i] != s[j])
    }

    constructor ()
      ensures Valid() && s == []
    {
      head, tail, count, s := null, null, 0, [];
    }

    /** Nobody has touched the list or the links of its descriptors. */
    twostate predicate Undisturbed()
      reads this, s`next
    {
      unchanged(this) && forall td :: td in s ==> td.next == old(td.next)
    }

    twostate lemma Kept()
      requires old(Valid()) && Undisturbed()
      ensures Valid()
    {
    }

    /** GetTD: unlinks the head. */
    method Get() returns (td: AsyncTD?)
      requires Valid()
      modifies this
      ensures Valid()
      ensures |old(s)| == 0 ==> td == null && s == []
      ensures |old(s)| > 0 ==> td == old(s)[0] && s == old(s)[1..]
    {
      td := head;
      if td == null {
        return;
      }
      if td == tail {
        assert |s| == 1;
        tail := null;
        head := null;
      } else {
        head := td.next;
      }
      count := count - 1;
      s := s[1..];
    }

    /** PutTD: links a descriptor behind the tail. */
    method Put(td: AsyncTD)
      requires Valid() && td !in s
      modifies this, (if |s| == 0 then {} else {s[|s| - 1]})`next
      ensures Valid() && s == old(s) + [td]
    {
      if head != null {
        tail.next := td;
      } else {
        head := td;
      }
      tail := td;
      count := count + 1;
      s := s + [td];
    }

    /** PutTDAtHead: links a descriptor in front of the head. */
    method PutAtHead(td: AsyncTD)
      requires Valid() && td !in s
      modifies this, td`next
      ensures Valid() && s == [td] + old(s)
    {
      if head != null {
        td.next := head;
      } else {
        tail := td;
      }
      head := td;
      count := count + 1;
      s := [td] + s;
    }

    /** The first n descriptors are cut off; `rest` is the one behind them. */
    method Drop(n: nat, rest: AsyncTD)
      requires Valid() && n < |s| && rest == s[n]
      modifies this
      ensures Valid() && s == old(s)[n..]
    {
      head := rest;
      count := count - n;
      s := s[n..];
    }

    /** A chain of n descriptors is hung behind the tail. */
    method Adopt(first: AsyncTD, last: AsyncTD, n: nat, ghost chain: seq<AsyncTD>)
      requires Valid() && |chain| == n > 0 && first == chain[0] && last == chain[n - 1]
      requires forall i :: 0 <= i < n - 1 ==> chain[i].next == chain[i + 1]
      requires NoDuplicates(chain) && forall td :: td in chain ==> td !in s
      modifies this, (if |s| == 0 then {} else {s[|s| - 1]})`next
      ensures Valid() && s == old(s) + chain
    {
      assert forall i, j :: 0 <= i < |s| && 0 <= j < n ==> s[i] != chain[j] by {
        assert forall j :: 0 <= j < n ==> chain[j] in chain;
      }
      if head != null {
        tail.next := first;
      } else {
        head := first;
      }
      tail := last;
      count := count + n;
      s := s + chain;
    }
  }
}
