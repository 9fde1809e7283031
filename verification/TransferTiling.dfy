/** What the TRBs of a TD have to do with the bytes it moves. */
module TransferTiling {
  import opened Basics
  import opened Trb
  import opened TransferSpec

  /** The bytes that the first k TRBs move. */
  function BytesBefore(ts: seq<Body>, k: int): nat
    requires 0 <= k <= |ts|
  {
    if k == 0 then 0 else BytesBefore(ts, k - 1) + ts[k - 1].bytes
  }

  lemma {:induction false} BytesBeforeShift(head: Body, rest: seq<Body>, k: int)
    requires 0 <= k <= |rest|
    ensures BytesBefore([head] + rest, k + 1) == head.bytes + BytesBefore(rest, k)
    decreases k
  {
    if k > 0 { BytesBeforeShift(head, rest, k - 1); }
  }

  /** The number of packets that carry n bytes. */
  function Packets(n: nat, maxPacket: nat): nat
    requires maxPacket > 0
  {
    (n + maxPacket - 1) / maxPacket
  }

  function Min(a: nat, b: nat): nat { if a < b then a else b }

  /**
   * TRB t moves bytes from buffer offset `at` on: it lies within one segment, does not cross a 64 KiB boundary, and is
   * as long as these and the TD allow; and it announces the packets that follow it in the transaction.
   */
  predicate Tiles(r: Request, t: Body, at: nat, end: nat)
    requires r.maxPacket > 0
  {
    && 0 < t.bytes <= end - at
    && r.segment(at).Some?
    && var s := r.segment(at).value;
       && (t.a, t.b) == (s.addr % 0x1_0000_0000, s.addr / 0x1_0000_0000 % 0x1_0000_0000)
       && t.bytes <= s.length
       && s.addr % BOUNDARY + t.bytes <= BOUNDARY
       && (t.bytes == end - at || t.bytes == s.length || s.addr % BOUNDARY + t.bytes == BOUNDARY)
       && t.tdSize == Min(31, Packets(r.following + (end - at - t.bytes), r.maxPacket))
  }

  /** The data TRBs of a TD move its bytes one after the other, without gap or overlap. */
  lemma {:induction false} DataTrbsTile(r: Request, i: nat, at: nat, left: nat, k: int)
    requires r.Valid() && r.NoEmptySegments() && r.immediate.None? && !r.IsNoopOrStatus()
    requires left > 0 && Available(r, at, left)
    ensures var ts := DataTrbs(r, i, at, left);
            && BytesBefore(ts, |ts|) == left
            && (0 <= k < |ts| ==> BytesBefore(ts, k) < left && Tiles(r, ts[k], at + BytesBefore(ts, k), at + left))
    decreases left
  {
    hide Tiles, DataTrb, PieceLength, DataTrbs, Available;
    DataTrbsUnroll(r, i, at, left);
    var n := PieceLength(r, at, left).value;
    FirstTiles(r, i, at, left);
    if n < left {
      var rest := DataTrbs(r, i + 1, at + n, left - n);
      DataTrbsTile(r, i + 1, at + n, left - n, k - 1);
      BytesBeforeShift(DataTrb(r, i, at, left, n), rest, |rest|);
      if 0 < k <= |rest| { BytesBeforeShift(DataTrb(r, i, at, left, n), rest, k - 1); }
    }
  }

  lemma DataTrbsUnroll(r: Request, i: nat, at: nat, left: nat)
    requires r.Valid() && r.NoEmptySegments() && r.immediate.None? && left > 0 && Available(r, at, left)
    ensures PieceLength(r, at, left).Some?
    ensures var n := PieceLength(r, at, left).value;
            && 0 < n <= left
            && if n == left then DataTrbs(r, i, at, left) == [DataTrb(r, i, at, left, n)]
               else
                 && Available(r, at + n, left - n)
                 && DataTrbs(r, i, at, left) == [DataTrb(r, i, at, left, n)] + DataTrbs(r, i + 1, at + n, left - n)
  {
  }

  lemma FirstTiles(r: Request, i: nat, at: nat, left: nat)
    requires r.Valid() && r.NoEmptySegments() && r.immediate.None? && !r.IsNoopOrStatus()
    requires left > 0 && PieceLength(r, at, left).Some?
    ensures var n := PieceLength(r, at, left).value;
            Tiles(r, DataTrb(r, i, at, left, n), at, at + left) && DataTrb(r, i, at, left, n).bytes == n
  {
  }

  /** Where TRB k starts is how far the TRBs in front of it have moved. */
  lemma {:induction false} StartsBehind(r: Request, i: nat, at: nat, left: nat, k: nat)
    requires r.Valid() && r.NoEmptySegments() && r.immediate.None? && !r.IsNoopOrStatus()
    requires at == Start(r, i) && at + left == r.offset + r.bytes && left > 0 && Available(r, at, left)
    requires k <= |DataTrbs(r, i, at, left)|
    ensures Start(r, i + k) == at + BytesBefore(DataTrbs(r, i, at, left), k)
    decreases k
  {
    hide DataTrbs, DataTrb, Available, Tiles, PieceLength, Request.NoEmptySegments, Request.IsNoopOrStatus;
    if k > 0 {
      DataTrbsUnroll(r, i, at, left);
      FirstTiles(r, i, at, left);
      var n := PieceLength(r, at, left).value;
      var head := DataTrb(r, i, at, left, n);
      if n == left {
        assert DataTrbs(r, i, at, left) == [head] + [];
        BytesBeforeShift(head, [], 0);
      } else {
        BytesBeforeShift(head, DataTrbs(r, i + 1, at + n, left - n), k - 1);
        StartsBehind(r, i + 1, at + n, left - n, k - 1);
      }
    }
  }

  /** A TD is cut wherever the TRBs in front end behind whole bursts, but not at its end; an isochronous one nowhere. */
  lemma CutsAtBursts(r: Request, k: nat)
    requires r.Valid() && r.NoEmptySegments() && r.immediate.None? && !r.IsNoopOrStatus()
    requires r.bytes > 0 && Available(r, r.offset, r.bytes) && k <= |DataTrbs(r, 0, r.offset, r.bytes)|
    ensures var ts := DataTrbs(r, 0, r.offset, r.bytes);
            IsCut(r, k) <==>
            !r.isIsoch && 0 < k < |ts| && (r.offset + BytesBefore(ts, k)) % r.BurstBytes() == 0
  {
    hide DataTrbs, Available, Start, Request.NoEmptySegments, Request.IsNoopOrStatus, BytesBefore, Request.BurstBytes,
      Tiles;
    assert Start(r, 0) == r.offset by { NoCutYet(r); }
    StartsBehind(r, 0, r.offset, r.bytes, k);
    DataTrbsTile(r, 0, r.offset, r.bytes, k);
  }

  /**
   * A TD that starts at a whole number of bursts is cut into fragments that hold whole bursts, but for
   * the last one.
   */
  lemma FragmentsHoldWholeBursts(r: Request, j: nat, k: nat)
    requires r.Valid() && r.NoEmptySegments() && r.immediate.None? && !r.IsNoopOrStatus()
    requires r.bytes > 0 && Available(r, r.offset, r.bytes) && j < k <= |DataTrbs(r, 0, r.offset, r.bytes)|
    requires if j == 0 then r.offset % r.BurstBytes() == 0 else IsCut(r, j)
    requires IsCut(r, k)
    ensures var ts := DataTrbs(r, 0, r.offset, r.bytes);
            (BytesBefore(ts, k) - BytesBefore(ts, j)) % r.BurstBytes() == 0
  {
    hide DataTrbs, Available, Start, Request.NoEmptySegments, Request.IsNoopOrStatus, BytesBefore, Request.BurstBytes;
    assert Start(r, 0) == r.offset by { NoCutYet(r); }
    StartsBehind(r, 0, r.offset, r.bytes, j);
    StartsBehind(r, 0, r.offset, r.bytes, k);
    DifferenceOfMultiples(Start(r, j), Start(r, k), r.BurstBytes());
  }

  /**
   * Every data TRB but that of an immediate TD is chained to the next, and the last one of a final TD is evaluated
   * with it.
   */
  lemma {:induction false} DataTrbsChain(r: Request, i: nat, at: nat, left: nat, k: int)
    requires r.Valid() && r.NoEmptySegments() && Available(r, at, left) && 0 <= k < |DataTrbs(r, i, at, left)|
    ensures var c := DataTrbs(r, i, at, left)[k].control;
            && c.chain == r.immediate.None?
            && (c.bit1 <==> k == |DataTrbs(r, i, at, left)| - 1 && r.immediate.None? && r.finalTD && i + k > 0)
    decreases left
  {
    var ts, n := DataTrbs(r, i, at, left), PieceLength(r, at, left).value;
    if n < left {
      var rest := DataTrbs(r, i + 1, at + n, left - n);
      assert ts == [DataTrb(r, i, at, left, n)] + rest && |rest| > 0;
      if k > 0 { DataTrbsChain(r, i + 1, at + n, left - n, k - 1); }
    }
  }
}
