/** How a request is split into TDs. */
module AsyncSplit {
  import opened Basics
  import opened AsyncQueue
  import opened AsyncHistory

  const MAX_FRAGMENT_SIZE: nat := 0x2_0000
  const MAX_IMMEDIATE: nat := 8
  const ABSOLUTE_EDTLA_LIMIT: nat := 0x80_0000

  datatype CreateResult = Created | NotPermitted | Unsupported | BadArgument

  /** The bytes of one burst of the endpoint, in 32 bits. */
  function BurstPayload(maxPacketSize: nat, maxBurst: nat, multiple: nat): nat {
    (maxPacketSize * (1 + maxBurst) * (1 + multiple)) % 0x1_0000_0000
  }

  function MaxTDBytes(payload: nat): nat {
    if 0 < payload < MAX_FRAGMENT_SIZE then MAX_FRAGMENT_SIZE - MAX_FRAGMENT_SIZE % payload else MAX_FRAGMENT_SIZE
  }

  /** A TD is as long as whole bursts within 128 KB allow, and that is always more than 64 KB. */
  lemma TDsHoldWholeBursts(payload: nat)
    ensures 0x1_0000 < MaxTDBytes(payload) <= MAX_FRAGMENT_SIZE
    ensures 0 < payload < MAX_FRAGMENT_SIZE ==>
      MaxTDBytes(payload) == MAX_FRAGMENT_SIZE / payload * payload && MAX_FRAGMENT_SIZE < MaxTDBytes(payload) + payload
  {
    if 0 < payload < MAX_FRAGMENT_SIZE {
      var q, rest := MAX_FRAGMENT_SIZE / payload, MAX_FRAGMENT_SIZE % payload;
      assert MAX_FRAGMENT_SIZE == q * payload + rest && q >= 1;
      assert rest < 0x1_0000 by {
        if payload > 0x1_0000 { assert q == 1; }
      }
    }
  }

  /**
   * TDs of `max` bytes hold as many bursts of n bytes as 128 KB allow. If a burst is longer, or its length does not
   * fit into 32 bits, they have 128 KB or what the lower bits of it say.
   */
  ghost predicate BurstsWithin(max: nat, n: int) {
    && (0 < n < 0x2_0000 ==> max % n == 0 && max <= 0x2_0000 < max + n)
    && (n == 0 || 0x2_0000 <= n < 0x1_0000_0000 ==> max == 0x2_0000)
    && (n >= 0x1_0000_0000 ==> BurstsWithin(max, n % 0x1_0000_0000))
  }

  lemma PayloadWithin(maxPacketSize: nat, maxBurst: nat, multiple: nat)
    ensures BurstsWithin(MaxTDBytes(BurstPayload(maxPacketSize, maxBurst, multiple)),
                         maxPacketSize * (1 + maxBurst) * (1 + multiple))
  {
    var n := maxPacketSize * (1 + maxBurst) * (1 + multiple);
    var payload := BurstPayload(maxPacketSize, maxBurst, multiple);
    WithinPayload(payload);
    if n < 0x1_0000_0000 { assert payload == n; }
  }

  lemma WithinPayload(payload: nat)
    requires payload < 0x1_0000_0000
    ensures BurstsWithin(MaxTDBytes(payload), payload)
  {
    TDsHoldWholeBursts(payload);
    if 0 < payload < MAX_FRAGMENT_SIZE {
      DivisionIsUnique(MaxTDBytes(payload), payload, MAX_FRAGMENT_SIZE / payload, 0);
    }
  }

  /** No other length does. */
  lemma WithinIsMax(max: nat, n: nat)
    requires BurstsWithin(max, n) && 0 < n < MAX_FRAGMENT_SIZE
    ensures max == MaxTDBytes(n)
  {
    DivisionIsUnique(MAX_FRAGMENT_SIZE, n, max / n, MAX_FRAGMENT_SIZE - max);
  }

  /** The TDs of a transfer of `total` bytes from byte `at` on, `max` bytes each. */
  function Pieces(command: Command, total: nat, max: nat, at: nat): seq<Entry>
    requires (at < total && max > 0) || at == total == 0
    decreases total - at
  {
    if at + max >= total then [Entry(command, at, total - at, total, true)]
    else [Entry(command, at, max, total, false)] + Pieces(command, total, max, at + max)
  }

  /** Submitting the piece at `at` leaves the pieces behind it to be submitted. */
  lemma NextPiece(l: Log, all: seq<Entry>, e: Entry, max: nat)
    requires (e.preceding < e.total && max > 0) || e.preceding == e.total == 0
    requires e.bytes == if max < e.total - e.preceding then max else e.total - e.preceding
    requires e.final == (e.preceding + e.bytes >= e.total)
      && l.sub + Pieces(e.command, e.total, max, e.preceding) == all
    ensures var rest := if e.final then [] else Pieces(e.command, e.total, max, e.preceding + e.bytes);
      Submit(l, e).sub + rest == all && |Pieces(e.command, e.total, max, e.preceding)| == 1 + |rest|
  {
    var rest := if e.final then [] else Pieces(e.command, e.total, max, e.preceding + e.bytes);
    assert Pieces(e.command, e.total, max, e.preceding) == [e] + rest;
    assert l.sub + ([e] + rest) == (l.sub + [e]) + rest;
  }

  /** They follow one another from `at` to the end of the request; all but the last are full; only the last is final. */
  lemma {:induction false} PiecesTile(command: Command, total: nat, max: nat, at: nat)
    requires (at < total && max > 0) || at == total == 0
    ensures var ps := Pieces(command, total, max, at);
      && |ps| > 0 && ps[0].preceding == at && ps[|ps| - 1].preceding + ps[|ps| - 1].bytes == total
      && (forall k :: 0 <= k < |ps| ==>
        ps[k].command == command && ps[k].total == total && (ps[k].final <==> k == |ps| - 1))
      && (forall k :: 0 < k < |ps| ==> ps[k].preceding == ps[k - 1].preceding + ps[k - 1].bytes)
      && (forall k :: 0 <= k < |ps| - 1 ==> ps[k].bytes == max)
      && ps[|ps| - 1].bytes <= max && (total > 0 ==> ps[|ps| - 1].bytes > 0)
    decreases total - at
  {
    if at + max < total {
      PiecesTile(command, total, max, at + max);
      var ps, rest := Pieces(command, total, max, at), Pieces(command, total, max, at + max);
      assert forall k :: 1 <= k < |ps| ==> ps[k] == rest[k - 1];
    }
  }

  /** A TD is marked as one of several if and only if there are several. */
  lemma SeveralPieces(command: Command, total: nat, max: nat, k: int)
    requires (total > 0 && max > 0) || total == 0
    ensures var ps := Pieces(command, total, max, 0);
      && (|ps| > 1 <==> total > max)
      && (0 <= k < |ps| ==> (ps[k].IsPart() <==> |ps| > 1))
  {
    hide Pieces;
    PiecesTile(command, total, max, 0);
    OneOrMore(command, total, max);
    var ps := Pieces(command, total, max, 0);
    if |ps| > 1 { SecondPiece(ps, max); }
  }

  lemma OneOrMore(command: Command, total: nat, max: nat)
    requires (total > 0 && max > 0) || total == 0
    ensures |Pieces(command, total, max, 0)| > 1 <==> total > max
  {
    if total > max { PiecesTile(command, total, max, max); }
  }

  lemma SecondPiece(ps: seq<Entry>, max: nat)
    requires |ps| > 1 && forall k :: 0 <= k < |ps| - 1 ==> ps[k].bytes == max
    requires forall k :: 0 < k < |ps| ==> ps[k].preceding == ps[k - 1].preceding + ps[k - 1].bytes
    ensures ps[|ps| - 1].preceding >= max
  {
    assert ps[|ps| - 1].preceding == ps[|ps| - 2].preceding + ps[|ps| - 2].bytes;
  }

  /** If a full TD holds whole bursts, or one TD is enough, every TD starts behind whole bursts. */
  lemma {:induction false} PiecesStartAtBursts(command: Command, total: nat, max: nat, at: nat, payload: nat)
    requires (at < total && max > 0) || at == total == 0
    requires payload > 0 && at % payload == 0 && (max % payload == 0 || at + max >= total)
    ensures forall k :: 0 <= k < |Pieces(command, total, max, at)| ==>
      Pieces(command, total, max, at)[k].preceding % payload == 0
    decreases total - at
  {
    if at + max < total {
      SumOfMultiples(at, max, payload);
      PiecesStartAtBursts(command, total, max, at + max, payload);
      var ps, rest := Pieces(command, total, max, at), Pieces(command, total, max, at + max);
      assert forall k :: 1 <= k < |ps| ==> ps[k] == rest[k - 1];
    }
  }
}
