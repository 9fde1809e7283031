/** The history of an asynchronous endpoint: what was submitted, how much of it moved, what is completed. */
module AsyncHistory {
  import opened Basics
  import opened AsyncQueue

  /** One TD of a command's transfer of `total` bytes. */
  datatype Entry = Entry(command: Command, preceding: nat, bytes: nat, total: nat, final: bool) {
    /** The transfer has other TDs. */
    predicate IsPart() { !final || preceding > 0 }
  }

  /** TD e goes on with the transfer where TD p ends. */
  predicate GoesOn(p: Entry, e: Entry) {
    p.command == e.command && !p.final && p.total == e.total && e.preceding == p.preceding + p.bytes
  }

  /** A command's completion as it is handed to the completer. */
  datatype Report = Report(command: Command, shortfall: int)

  /** What events have told of a TD: nothing, what it has moved, or what the whole transfer has moved so far. */
  datatype Told = Nothing | Relative | Absolute

  /** The number of bytes that a TD has moved, and what the driver has been told of it. */
  datatype Move = Move(bytes: nat, told: Told)

  /**
   * All TDs ever submitted, in order; what each has moved; and how many of them, from the first one on,
   * have passed through Complete.
   */
  datatype Log = Log(sub: seq<Entry>, moved: seq<Move>, completed: nat) {

    /** Entry i continues the transfer of the entry in front of it. */
    predicate Continues(i: int)
      requires 0 <= i < |sub|
    {
      sub[i].preceding > 0
    }

    ghost function Commands(): set<Command> {
      set i | 0 <= i < |sub| :: sub[i].command
    }

    /** The TDs of a transfer follow one another and cover its bytes; `open` admits one that is still being split. */
    ghost predicate Grouped(open: bool) {
      && |moved| == |sub| && completed <= |sub|
      && (forall i :: 0 <= i < |sub| && Continues(i) ==>
            i > 0 && GoesOn(sub[i - 1], sub[i]))
      && (forall i :: 0 <= i < |sub| && !sub[i].final ==>
        (open && i == |sub| - 1) || (i + 1 < |sub| && Continues(i + 1)))
      && (forall i :: 0 <= i < |sub| && sub[i].final ==> sub[i].preceding + sub[i].bytes == sub[i].total)
    }

    /** No command is submitted again while a TD of it is in flight. */
    ghost predicate Distinct() {
      forall i, j :: completed <= i < j < |sub| && !Continues(j) ==> sub[i].command != sub[j].command
    }

    /** No TD moves more bytes than it has, and their number fits into 32 bits. */
    ghost predicate Bounded() {
      |moved| == |sub| && forall i :: 0 <= i < |sub| ==> moved[i].bytes <= sub[i].bytes < TWO_32
    }

    /** The bytes of its transfer that were moved up to and including entry i. */
    function Moved(i: int): nat
      requires 0 <= i < |sub| == |moved|
      decreases i
    {
      moved[i].bytes + if i > 0 && Continues(i) then Moved(i - 1) else 0
    }

    /**
     * The bytes of its transfer that the driver takes entry i and those in front of it to have failed to move.
     * A TD that it has been told nothing of counts in full.
     */
    function Missed(i: int): int
      requires 0 <= i < |sub| == |moved|
      decreases i, 1
    {
      match moved[i].told
      case Nothing => Carried(i) + sub[i].bytes
      case Relative => Carried(i) + sub[i].bytes - moved[i].bytes
      case Absolute => sub[i].preceding + sub[i].bytes - Moved(i)
    }

    /** The same for the entries in front of entry i. */
    function Carried(i: int): int
      requires 0 <= i < |sub| == |moved|
      decreases i, 0
    {
      if i > 0 && Continues(i) then Missed(i - 1) else 0
    }

    /** The first TD of the transfer of entry i. */
    function First(i: int): (f: int)
      requires 0 <= i < |sub|
      ensures 0 <= f <= i
      decreases i
    {
      if i > 0 && Continues(i) then First(i - 1) else i
    }

    /**
     * Every TD of the transfer that has moved bytes up to entry i has been heard of, or an event that
     * counts the whole transfer came after it.
     */
    ghost predicate Heard(i: int)
      requires 0 <= i < |sub| == |moved|
    {
      forall k :: First(i) <= k <= i && moved[k].told == Nothing && moved[k].bytes > 0 ==> AbsoluteBehind(k, i)
    }

    ghost predicate AbsoluteBehind(k: int, i: int)
      requires 0 <= k <= i < |moved|
    {
      exists a :: k < a <= i && moved[a].told == Absolute
    }

    /** Nothing has been heard of entry i, and no event that counts its whole transfer came behind it. */
    ghost predicate Silent(i: int) {
      && 0 <= i < |sub| == |moved| && moved[i].told == Nothing
      && forall a :: i < a < |sub| && First(a) <= i ==> moved[a].told != Absolute
    }

    /** The bytes that were moved and that the driver takes to be missing. */
    function Unreported(i: int): nat
      requires 0 <= i < |sub| == |moved|
      decreases i
    {
      if moved[i].told == Absolute then 0
      else
        var before := if i > 0 && Continues(i) then Unreported(i - 1) else 0;
        if moved[i].told == Nothing then before + moved[i].bytes else before
    }

    /**
     * What the completer is due for entry i: the report of a command with a completion action, if its last TD is
     * this one.
     */
    function ReportOf(i: int): seq<Report>
      requires 0 <= i < |sub| == |moved|
    {
      if sub[i].final && sub[i].command.hasAction then [Report(sub[i].command, Low(Missed(i)))] else []
    }

    /** What the completer is due after n TDs: one report for each finished command, in order of submission. */
    function Reports(n: int): seq<Report>
      requires 0 <= n <= |sub| == |moved|
      decreases n
    {
      if n == 0 then [] else Reports(n - 1) + ReportOf(n - 1)
    }
  }

  // ---------------------------------------------------------------- the descriptors in flight

  /** A descriptor says what was submitted as entry i, and how much of it has not moved. */
  predicate Is(l: Log, i: int, f: Facts) {
    && 0 <= i < |l.sub| == |l.moved|
    && f.command == l.sub[i].command && f.bytes == l.sub[i].bytes && f.preceding == l.sub[i].preceding
    && f.following == l.sub[i].total - l.sub[i].preceding - l.sub[i].bytes
    && f.final == l.sub[i].final && f.interrupt && f.multi == l.sub[i].IsPart()
    && f.absolute == (l.moved[i].told == Absolute)
    && f.shortfall == Low(match l.moved[i].told
                          case Nothing => l.sub[i].bytes
                          case Relative => l.sub[i].bytes - l.moved[i].bytes
                          case Absolute => l.sub[i].preceding + l.sub[i].bytes - l.Moved(i))
  }

  /** No event has told anything of entry i. */
  predicate Unheard(l: Log, i: int, f: Facts) {
    0 <= i < |l.moved| && l.moved[i].told == Nothing && !f.absolute
  }

  /**
   * The log is sound; the descriptors in flight are the last entries submitted, in order, and nothing has
   * been heard of those from `retired` on; every finished command, and no other, has been handed over.
   * `open` admits a transfer that is still being split.
   */
  ghost predicate Books(l: Log, fs: seq<Facts>, handed: seq<Report>, retired: int, open: bool) {
    && l.Grouped(open) && l.Distinct() && l.Bounded()
    && |l.moved| == |l.sub| == l.completed + |fs|
    && (forall k :: 0 <= k < |fs| ==> Is(l, l.completed + k, fs[k]))
    && (forall k :: 0 <= k < |fs| && retired <= k ==> Unheard(l, l.completed + k, fs[k]))
    && handed == l.Reports(l.completed)
  }

  lemma EmptyBooks()
    ensures Books(Log([], [], 0), [], [], 0, false)
  {
  }

  lemma FewerUnheard(l: Log, fs: seq<Facts>, handed: seq<Report>, retired: int, retired': int)
    requires Books(l, fs, handed, retired, false) && retired <= retired'
    ensures Books(l, fs, handed, retired', false)
  {
  }

  /**
   * What Complete leaves in the scratch word of the oldest TD's command is what its TDs so far are taken to have
   * failed to move.
   */
  lemma OldestMissed(l: Log, fs: seq<Facts>, handed: seq<Report>, retired: int)
    requires Books(l, fs, handed, retired, false) && |fs| > 0
    ensures Is(l, l.completed, fs[0])
    ensures Low(l.Missed(l.completed)) ==
            if fs[0].absolute then fs[0].shortfall else Low(Low(l.Carried(l.completed)) + fs[0].shortfall)
  {
    hide *;
    OldestIs(l, fs, handed, retired);
    IsMissed(l, l.completed, fs[0]);
  }

  lemma OldestIs(l: Log, fs: seq<Facts>, handed: seq<Report>, retired: int)
    requires Books(l, fs, handed, retired, false) && |fs| > 0
    ensures Is(l, l.completed, fs[0])
  {
    hide Is, Log.Grouped, Log.Distinct, Log.Bounded, Log.Reports;
    assert Is(l, l.completed + 0, fs[0]);
  }

  lemma IsMissed(l: Log, i: int, f: Facts)
    requires Is(l, i, f)
    ensures Low(l.Missed(i)) == if f.absolute then f.shortfall else Low(Low(l.Carried(i)) + f.shortfall)
  {
    hide Log.Moved, Log.Carried, Low;
    match l.moved[i].told
    case Nothing => LowSum(l.Carried(i), l.sub[i].bytes);
    case Relative => LowSum(l.Carried(i), l.sub[i].bytes - l.moved[i].bytes);
    case Absolute =>
  }

  /** Completing the oldest TD hands its command over if it is the last of its transfer. */
  lemma OldestCompleted(l: Log, fs: seq<Facts>, handed: seq<Report>, retired: int)
    requires Books(l, fs, handed, retired, false) && |fs| > 0 && retired > 0
    ensures Books(l.(completed := l.completed + 1), fs[1..], handed + l.ReportOf(l.completed), retired - 1, false)
  {
    hide Log.Moved, Log.Missed, Log.Reports, Log.ReportOf, Log.Grouped, Log.Distinct, Log.Bounded, Is, Unheard;
    var l' := l.(completed := l.completed + 1);
    ReportsOfPrefix(l, l', l.completed);
    OnlyCompleted(l, l', l.completed);
    LaterReports(l');
    StillSound(l, l');
    forall k | 0 <= k < |fs| - 1 ensures Is(l', l'.completed + k, fs[1..][k]) {
      assert Is(l, l.completed + (k + 1), fs[k + 1]);
      StillIs(l, l', l.completed + (k + 1), fs[k + 1]);
    }
    forall k | 0 <= k < |fs| - 1 && retired - 1 <= k ensures Unheard(l', l'.completed + k, fs[1..][k]) {
      assert Unheard(l, l.completed + (k + 1), fs[k + 1]);
      StillUnheard(l, l', l.completed + (k + 1), fs[k + 1]);
    }
  }

  lemma StillSound(l: Log, l': Log)
    requires l.Grouped(false) && l.Distinct() && l.Bounded() && l.completed < |l.sub|
      && l' == l.(completed := l.completed + 1)
    ensures l'.Grouped(false) && l'.Distinct() && l'.Bounded()
  {
    forall i | 0 <= i < |l.sub| ensures l.Continues(i) == l'.Continues(i) {}
  }

  lemma LaterReports(l: Log)
    requires 0 < l.completed <= |l.sub| == |l.moved|
    ensures l.Reports(l.completed) == l.Reports(l.completed - 1) + l.ReportOf(l.completed - 1)
  {
  }

  lemma StillUnheard(l: Log, l': Log, i: int, f: Facts)
    requires Unheard(l, i, f) && i < |l'.moved| && l.moved[i] == l'.moved[i]
    ensures Unheard(l', i, f)
  {
  }

  /** A descriptor stays what the log says of entry i as long as that much of the log is kept. */
  lemma StillIs(l: Log, l': Log, i: int, f: Facts)
    requires Is(l, i, f) && i < |l'.sub| == |l'.moved|
    requires forall k :: 0 <= k <= i ==> l.sub[k] == l'.sub[k] && l.moved[k] == l'.moved[k]
    ensures Is(l', i, f)
  {
    SumsOfPrefix(l, l', i);
  }

  /**
   * What the next TD's command carries: what the oldest has left, if it goes on with that transfer; nothing
   * otherwise.
   */
  lemma CarriedOn(l: Log, i: int)
    requires l.Grouped(false) && l.Distinct() && l.completed < i < |l.sub| && (i == l.completed + 1 || !l.Continues(i))
    ensures var l' := l.(completed := l.completed + 1);
      if l.Continues(i) then l'.sub[i].command == l.sub[l.completed].command && l'.Carried(i) == l.Missed(l.completed)
      else l'.sub[i].command != l.sub[l.completed].command && l'.Carried(i) == l.Carried(i) == 0
  {
    hide Log.Missed, Log.Moved, Log.Grouped, Log.Distinct;
    NextCommand(l, i);
    CarriedSame(l, l.(completed := l.completed + 1), i);
  }

  lemma NextCommand(l: Log, i: int)
    requires l.Grouped(false) && l.Distinct() && l.completed < i < |l.sub| && (i == l.completed + 1 || !l.Continues(i))
    ensures |l.moved| == |l.sub| && (l.sub[i].command == l.sub[l.completed].command <==> l.Continues(i))
  {
  }

  lemma CarriedSame(l: Log, l': Log, i: int)
    requires l' == l.(completed := l'.completed) && 0 <= i < |l.sub| == |l.moved|
    ensures l.Carried(i) == l'.Carried(i) && l.Continues(i) == l'.Continues(i)
  {
    hide Log.Missed, Log.Moved;
    if i > 0 { OnlyCompleted(l, l', i - 1); }
  }

  /** What an event makes of the log: the TD is heard of. */
  function Hear(l: Log, i: int, told: Told): Log
    requires 0 <= i < |l.moved|
  {
    l.(moved := l.moved[i := l.moved[i].(told := told)])
  }

  /** An event tells of the TD in front of the unheard ones: of what it has moved, or of what its transfer has. */
  lemma Recorded(l: Log, fs: seq<Facts>, handed: seq<Report>, k: int, f: Facts)
    requires Books(l, fs, handed, k + 1, false) && 0 <= k < |fs| && Unheard(l, l.completed + k, fs[k])
    requires f == fs[k].(shortfall := f.shortfall, absolute := f.absolute)
    requires |l.moved| == |l.sub| == l.completed + |fs|
    requires f.shortfall == Low(if f.absolute then f.preceding + f.bytes - l.Moved(l.completed + k)
                                else f.bytes - l.moved[l.completed + k].bytes)
    ensures var l' := Hear(l, l.completed + k, if f.absolute then Absolute else Relative);
            && Books(l', fs[k := f], handed, k + 1, false)
            && forall i :: 0 <= i < l.completed + k ==> l'.Missed(i) == l.Missed(i)
  {
    hide *;
    var i := l.completed + k;
    var l' := Hear(l, i, if f.absolute then Absolute else Relative);
    RecordedSame(l, fs, handed, k, f, i);
    RecordedEach(l, fs, handed, k, f);
    MakesBooks(l', fs[k := f], handed, k + 1);
  }

  lemma MakesBooks(l: Log, fs: seq<Facts>, handed: seq<Report>, retired: int)
    requires l.Grouped(false) && l.Distinct() && l.Bounded() && |l.moved| == |l.sub| == l.completed + |fs|
    requires forall k :: 0 <= k < |fs| ==> Is(l, l.completed + k, fs[k])
    requires forall k :: 0 <= k < |fs| && retired <= k ==> Unheard(l, l.completed + k, fs[k])
    requires handed == l.Reports(l.completed)
    ensures Books(l, fs, handed, retired, false)
  {
    hide Log.Grouped, Log.Distinct, Log.Bounded, Is, Unheard, Log.Reports;
  }

  lemma RecordedSame(l: Log, fs: seq<Facts>, handed: seq<Report>, k: int, f: Facts, i: int)
    requires Books(l, fs, handed, k + 1, false) && 0 <= k < |fs| && i == l.completed + k
    requires |l.moved| == |l.sub| == l.completed + |fs|
    ensures var l' := Hear(l, i, if f.absolute then Absolute else Relative);
      && l'.Grouped(false) && l'.Distinct() && l'.Bounded() && l'.completed == l.completed >= 0
      && |l'.moved| == |l'.sub| == |l.sub| && handed == l'.Reports(l'.completed)
      && forall j :: 0 <= j < i ==> l'.Missed(j) == l.Missed(j)
  {
    hide Log.Moved, Log.Missed, Log.Reports, Log.Grouped, Log.Distinct, Log.Bounded, Log.Continues, Log.Carried,
      Log.ReportOf, Is, Unheard, Low;
    var l' := Hear(l, i, if f.absolute then Absolute else Relative);
    RecordedSound(l, i, l'.moved[i]);
    ReportsOfPrefix(l, l', l.completed);
    forall j | 0 <= j < i ensures l'.Missed(j) == l.Missed(j) { SumsOfPrefix(l, l', j); }
  }

  lemma RecordedEach(l: Log, fs: seq<Facts>, handed: seq<Report>, k: int, f: Facts)
    requires Books(l, fs, handed, k + 1, false) && 0 <= k < |fs| && |l.moved| == |l.sub| == l.completed + |fs|
    requires f == fs[k].(shortfall := f.shortfall, absolute := f.absolute) && l.completed >= 0
    requires f.shortfall == Low(if f.absolute then f.preceding + f.bytes - l.Moved(l.completed + k)
                                else f.bytes - l.moved[l.completed + k].bytes)
    ensures var l' := Hear(l, l.completed + k, if f.absolute then Absolute else Relative);
      forall j :: 0 <= j < |fs| ==>
        Is(l', l.completed + j, fs[k := f][j]) && (k < j ==> Unheard(l', l.completed + j, fs[j]))
  {
    hide *;
    var l' := Hear(l, l.completed + k, if f.absolute then Absolute else Relative);
    forall j | 0 <= j < |fs|
      ensures Is(l', l.completed + j, fs[k := f][j]) && (k < j ==> Unheard(l', l.completed + j, fs[j]))
    {
      BooksSay(l, fs, handed, k, j);
      BooksSay(l, fs, handed, k, k);
      OneRecorded(l, l.completed + k, l.completed + j, fs[j], fs[k], f);
    }
  }

  lemma BooksSay(l: Log, fs: seq<Facts>, handed: seq<Report>, k: int, j: int)
    requires Books(l, fs, handed, k + 1, false) && 0 <= j < |fs|
    ensures |l.moved| == |l.sub| == l.completed + |fs|
    ensures Is(l, l.completed + j, fs[j]) && (k < j ==> Unheard(l, l.completed + j, fs[j]))
  {
    hide Log.Grouped, Log.Distinct, Log.Bounded, Is, Unheard, Log.Reports;
  }

  lemma OneRecorded(l: Log, i: int, j: int, g: Facts, was: Facts, f: Facts)
    requires 0 <= i < |l.sub| == |l.moved| && 0 <= j < |l.sub| && Is(l, j, g) && Is(l, i, was)
    requires i < j ==> Unheard(l, j, g)
    requires f == was.(shortfall := f.shortfall, absolute := f.absolute)
    requires f.shortfall == Low(if f.absolute then f.preceding + f.bytes - l.Moved(i) else f.bytes - l.moved[i].bytes)
    ensures var l' := Hear(l, i, if f.absolute then Absolute else Relative);
      Is(l', j, if i == j then f else g) && (i < j ==> Unheard(l', j, g))
  {
    hide Log.Moved, Log.Missed, Is, Unheard, Low;
    if i == j {
      RecordedIs(l, i, was, f);
    } else {
      RestMoved(l, Hear(l, i, if f.absolute then Absolute else Relative), i, j, g, i < j);
    }
  }

  /**
   * The controller moves bytes of a TD that nothing has been heard of, and that no count of its whole transfer came
   * behind; it may be given up or completed by then. Nobody notices.
   */
  lemma MovedSilently(l: Log, l': Log, fs: seq<Facts>, handed: seq<Report>, retired: int, i: int, n: nat)
    requires Books(l, fs, handed, retired, false) && l.Silent(i) && n <= l.sub[i].bytes
    requires l' == l.(moved := l.moved[i := Move(n, Nothing)])
    ensures Books(l', fs, handed, retired, false)
    ensures forall j :: 0 <= j < |l.sub| ==> l'.Missed(j) == l.Missed(j)
  {
    hide *;
    BooksCount(l, fs, handed, retired);
    SilentSound(l, fs, handed, retired, i, Move(n, Nothing));
    forall j | 0 <= j < |l.sub|
      ensures l'.Missed(j) == l.Missed(j) && (l.moved[j].told == Absolute ==> l'.Moved(j) == l.Moved(j)) {
      MissedSame(l, l', i, j);
    }
    ReportsSame(l, l', l.completed);
    forall k | 0 <= k < |fs|
      ensures Is(l', l.completed + k, fs[k]) && (retired <= k ==> Unheard(l', l.completed + k, fs[k])) {
      BooksSay(l, fs, handed, retired - 1, k);
      SilentIs(l, l', i, l.completed + k, fs[k]);
    }
    MakesBooks(l', fs, handed, retired);
  }

  lemma SilentSound(l: Log, fs: seq<Facts>, handed: seq<Report>, retired: int, i: int, m: Move)
    requires Books(l, fs, handed, retired, false) && l.Silent(i) && m.bytes <= l.sub[i].bytes
    ensures var l' := l.(moved := l.moved[i := m]);
      l'.Grouped(false) && l'.Distinct() && l'.Bounded() && l.completed >= 0
    ensures l.moved[i].told == Nothing && handed == l.Reports(l.completed)
    ensures 0 <= i < |l.sub| == |l.moved| && l.completed <= |l.sub|
  {
    hide Log.Grouped, Log.Distinct, Log.Bounded, Is, Unheard, Log.Reports, Log.Continues, Log.First;
    RecordedSound(l, i, m);
  }

  lemma SilentIs(l: Log, l': Log, i: int, j: int, f: Facts)
    requires 0 <= i < |l.moved| && l' == l.(moved := l'.moved) && |l'.moved| == |l.moved| && Is(l, j, f)
    requires l.moved[i].told == l'.moved[i].told == Nothing
    requires forall k :: 0 <= k < |l.moved| && k != i ==> l'.moved[k] == l.moved[k]
    requires l.moved[j].told == Absolute ==> l'.Moved(j) == l.Moved(j)
    ensures Is(l', j, f) && (Unheard(l, j, f) ==> Unheard(l', j, f))
  {
    hide Log.Moved, Low;
  }

  /** Bytes of entry i do not count for a transfer that is behind it or in front of it. */
  lemma {:induction false} MovedElsewhere(l: Log, l': Log, i: int, j: int)
    requires 0 <= i < |l.sub| == |l.moved| && 0 <= j < |l.sub| && l'.sub == l.sub && |l'.moved| == |l.moved|
    requires forall k :: 0 <= k < |l.moved| && k != i ==> l'.moved[k] == l.moved[k]
    requires j < i || i < l.First(j)
    ensures l'.Moved(j) == l.Moved(j)
    decreases j
  {
    assert l.Continues(j) == l'.Continues(j);
    if j > 0 && l.Continues(j) { MovedElsewhere(l, l', i, j - 1); }
  }

  /** What the driver takes to be missing does not depend on them either. */
  lemma {:induction false} MissedSame(l: Log, l': Log, i: int, j: int)
    requires l.Silent(i) && 0 <= j < |l.sub| && l'.sub == l.sub && |l'.moved| == |l.moved|
    requires l'.moved[i].told == Nothing && forall k :: 0 <= k < |l.moved| && k != i ==> l'.moved[k] == l.moved[k]
    ensures l'.Missed(j) == l.Missed(j) && (l.moved[j].told == Absolute ==> l'.Moved(j) == l.Moved(j))
    decreases j
  {
    hide Log.Moved, Log.First;
    assert l.Continues(j) == l'.Continues(j);
    if l.moved[j].told == Absolute { MovedElsewhere(l, l', i, j); }
    if j > 0 && l.Continues(j) { MissedSame(l, l', i, j - 1); }
  }

  lemma {:induction false} ReportsSame(l: Log, l': Log, n: int)
    requires 0 <= n <= |l.sub| == |l.moved| && l'.sub == l.sub && |l'.moved| == |l.moved|
    requires forall j :: 0 <= j < n ==> l'.Missed(j) == l.Missed(j)
    ensures l'.Reports(n) == l.Reports(n)
    decreases n
  {
    hide Log.Missed;
    if n > 0 { ReportsSame(l, l', n - 1); }
  }

  lemma RestMoved(l: Log, l': Log, i: int, j: int, f: Facts, unheard: bool)
    requires 0 <= i < |l.sub| == |l.moved| && 0 <= j < |l.sub| && i != j && l'.sub == l.sub && |l'.moved| == |l.moved|
    requires forall k :: 0 <= k < |l.moved| && k != i ==> l'.moved[k] == l.moved[k]
    requires Is(l, j, f) && (unheard ==> Unheard(l, j, f)) && (i < j ==> unheard)
    ensures Is(l', j, f) && (unheard ==> Unheard(l', j, f))
  {
    hide Log.Moved, Log.Missed, Is, Unheard;
    if unheard { StillUnheard(l, l', j, f); }
    if j < i {
      StillIs(l, l', j, f);
    } else {
      UnheardIs(l, l', j, f);
    }
  }

  lemma BooksCount(l: Log, fs: seq<Facts>, handed: seq<Report>, retired: int)
    requires Books(l, fs, handed, retired, false)
    ensures |l.moved| == |l.sub| == l.completed + |fs|
  {
  }

  lemma RecordedSound(l: Log, i: int, m: Move)
    requires l.Grouped(false) && l.Distinct() && l.Bounded() && 0 <= i < |l.sub| == |l.moved|
    requires m.bytes == l.moved[i].bytes || m.bytes <= l.sub[i].bytes
    ensures var l' := l.(moved := l.moved[i := m]); l'.Grouped(false) && l'.Distinct() && l'.Bounded()
  {
    hide Log.Grouped, Log.Distinct, Log.Continues;
    var l' := l.(moved := l.moved[i := m]);
    StillGrouped(l, l');
    StillDistinct(l, l');
  }

  lemma StillGrouped(l: Log, l': Log)
    requires l.Grouped(false) && l'.sub == l.sub && |l'.moved| == |l.moved| && l'.completed == l.completed
    ensures l'.Grouped(false)
  {
    forall j | 0 <= j < |l.sub| ensures l.Continues(j) == l'.Continues(j) {}
  }

  lemma StillDistinct(l: Log, l': Log)
    requires l.Distinct() && l'.sub == l.sub && l'.completed == l.completed
    ensures l'.Distinct()
  {
    forall j | 0 <= j < |l.sub| ensures l.Continues(j) == l'.Continues(j) {}
  }

  lemma UnheardIs(l: Log, l': Log, i: int, f: Facts)
    requires Is(l, i, f) && Unheard(l, i, f)
    requires l'.sub == l.sub && |l'.moved| == |l.moved| && l'.moved[i] == l.moved[i]
    ensures Is(l', i, f) && Unheard(l', i, f)
  {
  }

  lemma RecordedIs(l: Log, i: int, was: Facts, f: Facts)
    requires Is(l, i, was) && f == was.(shortfall := f.shortfall, absolute := f.absolute)
    requires f.shortfall == Low(if f.absolute then f.preceding + f.bytes - l.Moved(i) else f.bytes - l.moved[i].bytes)
    ensures Is(Hear(l, i, if f.absolute then Absolute else Relative), i, f)
  {
    hide Low;
    var l' := Hear(l, i, if f.absolute then Absolute else Relative);
    MovedAsBefore(l, l', i);
  }

  /** What was moved does not depend on what was told. */
  lemma {:induction false} MovedAsBefore(l: Log, l': Log, i: int)
    requires 0 <= i < |l.sub| == |l.moved| == |l'.moved| && l'.sub == l.sub
    requires forall k :: 0 <= k <= i ==> l'.moved[k].bytes == l.moved[k].bytes
    ensures l'.Moved(i) == l.Moved(i)
    decreases i
  {
    assert l.Continues(i) == l'.Continues(i);
    if i > 0 && l.Continues(i) { MovedAsBefore(l, l', i - 1); }
  }

  /** A transfer begins with an entry of a command that has none in flight, or goes on where its last entry ends. */
  predicate CanFollow(l: Log, e: Entry) {
    && (e.final ==> e.preceding + e.bytes == e.total)
    && if e.preceding == 0 then forall i :: 0 <= l.completed <= i < |l.sub| ==> l.sub[i].command != e.command
       else |l.sub| > 0 && GoesOn(l.sub[|l.sub| - 1], e)
  }

  function Submit(l: Log, e: Entry): Log {
    Log(l.sub + [e], l.moved + [Move(0, Nothing)], l.completed)
  }

  lemma FollowsInFull(l: Log, e: Entry)
    requires CanFollow(l, e.(bytes := 0, final := false)) && (e.final ==> e.preceding + e.bytes == e.total)
    ensures CanFollow(l, e)
  {
  }

  lemma NextFollows(l: Log, e: Entry)
    requires !e.final && e.preceding + e.bytes > 0
    ensures CanFollow(Submit(l, e), e.(preceding := e.preceding + e.bytes, bytes := 0))
  {
  }

  lemma Submitted(l: Log, fs: seq<Facts>, handed: seq<Report>, retired: int, e: Entry, f: Facts)
    requires Books(l, fs, handed, retired, e.preceding > 0) && CanFollow(l, e)
    requires f == Facts(e.command, e.bytes, f.following, e.preceding, e.IsPart(), e.final, true, e.bytes, false)
      && e.bytes < TWO_32
    requires f.following == e.total - e.preceding - e.bytes
    ensures Books(Submit(l, e), fs + [f], handed, retired, !e.final)
  {
    hide Log.Moved, Log.Missed, Log.Reports, Log.Grouped, Log.Distinct, Log.Bounded, Is, Unheard, CanFollow;
    var l' := Submit(l, e);
    SubmittedSound(l, e);
    ReportsOfPrefix(l, l', l.completed);
    forall j | 0 <= j < |fs|
      ensures Is(l', l.completed + j, fs[j]) && (retired <= j ==> Unheard(l', l.completed + j, fs[j])) {
      StillIs(l, l', l.completed + j, fs[j]);
      if retired <= j { StillUnheard(l, l', l.completed + j, fs[j]); }
    }
    SubmittedIs(l, e, f);
  }

  lemma SubmittedSound(l: Log, e: Entry)
    requires l.Grouped(e.preceding > 0) && l.Distinct() && l.Bounded() && 0 <= l.completed && CanFollow(l, e)
      && e.bytes < TWO_32
    ensures Submit(l, e).Grouped(!e.final) && Submit(l, e).Distinct() && Submit(l, e).Bounded()
  {
    hide Log.Grouped, Log.Distinct, CanFollow;
    SubmittedGrouped(l, e);
    SubmittedDistinct(l, e);
  }

  lemma SubmittedGrouped(l: Log, e: Entry)
    requires l.Grouped(e.preceding > 0) && CanFollow(l, e)
    ensures Submit(l, e).Grouped(!e.final)
  {
    hide GoesOn;
    var l', n := Submit(l, e), |l.sub|;
    forall i | 0 <= i <= n && l'.Continues(i) ensures i > 0 && GoesOn(l'.sub[i - 1], l'.sub[i]) {
      SubmittedContinues(l, e, i);
    }
    forall i | 0 <= i <= n && !l'.sub[i].final ensures (!e.final && i == n) || (i < n && l'.Continues(i + 1)) {
      if i < n { SubmittedGoesOn(l, e, i); }
    }
  }

  lemma SubmittedContinues(l: Log, e: Entry, i: int)
    requires l.Grouped(e.preceding > 0) && CanFollow(l, e) && 0 <= i <= |l.sub| && Submit(l, e).Continues(i)
    ensures i > 0 && GoesOn(Submit(l, e).sub[i - 1], Submit(l, e).sub[i])
  {
    hide GoesOn;
    if i < |l.sub| { assert l.Continues(i); }
  }

  lemma SubmittedGoesOn(l: Log, e: Entry, i: int)
    requires l.Grouped(e.preceding > 0) && CanFollow(l, e) && 0 <= i < |l.sub| && !l.sub[i].final
    ensures Submit(l, e).Continues(i + 1)
  {
    if i + 1 < |l.sub| { assert l.Continues(i + 1); }
  }

  lemma SubmittedDistinct(l: Log, e: Entry)
    requires l.Distinct() && 0 <= l.completed && CanFollow(l, e)
    ensures Submit(l, e).Distinct()
  {
    var l' := Submit(l, e);
    forall i, j | l'.completed <= i < j < |l'.sub| && !l'.Continues(j) ensures l'.sub[i].command != l'.sub[j].command {
      if j < |l.sub| { assert !l.Continues(j); }
    }
  }

  lemma SubmittedIs(l: Log, e: Entry, f: Facts)
    requires |l.sub| == |l.moved|
    requires f == Facts(e.command, e.bytes, f.following, e.preceding, e.IsPart(), e.final, true, e.bytes, false)
      && e.bytes < TWO_32
    requires f.following == e.total - e.preceding - e.bytes
    ensures Is(Submit(l, e), |l.sub|, f) && Unheard(Submit(l, e), |l.sub|, f)
  {
  }

  lemma SameCommands(l: Log, l': Log)
    requires l.sub == l'.sub
    ensures l.Commands() == l'.Commands()
  {
  }

  lemma OnlyCompleted(l: Log, l': Log, i: int)
    requires l' == l.(completed := l'.completed) && 0 <= i < |l.sub| == |l.moved|
    ensures l.Moved(i) == l'.Moved(i) && l.Missed(i) == l'.Missed(i) && l.ReportOf(i) == l'.ReportOf(i)
  {
    SumsOfPrefix(l, l', i);
  }

  // ---------------------------------------------------------------- laws of the history

  /**
   * The relative and the absolute way of counting agree but for the bytes that were moved by TDs that
   * nothing was heard of.
   */
  lemma {:induction false} MissedIsRest(l: Log, i: int)
    requires l.Grouped(true) && 0 <= i < |l.sub|
    ensures l.Missed(i) == l.sub[i].preceding + l.sub[i].bytes - l.Moved(i) + l.Unreported(i)
    decreases i
  {
    if l.Continues(i) {
      assert i > 0 && l.sub[i].preceding == l.sub[i - 1].preceding + l.sub[i - 1].bytes;
      MissedIsRest(l, i - 1);
    }
  }

  /**
   * There are no such bytes if and only if every TD that has moved bytes was heard of, or covered by a later
   * absolute count.
   */
  lemma {:induction false} UnreportedIffUnheard(l: Log, i: int)
    requires 0 <= i < |l.sub| == |l.moved|
    ensures l.Unreported(i) == 0 <==> l.Heard(i)
    decreases i
  {
    if l.moved[i].told == Absolute {
      forall k | l.First(i) <= k <= i && l.moved[k].told == Nothing ensures l.AbsoluteBehind(k, i) {}
    } else {
      if l.moved[i].told == Nothing && l.moved[i].bytes > 0 {
        assert !l.AbsoluteBehind(i, i);
      }
      if i > 0 && l.Continues(i) {
        UnreportedIffUnheard(l, i - 1);
        forall k | 0 <= k < i ensures l.AbsoluteBehind(k, i) == l.AbsoluteBehind(k, i - 1) {}
      }
    }
  }

  lemma {:induction false} UnreportedBounded(l: Log, i: int)
    requires l.Grouped(true) && l.Bounded() && 0 <= i < |l.sub|
    ensures l.Unreported(i) <= l.Moved(i) <= l.sub[i].preceding + l.sub[i].bytes
    decreases i
  {
    if l.Continues(i) {
      assert i > 0 && l.sub[i].preceding == l.sub[i - 1].preceding + l.sub[i - 1].bytes;
      UnreportedBounded(l, i - 1);
    }
  }

  /**
   * A command's report says how many of its bytes were not moved if and only if each of its TDs that has
   * moved bytes was heard of, or covered by a later absolute count.
   */
  lemma ReportIsRequestLessMoved(l: Log, i: int)
    requires l.Grouped(true) && l.Bounded() && 0 <= i < |l.sub| && l.sub[i].final && l.sub[i].total < TWO_32
    ensures Low(l.Missed(i)) == l.sub[i].total - l.Moved(i) <==> l.Heard(i)
  {
    hide Log.Missed, Log.Moved, Log.Unreported, Log.Heard;
    MissedIsRest(l, i);
    UnreportedIffUnheard(l, i);
    UnreportedBounded(l, i);
  }

  /**
   * An input: a transfer of two TDs of ten bytes. The event of the first one is lost. If the second one's
   * event counts its own bytes, ten bytes are reported missing though all were moved; if it counts those
   * of the whole transfer, none are.
   */
  lemma LostEvent(c: Command, told: Told)
    requires told != Nothing
    ensures var l := Log([Entry(c, 0, 10, 20, false), Entry(c, 10, 10, 20, true)],
                         [Move(10, Nothing), Move(10, told)], 2);
      && l.Grouped(false) && l.Distinct() && l.Bounded() && l.Moved(1) == 20
      && l.Missed(1) == if told == Absolute then 0 else 10
  {
    var l := Log([Entry(c, 0, 10, 20, false), Entry(c, 10, 10, 20, true)], [Move(10, Nothing), Move(10, told)], 2);
    assert l.Moved(0) == 10 && l.Missed(0) == 10;
  }

  lemma OpenIsWeaker(l: Log)
    requires l.Grouped(false)
    ensures l.Grouped(true)
  {
  }

  /** The TDs of one command that are in flight are contiguous. */
  lemma {:induction false} Contiguous(l: Log, i: int, k: int, j: int)
    requires l.Grouped(true) && l.Distinct() && 0 <= l.completed <= i <= k <= j < |l.sub|
    requires l.sub[i].command == l.sub[j].command
    ensures l.sub[k].command == l.sub[i].command
    decreases j
  {
    if k < j {
      assert l.Continues(j);
      Contiguous(l, i, k, j - 1);
    }
  }

  lemma SameCommand(l: Log, fs: seq<Facts>, handed: seq<Report>, retired: int, i: int)
    requires Books(l, fs, handed, retired, false) && 0 <= l.completed && 0 <= i < |fs|
    ensures l.Grouped(true) && l.Distinct() && l.completed + |fs| == |l.sub|
      && fs[i].command == l.sub[l.completed + i].command
  {
    hide Log.Grouped, Log.Distinct, Log.Reports, Log.Moved;
    OpenIsWeaker(l);
    assert Is(l, l.completed + i, fs[i]);
  }

  lemma UnbrokenFacts(l: Log, fs: seq<Facts>, handed: seq<Report>, retired: int, i: int, k: int, j: int)
    requires Books(l, fs, handed, retired, false) && 0 <= l.completed && 0 <= i <= k <= j < |fs|
      && fs[i].command == fs[j].command
    ensures fs[k].command == fs[i].command
  {
    hide Books, Log.Grouped, Log.Distinct;
    SameCommand(l, fs, handed, retired, i);
    SameCommand(l, fs, handed, retired, k);
    SameCommand(l, fs, handed, retired, j);
    Contiguous(l, l.completed + i, l.completed + k, l.completed + j);
  }

  /** Sums over a prefix do not depend on what comes after it. */
  lemma {:induction false} SumsOfPrefix(l: Log, l': Log, i: int)
    requires 0 <= i < |l.sub| == |l.moved| && i < |l'.sub| == |l'.moved|
    requires forall k :: 0 <= k <= i ==>
      l.sub[k].(final := true) == l'.sub[k].(final := true) && l.moved[k] == l'.moved[k]
    ensures l.Moved(i) == l'.Moved(i) && l.Missed(i) == l'.Missed(i)
    decreases i
  {
    assert l.sub[i].(final := true) == l'.sub[i].(final := true);
    if i > 0 && l.Continues(i) { SumsOfPrefix(l, l', i - 1); }
  }

  lemma {:induction false} ReportsOfPrefix(l: Log, l': Log, n: int)
    requires 0 <= n <= |l.sub| == |l.moved| && n <= |l'.sub| == |l'.moved|
    requires forall k :: 0 <= k < n ==> l.sub[k] == l'.sub[k] && l.moved[k] == l'.moved[k]
    ensures l.Reports(n) == l'.Reports(n)
    decreases n
  {
    if n > 0 {
      ReportsOfPrefix(l, l', n - 1);
      SumsOfPrefix(l, l', n - 1);
    }
  }

  /** Reports are exactly those of the finished commands that have an action: one for each final TD. */
  lemma {:induction false} ReportedOnce(l: Log, n: int, c: Command)
    requires 0 <= n <= |l.sub| == |l.moved|
    ensures Count(l.Reports(n), c) == if c.hasAction then Finals(l, n, c) else 0
    decreases n
  {
    if n > 0 {
      hide Log.Missed, Log.Grouped, Low, Count;
      ReportedOnce(l, n - 1, c);
      CountAppend(l.Reports(n - 1), l.ReportOf(n - 1), c);
    }
  }

  /** Every finished command has its report. */
  lemma {:induction false} ReportedValue(l: Log, n: int, i: int)
    requires 0 <= i < n <= |l.sub| == |l.moved| && l.sub[i].final && l.sub[i].command.hasAction
    ensures Report(l.sub[i].command, Low(l.Missed(i))) in l.Reports(n)
    decreases n
  {
    hide Log.Grouped, Log.Missed, Log.Moved;
    if i < n - 1 { ReportedValue(l, n - 1, i); }
  }

  lemma CountAppend(rs: seq<Report>, more: seq<Report>, c: Command)
    requires |more| <= 1
    ensures Count(rs + more, c) == Count(rs, c) + if |more| == 1 && more[0].command == c then 1 else 0
  {
    if |more| == 1 {
      assert (rs + more)[..|rs|] == rs;
    } else {
      assert rs + more == rs;
    }
  }

  /** How often command c is reported. */
  function Count(rs: seq<Report>, c: Command): nat {
    if |rs| == 0 then 0 else Count(rs[..|rs| - 1], c) + if rs[|rs| - 1].command == c then 1 else 0
  }

  /** How many of its transfers have had their final TD among the first n TDs. */
  function Finals(l: Log, n: int, c: Command): nat
    requires 0 <= n <= |l.sub|
    decreases n
  {
    if n == 0 then 0 else Finals(l, n - 1, c) + if l.sub[n - 1].final && l.sub[n - 1].command == c then 1 else 0
  }
}
