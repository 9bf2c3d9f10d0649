/**
 * The parser of the Linux `/proc/net/dev` counter table inside
 * `EthernetMonitor.readNetworkStats` (server.mjs): two header lines, then one line
 * per interface, `name: rx_bytes rx_packets ... tx_bytes ...`, giving a map from the
 * interface name to its received and transmitted byte counters.
 */
module NetDev {
  import opened Wrappers
  import opened JsStrings

  /** The cumulative byte counters of one interface. */
  datatype Counters = Counters(rxBytes: nat, txBytes: nat)

  /** The `stats` object: interface name to its counters. */
  type Stats = map<string, Counters>

  /** The outcome of reading `/proc/net/dev` as UTF-8 text. */
  datatype FileRead = FileData(data: string) | FileError(err: string)

  /** The message a failed read rejects with, before the error itself. */
  const ReadErrorPrefix: string := "Error reading /proc/net/dev: "

  /** Index of the field holding the received bytes, and of the one holding the transmitted bytes. */
  const RxBytesField: nat := 0
  const TxBytesField: nat := 8

  /** The regular expression `/:(.+)/` matches at `i`: a colon followed by a character `.` matches. */
  predicate ColonMatchAt(t: string, i: nat) {
    i + 1 < |t| && t[i] == ':' && !IsLineTerminator(t[i + 1])
  }

  /** The leftmost index at or after `from` where `/:(.+)/` matches, if any. */
  function FirstColonMatch(t: string, from: nat): (r: Option<nat>)
    decreases |t| - from
    ensures r.Some? ==> from <= r.value && ColonMatchAt(t, r.value)
  {
    if from + 1 >= |t| then None
    else if ColonMatchAt(t, from) then Some(from)
    else FirstColonMatch(t, from + 1)
  }

  /** `FirstColonMatch` finds the leftmost match, and reports none only when there is none. */
  lemma {:induction false} FirstColonMatchSpec(t: string, from: nat)
    decreases |t| - from
    ensures var r := FirstColonMatch(t, from);
      && (r.Some? ==> forall j: nat :: from <= j < r.value ==> !ColonMatchAt(t, j))
      && (r.None? ==> forall j: nat :: from <= j ==> !ColonMatchAt(t, j))
  {
    if from + 1 < |t| && !ColonMatchAt(t, from) {
      FirstColonMatchSpec(t, from + 1);
    }
  }

  /** Where the greedy group `(.+)` started at `from` stops: the next line terminator, or the end. */
  function CaptureEnd(t: string, from: nat): (e: nat)
    requires from <= |t|
    decreases |t| - from
    ensures from <= e <= |t|
    ensures e < |t| ==> IsLineTerminator(t[e])
  {
    if from == |t| || IsLineTerminator(t[from]) then from else CaptureEnd(t, from + 1)
  }

  /** The captured group holds no line terminator. */
  lemma {:induction false} CaptureEndSpec(t: string, from: nat)
    requires from <= |t|
    decreases |t| - from
    ensures forall j :: from <= j < CaptureEnd(t, from) ==> !IsLineTerminator(t[j])
  {
    if from < |t| && !IsLineTerminator(t[from]) {
      CaptureEndSpec(t, from + 1);
    }
  }

  /** The first two elements of `line.trim().split(/:(.+)/)`. */
  datatype LineSplit = LineSplit(interfaceName: string, statsData: string)

  /**
   * `line.trim().split(/:(.+)/)` destructured into `[interfaceName, statsData]`; `None`
   * when the expression does not match and `statsData` is `undefined`.
   */
  function SplitAtColon(line: string): Option<LineSplit> {
    var t := Trim(line);
    match FirstColonMatch(t, 0)
    case None => None
    case Some(i) => Some(LineSplit(t[..i], t[i + 1..CaptureEnd(t, i + 1)]))
  }

  /** `statsData.trim().split(/\s+/)` */
  function Fields(statsData: string): seq<string> {
    SplitWs(Trim(statsData))
  }

  /**
   * A line the parser handles: `/:(.+)/` matches it (otherwise `statsData.trim()` throws),
   * and the fields after the colon include field 0 and field 8, both decimal numerals.
   */
  predicate WellFormedLine(line: string) {
    match SplitAtColon(line)
    case None => false
    case Some(p) =>
      var f := Fields(p.statsData);
      |f| > TxBytesField && IsDigits(f[RxBytesField]) && IsDigits(f[TxBytesField])
  }

  predicate AllWellFormed(lines: seq<string>) {
    forall i :: 0 <= i < |lines| ==> WellFormedLine(lines[i])
  }

  /** One `stats` entry: its key and its value. */
  datatype Entry = Entry(name: string, counters: Counters)

  /** The entry one data line contributes. */
  function ParseLine(line: string): Entry
    requires WellFormedLine(line)
  {
    var p := SplitAtColon(line).value;
    var f := Fields(p.statsData);
    Entry(Trim(p.interfaceName), Counters(Decimal(f[RxBytesField]), Decimal(f[TxBytesField])))
  }

  /** `data.trim().split('\n').slice(2)`: the lines after the two header lines. */
  function DataLines(data: string): seq<string> {
    var lines := Split(Trim(data), '\n');
    if |lines| < 2 then [] else lines[2..]
  }

  predicate WellFormedTable(data: string) {
    AllWellFormed(DataLines(data))
  }

  /** The entries of `lines`, one per line, in order. */
  function Entries(lines: seq<string>): seq<Entry>
    requires AllWellFormed(lines)
  {
    if |lines| == 0 then []
    else Entries(lines[..|lines| - 1]) + [ParseLine(lines[|lines| - 1])]
  }

  /** Entry `i` is the entry of line `i`. */
  lemma {:induction false} EntriesAt(lines: seq<string>, i: nat)
    requires AllWellFormed(lines)
    requires i < |lines|
    ensures |Entries(lines)| == |lines| && Entries(lines)[i] == ParseLine(lines[i])
  {
    var init := lines[..|lines| - 1];
    EntriesLength(init);
    if i < |lines| - 1 {
      EntriesAt(init, i);
    }
  }

  lemma {:induction false} EntriesLength(lines: seq<string>)
    requires AllWellFormed(lines)
    ensures |Entries(lines)| == |lines|
  {
    if |lines| > 0 {
      EntriesLength(lines[..|lines| - 1]);
    }
  }

  /** The `stats` object after the `forEach` over the entries: each sets its key in turn. */
  function Assemble(entries: seq<Entry>): Stats {
    if |entries| == 0 then map[]
    else
      var e := entries[|entries| - 1];
      Assemble(entries[..|entries| - 1])[e.name := e.counters]
  }

  /** The `stats` object `readNetworkStats` resolves with for the text `data`. */
  function ParseTable(data: string): Stats
    requires WellFormedTable(data)
  {
    Assemble(Entries(DataLines(data)))
  }

  /** What `readNetworkStats` settles with: the parsed table, or the rejection message. */
  function ReadOutcome(file: FileRead): Result<Stats, string>
    requires file.FileData? ==> WellFormedTable(file.data)
  {
    match file
    case FileError(err) => Failure(ReadErrorPrefix + err)
    case FileData(data) => Success(ParseTable(data))
  }

  /** The keys of the assembled map are exactly the names of the entries. */
  lemma {:induction false} AssembleKeys(entries: seq<Entry>, name: string)
    ensures name in Assemble(entries) <==> exists i :: 0 <= i < |entries| && entries[i].name == name
  {
    if |entries| > 0 {
      var init := entries[..|entries| - 1];
      AssembleKeys(init, name);
      if name in Assemble(init) {
        var i :| 0 <= i < |init| && init[i].name == name;
        assert entries[i] == init[i];
      }
      if i :| 0 <= i < |entries| - 1 && entries[i].name == name {
        assert init[i] == entries[i];
      }
    }
  }

  /** A later entry with the same name overwrites an earlier one: the last one wins. */
  lemma {:induction false} AssembleLastWins(entries: seq<Entry>, j: nat)
    requires j < |entries|
    requires forall k :: j < k < |entries| ==> entries[k].name != entries[j].name
    ensures entries[j].name in Assemble(entries)
    ensures Assemble(entries)[entries[j].name] == entries[j].counters
  {
    if j < |entries| - 1 {
      var init := entries[..|entries| - 1];
      assert init[j] == entries[j];
      AssembleLastWins(init, j);
    }
  }

  /**
   * How `line.trim().split(/:(.+)/)` cuts a line: it fails exactly when no colon of the
   * trimmed line is followed by a character `.` matches; otherwise the name is everything
   * before the leftmost such colon and the data runs from after it to the next line
   * terminator or the end.
   */
  lemma SplitAtColonSpec(line: string)
    ensures SplitAtColon(line).None? <==> forall j: nat :: !ColonMatchAt(Trim(line), j)
    ensures SplitAtColon(line).Some? ==>
      var t, p := Trim(line), SplitAtColon(line).value;
      var n, m := |p.interfaceName|, |p.statsData|;
      && ColonMatchAt(t, n)
      && (forall j: nat :: j < n ==> !ColonMatchAt(t, j))
      && n + 1 + m <= |t| && t[..n] == p.interfaceName && t[n + 1..n + 1 + m] == p.statsData
      && m > 0 && NoLineTerminator(p.statsData)
      && (n + 1 + m == |t| || IsLineTerminator(t[n + 1 + m]))
  {
    var t := Trim(line);
    FirstColonMatchSpec(t, 0);
    if FirstColonMatch(t, 0).Some? {
      CaptureEndSpec(t, FirstColonMatch(t, 0).value + 1);
    }
  }

  /** The key the parser files a table under, for the text `data`. */
  lemma ParseTableKeys(data: string, name: string)
    requires WellFormedTable(data)
    ensures name in ParseTable(data) <==>
      exists i :: 0 <= i < |DataLines(data)| && ParseLine(DataLines(data)[i]).name == name
  {
    var lines := DataLines(data);
    var es := Entries(lines);
    EntriesLength(lines);
    AssembleKeys(es, name);
    if i :| 0 <= i < |es| && es[i].name == name {
      EntriesAt(lines, i);
    }
    if i :| 0 <= i < |lines| && ParseLine(lines[i]).name == name {
      EntriesAt(lines, i);
    }
  }

  /** The value the parser files under a name is the counters of the last data line with that name. */
  lemma ParseTableLastWins(data: string, j: nat)
    requires WellFormedTable(data)
    requires j < |DataLines(data)|
    requires forall k :: j < k < |DataLines(data)| ==>
      ParseLine(DataLines(data)[k]).name != ParseLine(DataLines(data)[j]).name
    ensures ParseLine(DataLines(data)[j]).name in ParseTable(data)
    ensures ParseTable(data)[ParseLine(DataLines(data)[j]).name] == ParseLine(DataLines(data)[j]).counters
  {
    var lines := DataLines(data);
    var es := Entries(lines);
    EntriesAt(lines, j);
    forall k | j < k < |es| ensures es[k].name != es[j].name {
      EntriesAt(lines, k);
    }
    AssembleLastWins(es, j);
  }

  /**
   * An interface line in the layout the Linux kernel prints: the name right-aligned after
   * blank padding, a colon, then the counters, each right-aligned in its column, so that a
   * run of one or more blanks comes after the colon and between each two counters.
   */
  datatype Row = Row(pad: string, name: string, lead: string, counters: seq<nat>, gaps: seq<string>)

  predicate ValidRow(row: Row) {
    && Blank(row.pad)
    && |row.name| > 0 && NoSpace(row.name) && ':' !in row.name
    && |row.lead| > 0 && Blank(row.lead)
    && |row.counters| > TxBytesField && |row.gaps| + 1 == |row.counters|
    && forall i :: 0 <= i < |row.gaps| ==> |row.gaps[i]| > 0 && Blank(row.gaps[i])
  }

  function Numerals(ns: seq<nat>): (r: seq<string>)
    ensures |r| == |ns|
    ensures forall i :: 0 <= i < |ns| ==> r[i] == ShowNat(ns[i])
  {
    seq(|ns|, i requires 0 <= i < |ns| => ShowNat(ns[i]))
  }

  /** The counters of a row with their gaps: the text after the blanks that follow the colon. */
  function RowBody(row: Row): string
    requires ValidRow(row)
  {
    Interleave(Numerals(row.counters), row.gaps)
  }

  function RenderRow(row: Row): string
    requires ValidRow(row)
  {
    row.pad + row.name + ":" + row.lead + RowBody(row)
  }

  function RenderRows(rows: seq<Row>): (r: seq<string>)
    requires forall i :: 0 <= i < |rows| ==> ValidRow(rows[i])
    ensures |r| == |rows|
    ensures forall i :: 0 <= i < |rows| ==> r[i] == RenderRow(rows[i])
  {
    seq(|rows|, i requires 0 <= i < |rows| && ValidRow(rows[i]) => RenderRow(rows[i]))
  }

  /** The whole table: two header lines, then the interface lines, each ended by a newline. */
  function RenderTable(header1: string, header2: string, rows: seq<Row>): string
    requires forall i :: 0 <= i < |rows| ==> ValidRow(rows[i])
  {
    Join([header1, header2] + RenderRows(rows), '\n') + "\n"
  }

  /** The counters' text is one line of numerals and blanks whose words are the numerals. */
  lemma RowBodyShape(row: Row)
    requires ValidRow(row)
    ensures var body := RowBody(row);
      && |body| > 0 && !IsSpace(body[0]) && !IsSpace(body[|body| - 1])
      && NoLineTerminator(body)
      && SplitWs(body) == Numerals(row.counters)
  {
    var nums := Numerals(row.counters);
    forall i | 0 <= i < |nums| ensures |nums[i]| > 0 && NoSpace(nums[i]) && NoLineTerminator(nums[i]) {
      assert IsDigits(nums[i]);
    }
    assert IsDigits(nums[0]) && IsDigits(nums[|nums| - 1]);
    InterleaveFirst(nums, row.gaps);
    InterleaveLast(nums, row.gaps);
    InterleaveNoLineTerminator(nums, row.gaps);
    SplitWsInterleave(nums, row.gaps);
  }

  /** The rendered line is a single line; `trim` removes exactly the padding before the name. */
  lemma RenderRowShape(row: Row)
    requires ValidRow(row)
    ensures var line := RenderRow(row);
      && NoLineTerminator(line) && '\n' !in line
      && |line| > 0 && !IsSpace(line[|line| - 1])
      && Trim(line) == row.name + ":" + row.lead + RowBody(row)
  {
    var body := RowBody(row);
    RowBodyShape(row);
    var t := row.name + ":" + row.lead + body;
    var line := RenderRow(row);
    assert line == row.pad + t;
    forall i | 0 <= i < |line| ensures !IsLineTerminator(line[i]) {
      if i < |row.pad| {
        assert line[i] == row.pad[i];
      } else if i < |row.pad| + |row.name| {
        assert line[i] == row.name[i - |row.pad|];
      } else if i > |row.pad| + |row.name| {
        if i <= |row.pad| + |row.name| + |row.lead| {
          assert line[i] == row.lead[i - |row.pad| - |row.name| - 1];
        } else {
          assert line[i] == body[i - |row.pad| - |row.name| - 1 - |row.lead|];
        }
      }
    }
    assert t[0] == row.name[0];
    TrimStartPadded(row.pad, t);
    assert t[|t| - 1] == body[|body| - 1];
    assert line[|line| - 1] == body[|body| - 1];
  }

  /** The rendered line splits at the colon after the name. */
  lemma RenderedRowSplit(row: Row)
    requires ValidRow(row)
    ensures SplitAtColon(RenderRow(row)) == Some(LineSplit(row.name, row.lead + RowBody(row)))
  {
    var body := RowBody(row);
    var t := row.name + ":" + row.lead + body;
    var n := |row.name|;
    RenderRowShape(row);
    RowBodyShape(row);
    assert Trim(RenderRow(row)) == t;
    assert t[n + 1] == row.lead[0];
    assert ColonMatchAt(t, n);
    forall k: nat | k < n ensures !ColonMatchAt(t, k) {
      assert t[k] == row.name[k];
    }
    FirstColonMatchSpec(t, 0);
    assert FirstColonMatch(t, 0) == Some(n);
    forall i | 0 <= i < |t| ensures !IsLineTerminator(t[i]) {
      if i < n {
        assert t[i] == row.name[i];
      } else if i > n {
        if i <= n + |row.lead| {
          assert t[i] == row.lead[i - n - 1];
        } else {
          assert t[i] == body[i - n - 1 - |row.lead|];
        }
      }
    }
    assert CaptureEnd(t, n + 1) == |t|;
    assert t[..n] == row.name;
    assert t[n + 1..CaptureEnd(t, n + 1)] == row.lead + body;
    assert SplitAtColon(RenderRow(row)) == Some(LineSplit(t[..n], t[n + 1..CaptureEnd(t, n + 1)]));
  }

  /** The fields after the colon of a rendered line are the numerals of its counters. */
  lemma RenderedRowFields(row: Row)
    requires ValidRow(row)
    ensures Fields(row.lead + RowBody(row)) == Numerals(row.counters)
  {
    var body := RowBody(row);
    RowBodyShape(row);
    TrimStartPadded(row.lead, body);
    TrimTrimmed(body);
  }

  /** Parsing a rendered interface line gives its name, field 0 and field 8. */
  lemma ParseRenderedRow(row: Row)
    requires ValidRow(row)
    ensures WellFormedLine(RenderRow(row))
    ensures ParseLine(RenderRow(row)) ==
      Entry(row.name, Counters(row.counters[RxBytesField], row.counters[TxBytesField]))
  {
    var nums := Numerals(row.counters);
    RenderedRowSplit(row);
    RenderedRowFields(row);
    assert IsDigits(nums[RxBytesField]) && IsDigits(nums[TxBytesField]);
    DecimalShowNat(row.counters[RxBytesField]);
    DecimalShowNat(row.counters[TxBytesField]);
    TrimTrimmed(row.name);
  }

  /** The data lines of a rendered table are its interface lines. */
  lemma RenderedDataLines(header1: string, header2: string, rows: seq<Row>)
    requires |header1| > 0 && !IsSpace(header1[0]) && '\n' !in header1
    requires |header2| > 0 && !IsSpace(header2[|header2| - 1]) && '\n' !in header2
    requires forall i :: 0 <= i < |rows| ==> ValidRow(rows[i])
    ensures DataLines(RenderTable(header1, header2, rows)) == RenderRows(rows)
  {
    var rendered := RenderRows(rows);
    var pieces := [header1, header2] + rendered;
    forall i | 0 <= i < |pieces| ensures '\n' !in pieces[i] {
      if i >= 2 {
        RenderRowShape(rows[i - 2]);
      }
    }
    var j := Join(pieces, '\n');
    var text := RenderTable(header1, header2, rows);
    assert text == j + "\n";
    assert j[0] == header1[0];
    var last := pieces[|pieces| - 1];
    if |rows| > 0 {
      RenderRowShape(rows[|rows| - 1]);
      assert last == RenderRow(rows[|rows| - 1]);
    }
    JoinLast(pieces, '\n');
    assert TrimStart(text) == text;
    assert text[..|text| - 1] == j;
    assert TrimEnd(text) == TrimEnd(j) == j;
    SplitJoin(pieces, '\n');
    assert pieces[2..] == rendered;
  }

  /** The entries the parser collects from a rendered table are the rows' names, fields 0 and 8. */
  lemma RenderedEntries(header1: string, header2: string, rows: seq<Row>)
    requires |header1| > 0 && !IsSpace(header1[0]) && '\n' !in header1
    requires |header2| > 0 && !IsSpace(header2[|header2| - 1]) && '\n' !in header2
    requires forall i :: 0 <= i < |rows| ==> ValidRow(rows[i])
    ensures WellFormedTable(RenderTable(header1, header2, rows))
    ensures var es := Entries(DataLines(RenderTable(header1, header2, rows)));
      && |es| == |rows|
      && forall i :: 0 <= i < |rows| ==>
           es[i] == Entry(rows[i].name, Counters(rows[i].counters[RxBytesField], rows[i].counters[TxBytesField]))
  {
    var rendered := RenderRows(rows);
    RenderedDataLines(header1, header2, rows);
    forall i | 0 <= i < |rows|
      ensures WellFormedLine(rendered[i])
      ensures ParseLine(rendered[i]) == Entry(rows[i].name, Counters(rows[i].counters[RxBytesField], rows[i].counters[TxBytesField]))
    {
      ParseRenderedRow(rows[i]);
    }
    EntriesLength(rendered);
    forall i | 0 <= i < |rows|
      ensures Entries(rendered)[i] == Entry(rows[i].name, Counters(rows[i].counters[RxBytesField], rows[i].counters[TxBytesField]))
    {
      EntriesAt(rendered, i);
    }
  }

  /**
   * Round trip of the whole table: the parser skips the two header lines and maps every
   * rendered interface name to field 0 and field 8 of its last line.
   */
  lemma ParseRenderedTable(header1: string, header2: string, rows: seq<Row>)
    requires |header1| > 0 && !IsSpace(header1[0]) && '\n' !in header1
    requires |header2| > 0 && !IsSpace(header2[|header2| - 1]) && '\n' !in header2
    requires forall i :: 0 <= i < |rows| ==> ValidRow(rows[i])
    ensures WellFormedTable(RenderTable(header1, header2, rows))
    ensures forall name :: name in ParseTable(RenderTable(header1, header2, rows)) <==>
      exists i :: 0 <= i < |rows| && rows[i].name == name
    ensures forall j :: 0 <= j < |rows| && (forall k :: j < k < |rows| ==> rows[k].name != rows[j].name) ==>
      && rows[j].name in ParseTable(RenderTable(header1, header2, rows))
      && ParseTable(RenderTable(header1, header2, rows))[rows[j].name]
         == Counters(rows[j].counters[RxBytesField], rows[j].counters[TxBytesField])
  {
    var text := RenderTable(header1, header2, rows);
    RenderedEntries(header1, header2, rows);
    var es := Entries(DataLines(text));
    assert ParseTable(text) == Assemble(es);
    forall name ensures name in Assemble(es) <==> exists i :: 0 <= i < |rows| && rows[i].name == name {
      AssembleKeys(es, name);
      if i :| 0 <= i < |es| && es[i].name == name {
        assert rows[i].name == name;
      }
    }
    forall j | 0 <= j < |rows| && (forall k :: j < k < |rows| ==> rows[k].name != rows[j].name)
      ensures rows[j].name in Assemble(es)
      ensures Assemble(es)[rows[j].name] == Counters(rows[j].counters[RxBytesField], rows[j].counters[TxBytesField])
    {
      AssembleLastWins(es, j);
    }
  }

  /** The `forEach` over the data lines, building `stats` one entry at a time. */
  method ParseDataLines(lines: seq<string>) returns (stats: Stats)
    requires AllWellFormed(lines)
    ensures stats == Assemble(Entries(lines))
  {
    stats := map[];
    var i := 0;
    while i < |lines|
      invariant 0 <= i <= |lines|
      invariant stats == Assemble(Entries(lines[..i]))
    {
      var entry := ParseLine(lines[i]);
      stats := stats[entry.name := entry.counters];
      EntriesSnoc(lines, i);
      AssembleSnoc(Entries(lines[..i]), entry);
      i := i + 1;
    }
    assert lines[..i] == lines;
  }

  /** One more line adds its entry at the end. */
  lemma EntriesSnoc(lines: seq<string>, i: nat)
    requires AllWellFormed(lines) && i < |lines|
    ensures AllWellFormed(lines[..i]) && AllWellFormed(lines[..i + 1])
    ensures Entries(lines[..i + 1]) == Entries(lines[..i]) + [ParseLine(lines[i])]
  {
    assert lines[..i + 1][..i] == lines[..i];
  }

  /** Setting one more entry is a map update. */
  lemma AssembleSnoc(entries: seq<Entry>, e: Entry)
    ensures Assemble(entries + [e]) == Assemble(entries)[e.name := e.counters]
  {
    assert (entries + [e])[..|entries|] == entries;
  }

  /**
   * `readNetworkStats`: rejects with the read error, or trims and splits the text, skips
   * the two header lines and resolves with the entries of the remaining lines.
   */
  method ReadNetworkStats(file: FileRead) returns (r: Result<Stats, string>)
    requires file.FileData? ==> WellFormedTable(file.data)
    ensures r == ReadOutcome(file)
  {
    match file
    case FileError(err) =>
      r := Failure(ReadErrorPrefix + err);
    case FileData(data) =>
      var lines := Split(Trim(data), '\n');
      lines := if |lines| < 2 then [] else lines[2..];
      assert lines == DataLines(data);
      var stats := ParseDataLines(lines);
      r := Success(stats);
  }
}
