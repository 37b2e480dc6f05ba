/**
 * refresh_data.js: finds the latest timestamp in `all_data.csv`, fetches
 * the missing range from the archive in chunks of at most a year, appends
 * the data lines it gets back, and compacts the file into hourly rows with
 * its own copy of the bucket loop.
 */
module RefreshData {
  import opened Wrappers
  import opened Text
  import opened DateFormat
  import opened HourlyBuckets
  import opened CompactData

  /** Five minutes, the archive's sampling interval. */
  const NEXT_SAMPLE_MS: int := 300_000

  /** The header written to a new `all_data.csv`. */
  const DATA_HEADER: string := "Aeg, Temperatuur"

  // ---------------------------------------------------------------------
  // The bucket loop of `compactData`.

  /** The field `k` of a split, read by `Number`; a missing field is `NaN`. */
  function Component(fields: seq<string>, k: nat, number: string -> Option<int>): Option<int> {
    if k < |fields| then number(fields[k]) else None
  }

  /**
   * The date of a trimmed date field. One with a space is taken apart into
   * `year-month-day hour:min:sec` and built with the local-time
   * constructor from its components (the month 0-based); a missing or
   * non-numeric component makes the date invalid (`None`). One without a
   * space goes to the string parser.
   */
  function DateOf(dateStr: string, number: string -> Option<int>,
                  localTime: (int, int, int, int, int, int) -> int, parseDate: string -> Option<int>): Option<int>
  {
    SplitWith(dateStr, " ");
    if Contains(dateStr, " ") then
      var dt := Split(dateStr, " ");
      BuildDate(Split(dt[0], "-"), Split(dt[1], ":"), number, localTime)
    else parseDate(dateStr)
  }

  /** `new Date(year, month - 1, day, hour, min, sec)` from the split date and time. */
  function BuildDate(ds: seq<string>, ts: seq<string>, number: string -> Option<int>,
                     localTime: (int, int, int, int, int, int) -> int): Option<int>
  {
    var year, month, day := Component(ds, 0, number), Component(ds, 1, number), Component(ds, 2, number);
    var hour, min, sec := Component(ts, 0, number), Component(ts, 1, number), Component(ts, 2, number);
    if year.Some? && month.Some? && day.Some? && hour.Some? && min.Some? && sec.Some? then
      Some(localTime(year.value, month.value - 1, day.value, hour.value, min.value, sec.value))
    else None
  }

  /** How a stored line is read: the date and temperature parsers the loop uses. */
  datatype Parsers = Parsers(number: string -> Option<int>, localTime: (int, int, int, int, int, int) -> int,
                             parseDate: string -> Option<int>, parseTemp: string -> Option<int>)

  /**
   * The reading a line after the header gives, if any: split on `","`;
   * fewer than two fields, an empty trimmed field, an invalid date or a
   * temperature that is not a number skip it.
   */
  function LineReading(line: string, p: Parsers): Option<Reading> {
    var parts := Split(line, ",");
    if |parts| < 2 then None
    else
      var dateStr, tempStr := Trim(parts[0]), Trim(parts[1]);
      if dateStr == "" || tempStr == "" then None
      else
        var date := DateOf(dateStr, p.number, p.localTime, p.parseDate);
        var temp := p.parseTemp(tempStr);
        if date.None? || temp.None? then None else Some(Reading(date.value, temp.value))
  }

  /** `LineReading` with the parsers fixed. */
  function LineReader(p: Parsers): string -> Option<Reading> {
    line => LineReading(line, p)
  }

  /** The readings of the lines after the header, in file order. */
  function Readings(lines: seq<string>, p: Parsers): seq<Reading> {
    ReadingsWith(lines, LineReader(p))
  }

  /** What `compactData` writes and counts, or `None` when the file does not exist. */
  function Compaction(input: Option<seq<string>>, p: Parsers, calendar: int -> DateTime): Option<Report> {
    if input.None? then None else Some(ReportOf(Readings(input.value, p), calendar))
  }

  /**
   * The loop body after the first reading: a strictly later hour mark
   * writes the pending row and restarts from the reading, any other folds
   * it into min, max and last.
   */
  method NextReading(r: Reading, calendar: int -> DateTime, ghost f: Fold,
                     mark0: int, min0: int, max0: int, last0: int, rows0: seq<HourRow>)
    returns (mark: int, minTemp: int, maxTemp: int, lastTemp: int, rows: seq<HourRow>, wrote: bool)
    requires f.pending.Some? && HoldsPending(f, Some(mark0), Some(min0), Some(max0), Some(last0))
    requires rows0 == RowsOf(f.done, calendar)
    ensures HoldsPending(Absorb(f, r), Some(mark), Some(minTemp), Some(maxTemp), Some(lastTemp))
    ensures rows == RowsOf(Absorb(f, r).done, calendar)
    ensures |rows| == |rows0| + if wrote then 1 else 0
  {
    mark, minTemp, maxTemp, lastTemp, rows, wrote := mark0, min0, max0, last0, rows0, false;
    var target := HourMark(r.date);
    if target > mark {
      rows := rows + [HourRow(FormatDate(calendar(mark)), minTemp, maxTemp, lastTemp)];
      RowsOfSnoc(f.done, f.pending.value, calendar);
      wrote := true;
      mark := target;
      minTemp, maxTemp, lastTemp := r.temp, r.temp, r.temp;
    } else {
      minTemp := Min(minTemp, r.temp);
      maxTemp := Max(maxTemp, r.temp);
      lastTemp := r.temp;
    }
  }

  /** The first accepted reading starts a bucket with min = max = last = its temperature. */
  method FirstReading(r: Reading) returns (mark: int, minTemp: int, maxTemp: int, lastTemp: int)
    ensures HoldsPending(FoldAll([r]), Some(mark), Some(minTemp), Some(maxTemp), Some(lastTemp))
    ensures FoldAll([r]).done == []
  {
    assert [r][..0] == [];
    mark := HourMark(r.date);
    minTemp, maxTemp, lastTemp := r.temp, r.temp, r.temp;
  }

  /** The loop variables after the accepted readings `rs`. */
  predicate LoopState(rs: seq<Reading>, calendar: int -> DateTime, mark: Option<int>, minTemp: int, maxTemp: int,
                      lastTemp: int, rows: seq<HourRow>, rowsProcessed: nat, hoursWritten: nat) {
    (mark.None? <==> rs == [])
    && (rs != [] ==> HoldsPending(FoldAll(rs), mark, Some(minTemp), Some(maxTemp), Some(lastTemp)))
    && rows == RowsOf(FoldAll(rs).done, calendar)
    && rowsProcessed == |rs| && hoursWritten == |rows|
  }

  /** What the loop does with an accepted reading. */
  method AcceptReading(r: Reading, calendar: int -> DateTime, ghost rs: seq<Reading>, mark0: Option<int>,
                       min0: int, max0: int, last0: int, rows0: seq<HourRow>, processed0: nat, written0: nat)
    returns (mark: Option<int>, minTemp: int, maxTemp: int, lastTemp: int, rows: seq<HourRow>,
             rowsProcessed: nat, hoursWritten: nat)
    requires LoopState(rs, calendar, mark0, min0, max0, last0, rows0, processed0, written0)
    ensures LoopState(rs + [r], calendar, mark, minTemp, maxTemp, lastTemp, rows, rowsProcessed, hoursWritten)
  {
    assert (rs + [r])[..|rs|] == rs;
    if mark0.None? {
      var m;
      m, minTemp, maxTemp, lastTemp := FirstReading(r);
      mark, rows, rowsProcessed, hoursWritten := Some(m), rows0, processed0 + 1, written0;
      return;
    }
    PendingHasLatestMark(rs);
    var m, wrote;
    m, minTemp, maxTemp, lastTemp, rows, wrote := NextReading(r, calendar, FoldAll(rs), mark0.value, min0, max0, last0, rows0);
    mark := Some(m);
    hoursWritten := written0;
    if wrote {
      hoursWritten := hoursWritten + 1;
    }
    rowsProcessed := processed0 + 1;
  }

  /**
   * The bucket loop of `compactData`: unlike compact_data.js, the first
   * accepted reading sets min, max and last to its temperature outright
   * and goes on to the next line.
   */
  method CompactStored(lines: seq<string>, read: string -> Option<Reading>, calendar: int -> DateTime)
    returns (report: Report)
    ensures report == ReportOf(ReadingsWith(lines, read), calendar)
  {
    var currentHourMark: Option<int> := None;
    var minTemp, maxTemp, lastTemp := 0, 0, 0;
    var isFirstLine := true;
    var rowsProcessed := 0;
    var hoursWritten := 0;
    var rows: seq<HourRow> := [];
    ghost var rs: seq<Reading> := [];
    var i := 0;
    while i < |lines|
      invariant 0 <= i <= |lines|
      invariant isFirstLine <==> i == 0
      invariant rs == if i == 0 then [] else BodyReadings(lines[1..i], read)
      invariant LoopState(rs, calendar, currentHourMark, minTemp, maxTemp, lastTemp, rows, rowsProcessed, hoursWritten)
    {
      var line := lines[i];
      if isFirstLine {
        isFirstLine := false;
        assert lines[1..1] == [];
        i := i + 1;
        continue;
      }
      assert lines[1..i + 1] == lines[1..i] + [line];
      BodyReadingsSnoc(lines[1..i], line, read);
      var reading := read(line);
      if reading.Some? {
        currentHourMark, minTemp, maxTemp, lastTemp, rows, rowsProcessed, hoursWritten :=
          AcceptReading(reading.value, calendar, rs, currentHourMark, minTemp, maxTemp, lastTemp, rows, rowsProcessed, hoursWritten);
        rs := rs + [reading.value];
      }
      i := i + 1;
    }
    assert rs == ReadingsWith(lines, read) by {
      if lines != [] {
        assert lines[1..|lines|] == lines[1..];
      }
    }
    PendingHasLatestMark(rs);
    if currentHourMark.Some? {
      rows := rows + [HourRow(FormatDate(calendar(currentHourMark.value)), minTemp, maxTemp, lastTemp)];
      hoursWritten := hoursWritten + 1;
      RowsOfSnoc(FoldAll(rs).done, FoldAll(rs).pending.value, calendar);
    }
    report := Report(rows, rowsProcessed, hoursWritten);
  }

  /** `compactData`: nothing when the file is missing, else the compaction of its lines. */
  method CompactFile(input: Option<seq<string>>, p: Parsers, calendar: int -> DateTime) returns (out: Option<Report>)
    ensures out == Compaction(input, p, calendar)
  {
    if input.None? {
      return None;
    }
    var report := CompactStored(input.value, LineReader(p), calendar);
    out := Some(report);
  }

  /** No separator a stored date uses. */
  predicate Plain(x: string) {
    forall i :: 0 <= i < |x| ==> x[i] != '-' && x[i] != ':' && x[i] != ' '
  }

  lemma PlainPieces(a: string, x: char, b: string, y: char, c: string, sep: char)
    requires Plain(a) && Plain(b) && Plain(c) && x != sep && y != sep && (sep == '-' || sep == ':' || sep == ' ')
    ensures var s := a + [x] + b + [y] + c; forall i :: 0 <= i < |s| ==> s[i] != sep
  {
    var s := a + [x] + b + [y] + c;
    forall i | 0 <= i < |s| ensures s[i] != sep {
      if i < |a| { assert s[i] == a[i]; }
      else if i == |a| { }
      else if i < |a| + 1 + |b| { assert s[i] == b[i - |a| - 1]; }
      else if i == |a| + 1 + |b| { }
      else { assert s[i] == c[i - |a| - 2 - |b|]; }
    }
  }

  lemma SplitThree(a: string, b: string, c: string, sep: string)
    requires |sep| == 1 && Plain(a) && Plain(b) && Plain(c) && (sep == "-" || sep == ":" || sep == " ")
    ensures Split(a + sep + b + sep + c, sep) == [a, b, c]
  {
    OneCharHasNoBorder(sep);
    forall x | x in [a, b, c] ensures !Contains(x, sep) {
      MissingFirstChar(x, sep);
    }
    JoinThree(a, b, c, sep);
    SplitJoin([a, b, c], sep);
  }

  /** The text `y-mo-d h:mi:se`. */
  function Stamp(y: string, mo: string, d: string, h: string, mi: string, se: string): string {
    (y + "-" + mo + "-" + d) + " " + (h + ":" + mi + ":" + se)
  }

  /** How `DateOf` takes a stamp apart. */
  lemma StampFields(y: string, mo: string, d: string, h: string, mi: string, se: string)
    requires Plain(y) && Plain(mo) && Plain(d) && Plain(h) && Plain(mi) && Plain(se)
    ensures var s := Stamp(y, mo, d, h, mi, se);
      Contains(s, " ") && Split(s, " ") == [y + "-" + mo + "-" + d, h + ":" + mi + ":" + se]
      && Split(y + "-" + mo + "-" + d, "-") == [y, mo, d] && Split(h + ":" + mi + ":" + se, ":") == [h, mi, se]
  {
    var a, b := y + "-" + mo + "-" + d, h + ":" + mi + ":" + se;
    PlainPieces(y, '-', mo, '-', d, ' ');
    PlainPieces(h, ':', mi, ':', se, ' ');
    MissingFirstChar(a, " ");
    MissingFirstChar(b, " ");
    OneCharHasNoBorder(" ");
    JoinTwo(a, b, " ");
    SplitJoin([a, b], " ");
    var s := a + " " + b;
    assert s[|a|..|a| + 1] == " ";
    assert OccursAt(s, " ", |a|);
    SplitThree(y, mo, d, "-");
    SplitThree(h, mi, se, ":");
  }

  /**
   * A date field `y-mo-d h:mi:se` is built from the numbers of its six
   * components, the month made 0-based; it is invalid when one of them is
   * not a number.
   */
  lemma DateFromComponents(y: string, mo: string, d: string, h: string, mi: string, se: string,
                           number: string -> Option<int>, localTime: (int, int, int, int, int, int) -> int,
                           parseDate: string -> Option<int>)
    requires Plain(y) && Plain(mo) && Plain(d) && Plain(h) && Plain(mi) && Plain(se)
    ensures var date := DateOf(Stamp(y, mo, d, h, mi, se), number, localTime, parseDate);
      var all := number(y).Some? && number(mo).Some? && number(d).Some? && number(h).Some? && number(mi).Some? && number(se).Some?;
      (date.Some? <==> all)
      && (all ==> date.value == localTime(number(y).value, number(mo).value - 1, number(d).value,
                                          number(h).value, number(mi).value, number(se).value))
  {
    StampDate(y, mo, d, h, mi, se, number, localTime, parseDate);
    BuildFromThree(y, mo, d, h, mi, se, number, localTime);
  }

  lemma StampDate(y: string, mo: string, d: string, h: string, mi: string, se: string,
                  number: string -> Option<int>, localTime: (int, int, int, int, int, int) -> int,
                  parseDate: string -> Option<int>)
    requires Plain(y) && Plain(mo) && Plain(d) && Plain(h) && Plain(mi) && Plain(se)
    ensures DateOf(Stamp(y, mo, d, h, mi, se), number, localTime, parseDate) == BuildDate([y, mo, d], [h, mi, se], number, localTime)
  {
    StampFields(y, mo, d, h, mi, se);
  }

  lemma BuildFromThree(y: string, mo: string, d: string, h: string, mi: string, se: string,
                       number: string -> Option<int>, localTime: (int, int, int, int, int, int) -> int)
    ensures var date := BuildDate([y, mo, d], [h, mi, se], number, localTime);
      var all := number(y).Some? && number(mo).Some? && number(d).Some? && number(h).Some? && number(mi).Some? && number(se).Some?;
      (date.Some? <==> all)
      && (all ==> date.value == localTime(number(y).value, number(mo).value - 1, number(d).value,
                                          number(h).value, number(mi).value, number(se).value))
  {
    var ds, ts := [y, mo, d], [h, mi, se];
    assert Component(ds, 0, number) == number(y) && Component(ds, 1, number) == number(mo) && Component(ds, 2, number) == number(d);
    assert Component(ts, 0, number) == number(h) && Component(ts, 1, number) == number(mi) && Component(ts, 2, number) == number(se);
  }

  // ---------------------------------------------------------------------
  // The fetched-line filter.

  /** A fetched line is kept when, trimmed, it is non-empty and starts with neither `Aeg` nor `<`. */
  predicate KeepFetched(line: string) {
    var t := Trim(line);
    t != "" && !StartsWith(t, "Aeg") && !StartsWith(t, "<")
  }

  /** `xs.filter(keep)`. */
  function Filter(xs: seq<string>, keep: string -> bool): seq<string>
    decreases |xs|
  {
    if xs == [] then [] else (if keep(xs[0]) then [xs[0]] else []) + Filter(xs[1..], keep)
  }

  /** The kept lines, untrimmed, in their order. */
  function DataLines(lines: seq<string>): seq<string> {
    Filter(lines, KeepFetched)
  }

  /** The data lines of a response body. */
  function FetchedLines(raw: string): seq<string> {
    DataLines(Split(raw, "\n"))
  }

  lemma {:induction false} FilterAppend(a: seq<string>, b: seq<string>, keep: string -> bool)
    ensures Filter(a + b, keep) == Filter(a, keep) + Filter(b, keep)
    decreases |a|
  {
    if a != [] {
      FilterAppend(a[1..], b, keep);
      assert (a + b)[0] == a[0] && (a + b)[1..] == a[1..] + b;
    } else {
      assert a + b == b;
    }
  }

  lemma {:induction false} FilterCounts(xs: seq<string>, keep: string -> bool)
    ensures forall l :: multiset(Filter(xs, keep))[l] == if keep(l) then multiset(xs)[l] else 0
    decreases |xs|
  {
    if xs != [] {
      FilterCounts(xs[1..], keep);
      assert xs == [xs[0]] + xs[1..];
    }
  }

  /** Filtering a concatenation filters each part: the filter keeps the order. */
  lemma DataLinesAppend(a: seq<string>, b: seq<string>)
    ensures DataLines(a + b) == DataLines(a) + DataLines(b)
  {
    FilterAppend(a, b, KeepFetched);
  }

  /** Every line the filter should keep is kept as often as it occurs, and no other. */
  lemma DataLinesExactly(lines: seq<string>)
    ensures forall l :: multiset(DataLines(lines))[l] == if KeepFetched(l) then multiset(lines)[l] else 0
  {
    FilterCounts(lines, KeepFetched);
  }

  // ---------------------------------------------------------------------
  // `getLatestDateInFile`.

  /** The latest-line loop's test: non-blank and not the header (`Aeg`, untrimmed). */
  predicate CountsAsData(line: string) {
    Trim(line) != "" && !StartsWith(line, "Aeg")
  }

  /** The index of the last line that `keep` accepts, or -1 when there is none. */
  function LastIndex(lines: seq<string>, keep: string -> bool): (k: int)
    ensures -1 <= k < |lines|
    ensures k >= 0 ==> keep(lines[k])
    ensures forall j :: k < j < |lines| ==> !keep(lines[j])
    decreases |lines|
  {
    if lines == [] then -1
    else if keep(lines[|lines| - 1]) then |lines| - 1
    else
      var init := lines[..|lines| - 1];
      assert forall j :: 0 <= j < |init| ==> init[j] == lines[j];
      LastIndex(init, keep)
  }

  /** One more line moves the last index to it exactly when it is kept. */
  lemma LastIndexStep(lines: seq<string>, i: nat, keep: string -> bool)
    requires i < |lines|
    ensures LastIndex(lines[..i + 1], keep) == if keep(lines[i]) then i else LastIndex(lines[..i], keep)
  {
    assert lines[..i + 1][..i] == lines[..i];
  }

  /**
   * The latest date: `None` when the file is missing or has no data line;
   * else what the date parser makes of the last data line's first `", "`
   * field, `None` inside for an invalid date.
   */
  function LatestDate(file: Option<seq<string>>, parseDate: string -> Option<int>): (latest: Option<Option<int>>)
    ensures latest.Some? ==> file.Some?
  {
    if file.None? then None
    else
      var k := LastIndex(file.value, CountsAsData);
      if k < 0 then None else Some(parseDate(Split(file.value[k], ", ")[0]))
  }

  method GetLatestDateInFile(file: Option<seq<string>>, parseDate: string -> Option<int>) returns (latest: Option<Option<int>>)
    ensures latest == LatestDate(file, parseDate)
  {
    if file.None? {
      return None;
    }
    var lines := file.value;
    var lastLine := "";
    ghost var last := -1;
    var i := 0;
    while i < |lines|
      invariant 0 <= i <= |lines|
      invariant last == LastIndex(lines[..i], CountsAsData)
      invariant lastLine == if last < 0 then "" else lines[last]
    {
      LastIndexStep(lines, i, CountsAsData);
      if CountsAsData(lines[i]) {
        lastLine := lines[i];
        last := i;
      }
      i := i + 1;
    }
    assert lines[..|lines|] == lines;
    if lastLine == "" {
      return None;
    }
    var dateStr := Split(lastLine, ", ")[0];
    return Some(parseDate(dateStr));
  }

  // ---------------------------------------------------------------------
  // The chunk loop of `refreshData`.

  /** One request: from `start` to `end`. */
  datatype Chunk = Chunk(start: int, end: int)

  /** One year on from `from`, or `now` when that is earlier. */
  function ChunkEnd(from: int, now: int, addYear: int -> int): int {
    if addYear(from) > now then now else addYear(from)
  }

  /** The chunks from `from` up to `now`, with no request failing. */
  function Plan(from: int, now: int, addYear: int -> int): seq<Chunk>
    requires forall t :: addYear(t) > t
    decreases now - from
  {
    if from >= now then [] else [Chunk(from, ChunkEnd(from, now, addYear))] + Plan(ChunkEnd(from, now, addYear), now, addYear)
  }

  /**
   * The chunks are contiguous: the first starts at `from`, each ends one
   * year on or at `now` and the next starts there, and the last ends at
   * `now`; there are none when `from >= now`.
   */
  lemma {:induction false} PlanFacts(from: int, now: int, addYear: int -> int)
    requires forall t :: addYear(t) > t
    ensures var ps := Plan(from, now, addYear);
      (ps == [] <==> from >= now)
      && (ps != [] ==> ps[0].start == from && ps[|ps| - 1].end == now)
      && (forall k :: 0 <= k < |ps| ==> ps[k].start < ps[k].end <= now && ps[k].end == ChunkEnd(ps[k].start, now, addYear))
      && (forall k :: 0 <= k < |ps| - 1 ==> ps[k].end == ps[k + 1].start)
    decreases now - from
  {
    if from < now {
      var e := ChunkEnd(from, now, addYear);
      PlanFacts(e, now, addYear);
      var ps, rest := Plan(from, now, addYear), Plan(e, now, addYear);
      assert ps == [Chunk(from, e)] + rest;
      forall k | 0 <= k < |ps| - 1 ensures ps[k].end == ps[k + 1].start {
        if k > 0 {
          assert ps[k] == rest[k - 1] && ps[k + 1] == rest[k];
        }
      }
    }
  }

  /** The chunks requested: up to and including the first whose request fails. */
  function Attempted(plan: seq<Chunk>, fetch: Chunk -> Option<string>): seq<Chunk>
    decreases |plan|
  {
    if plan == [] then []
    else if fetch(plan[0]).None? then [plan[0]]
    else [plan[0]] + Attempted(plan[1..], fetch)
  }

  /**
   * The lines appended: what `lift` keeps of each response before the
   * first failure (the loop uses `FetchedLines`).
   */
  function Saved(plan: seq<Chunk>, fetch: Chunk -> Option<string>, lift: string -> seq<string>): seq<string>
    decreases |plan|
  {
    if plan == [] || fetch(plan[0]).None? then []
    else lift(fetch(plan[0]).value) + Saved(plan[1..], fetch, lift)
  }

  /**
   * The requests made are a prefix of the plan; every one but the last
   * succeeded; the loop stops early only after a failed request.
   */
  lemma {:induction false} AttemptedFacts(plan: seq<Chunk>, fetch: Chunk -> Option<string>)
    ensures var a := Attempted(plan, fetch);
      |a| <= |plan| && a == plan[..|a|]
      && (a == [] <==> plan == [])
      && (forall k :: 0 <= k < |a| - 1 ==> fetch(a[k]).Some?)
      && (|a| < |plan| ==> fetch(a[|a| - 1]).None?)
    decreases |plan|
  {
    if plan != [] && fetch(plan[0]).Some? {
      AttemptedFacts(plan[1..], fetch);
      var a, rest := Attempted(plan, fetch), Attempted(plan[1..], fetch);
      assert a == [plan[0]] + rest;
      forall k | 0 <= k < |a| - 1 ensures fetch(a[k]).Some? {
        if k > 0 {
          assert a[k] == rest[k - 1];
        }
      }
      if |a| < |plan| {
        assert a[|a| - 1] == rest[|rest| - 1];
      }
    }
  }

  /**
   * What a refresh does. `Stopped` is the run that throws while logging
   * an invalid latest date (`toISOString` of an Invalid Date), leaving the
   * file as it was.
   */
  datatype Outcome =
    | Stopped(file: seq<string>)
    | UpToDate(file: seq<string>)
    | Refreshed(file: seq<string>, chunks: seq<Chunk>, report: Report)

  /**
   * What a refresh does: with no latest date the file is started afresh
   * from its header and fetching starts on the first archive day; with a
   * valid one it starts five minutes after it (`Resume`).
   */
  function Refreshing(file: Option<seq<string>>, now: int, firstStart: int, p: Parsers, calendar: int -> DateTime,
                      addYear: int -> int, fetch: Chunk -> Option<string>): Outcome
    requires forall t :: addYear(t) > t
  {
    RefreshFrom(LatestDate(file, p.parseDate), file, now, firstStart, p, calendar, addYear, fetch)
  }

  /** What a refresh does once the latest date of `file` is known. */
  function RefreshFrom(latest: Option<Option<int>>, file: Option<seq<string>>, now: int, firstStart: int, p: Parsers,
                       calendar: int -> DateTime, addYear: int -> int, fetch: Chunk -> Option<string>): Outcome
    requires forall t :: addYear(t) > t
    requires latest.Some? ==> file.Some?
  {
    match latest
    case None => Resume([DATA_HEADER], firstStart, now, p, calendar, addYear, fetch)
    case Some(d) =>
      if d.None? then Stopped(file.value)
      else Resume(file.value, d.value + NEXT_SAMPLE_MS, now, p, calendar, addYear, fetch)
  }

  /**
   * A refresh of the lines `base` from `start`: none when the start is at
   * or after `now`; otherwise the chunks from the start are requested,
   * their data lines appended, and the lines compacted.
   */
  function Resume(base: seq<string>, start: int, now: int, p: Parsers, calendar: int -> DateTime,
                  addYear: int -> int, fetch: Chunk -> Option<string>): Outcome
    requires forall t :: addYear(t) > t
  {
    if start >= now then UpToDate(base)
    else
      var plan := Plan(start, now, addYear);
      var lines := base + Saved(plan, fetch, FetchedLines);
      Refreshed(lines, Attempted(plan, fetch), Compaction(Some(lines), p, calendar).value)
  }

  /** A successful request moves its chunk and its data lines to the done side. */
  lemma ChunkFetched(chunks: seq<Chunk>, lines: seq<string>, file: seq<string>, plan: seq<Chunk>,
                     chunk: Chunk, rest: seq<Chunk>, fetch: Chunk -> Option<string>, lift: string -> seq<string>)
    requires fetch(chunk).Some?
    requires chunks + Attempted([chunk] + rest, fetch) == Attempted(plan, fetch)
    requires lines + Saved([chunk] + rest, fetch, lift) == file + Saved(plan, fetch, lift)
    ensures (chunks + [chunk]) + Attempted(rest, fetch) == Attempted(plan, fetch)
    ensures (lines + lift(fetch(chunk).value)) + Saved(rest, fetch, lift) == file + Saved(plan, fetch, lift)
  {
    assert ([chunk] + rest)[0] == chunk && ([chunk] + rest)[1..] == rest;
  }

  /** A failed request is the last one, and adds no lines. */
  lemma ChunkFailed(chunks: seq<Chunk>, lines: seq<string>, file: seq<string>, plan: seq<Chunk>,
                    chunk: Chunk, rest: seq<Chunk>, fetch: Chunk -> Option<string>, lift: string -> seq<string>)
    requires fetch(chunk).None?
    requires chunks + Attempted([chunk] + rest, fetch) == Attempted(plan, fetch)
    requires lines + Saved([chunk] + rest, fetch, lift) == file + Saved(plan, fetch, lift)
    ensures chunks + [chunk] == Attempted(plan, fetch)
    ensures lines == file + Saved(plan, fetch, lift)
  {
    assert ([chunk] + rest)[0] == chunk;
  }

  /** Appends the data lines of one response, when it has any. */
  method AppendData(lines: seq<string>, raw: string) returns (longer: seq<string>)
    ensures longer == lines + FetchedLines(raw)
  {
    var dataLines := FetchedLines(raw);
    if |dataLines| > 0 {
      longer := lines + dataLines;
    } else {
      longer := lines;
      assert dataLines == [];
    }
  }

  /**
   * The `currentStart` loop: one request per chunk from `start` until
   * `now`, appending the data lines of each response, and stopping at the
   * first failed request.
   */
  method FetchChunks(start: int, now: int, addYear: int -> int, fetch: Chunk -> Option<string>, file: seq<string>)
    returns (lines: seq<string>, chunks: seq<Chunk>)
    requires forall t :: addYear(t) > t
    ensures chunks == Attempted(Plan(start, now, addYear), fetch)
    ensures lines == file + Saved(Plan(start, now, addYear), fetch, FetchedLines)
  {
    lines, chunks := file, [];
    var currentStart := start;
    while currentStart < now
      invariant chunks + Attempted(Plan(currentStart, now, addYear), fetch) == Attempted(Plan(start, now, addYear), fetch)
      invariant lines + Saved(Plan(currentStart, now, addYear), fetch, FetchedLines) == file + Saved(Plan(start, now, addYear), fetch, FetchedLines)
      decreases now - currentStart
    {
      var currentEnd := addYear(currentStart);
      if currentEnd > now {
        currentEnd := now;
      }
      var chunk := Chunk(currentStart, currentEnd);
      ghost var rest := Plan(currentEnd, now, addYear);
      assert Plan(currentStart, now, addYear) == [chunk] + rest;
      var raw := fetch(chunk);
      if raw.None? {
        ChunkFailed(chunks, lines, file, Plan(start, now, addYear), chunk, rest, fetch, FetchedLines);
        chunks := chunks + [chunk];
        break;
      }
      ChunkFetched(chunks, lines, file, Plan(start, now, addYear), chunk, rest, fetch, FetchedLines);
      chunks := chunks + [chunk];
      lines := AppendData(lines, raw.value);
      currentStart := currentEnd;
    }
  }

  /**
   * `refreshData`: no latest date starts a new file with its header and
   * the first archive day; an invalid one stops the run; a valid one
   * starts five minutes after it. Then `ResumeFrom`.
   */
  method Refresh(file: Option<seq<string>>, now: int, firstStart: int, p: Parsers, calendar: int -> DateTime,
                 addYear: int -> int, fetch: Chunk -> Option<string>) returns (outcome: Outcome)
    requires forall t :: addYear(t) > t
    ensures outcome == Refreshing(file, now, firstStart, p, calendar, addYear, fetch)
  {
    var latest := GetLatestDateInFile(file, p.parseDate);
    outcome := StartFrom(latest, file, now, firstStart, p, calendar, addYear, fetch);
  }

  /** The branch on the latest date: where to start and from which lines. */
  method StartFrom(latest: Option<Option<int>>, file: Option<seq<string>>, now: int, firstStart: int, p: Parsers,
                   calendar: int -> DateTime, addYear: int -> int, fetch: Chunk -> Option<string>) returns (outcome: Outcome)
    requires forall t :: addYear(t) > t
    requires latest.Some? ==> file.Some?
    ensures outcome == RefreshFrom(latest, file, now, firstStart, p, calendar, addYear, fetch)
  {
    var lines: seq<string>;
    var startDate: int;
    if latest.None? {
      startDate := firstStart;
      lines := [DATA_HEADER];
    } else if latest.value.None? {
      return Stopped(file.value);
    } else {
      startDate := latest.value.value + NEXT_SAMPLE_MS;
      lines := file.value;
    }
    outcome := ResumeFrom(lines, startDate, now, p, calendar, addYear, fetch);
  }

  /**
   * The rest of `refreshData`: a start at or after `now` ends the run;
   * otherwise chunks are fetched until `now` or the first failed request,
   * their data lines appended, and the file compacted.
   */
  method ResumeFrom(base: seq<string>, startDate: int, now: int, p: Parsers, calendar: int -> DateTime,
                    addYear: int -> int, fetch: Chunk -> Option<string>) returns (outcome: Outcome)
    requires forall t :: addYear(t) > t
    ensures outcome == Resume(base, startDate, now, p, calendar, addYear, fetch)
  {
    if startDate >= now {
      return UpToDate(base);
    }
    var lines, chunks := FetchChunks(startDate, now, addYear, fetch, base);
    var report := CompactFile(Some(lines), p, calendar);
    outcome := Refreshed(lines, chunks, report.value);
  }

  // ---------------------------------------------------------------------
  // What a refresh promises.

  /**
   * Adding a line to the file: a line that counts as data becomes the one
   * the latest date is read from; any other leaves the latest date as it
   * was. A file with no line that counts has no latest date.
   */
  lemma LatestDateSnoc(lines: seq<string>, l: string, parseDate: string -> Option<int>)
    ensures LatestDate(Some(lines + [l]), parseDate)
      == if CountsAsData(l) then Some(parseDate(Split(l, ", ")[0])) else LatestDate(Some(lines), parseDate)
  {
    var ls := lines + [l];
    LastIndexStep(ls, |lines|, CountsAsData);
    assert ls[..|lines| + 1] == ls && ls[..|lines|] == lines;
  }

  lemma LatestDateNone(lines: seq<string>, parseDate: string -> Option<int>)
    ensures LatestDate(Some(lines), parseDate).None? <==> forall k :: 0 <= k < |lines| ==> !CountsAsData(lines[k])
  {
  }

  /** The lines the response adds are all ones the filter keeps. */
  lemma SavedAreKept(plan: seq<Chunk>, fetch: Chunk -> Option<string>)
    ensures forall l :: l in Saved(plan, fetch, FetchedLines) ==> KeepFetched(l)
    decreases |plan|
  {
    if plan != [] && fetch(plan[0]).Some? {
      SavedAreKept(plan[1..], fetch);
      var raw := fetch(plan[0]).value;
      FilterCounts(Split(raw, "\n"), KeepFetched);
      forall l | l in FetchedLines(raw) ensures KeepFetched(l) {
        assert multiset(FetchedLines(raw))[l] > 0;
      }
    }
  }

  /**
   * A refresh that has something to fetch keeps the existing lines as they
   * are and appends only kept data lines; its requests start at `start`,
   * follow on one from the next, end no later than `now`, and every one but
   * the last succeeded; when the last one succeeded too, it ends at `now`.
   */
  lemma ResumeFacts(base: seq<string>, start: int, now: int, p: Parsers, calendar: int -> DateTime,
                    addYear: int -> int, fetch: Chunk -> Option<string>)
    requires forall t :: addYear(t) > t
    requires start < now
    ensures var o := Resume(base, start, now, p, calendar, addYear, fetch);
      o.Refreshed? && |base| <= |o.file| && o.file[..|base|] == base
      && (forall k :: |base| <= k < |o.file| ==> KeepFetched(o.file[k]))
      && o.report == Compaction(Some(o.file), p, calendar).value
      && |o.chunks| > 0 && o.chunks[0].start == start
      && (forall k :: 0 <= k < |o.chunks| ==> o.chunks[k].start < o.chunks[k].end <= now)
      && (forall k :: 0 <= k < |o.chunks| - 1 ==> o.chunks[k].end == o.chunks[k + 1].start && fetch(o.chunks[k]).Some?)
      && (fetch(o.chunks[|o.chunks| - 1]).Some? ==> o.chunks[|o.chunks| - 1].end == now)
  {
    var plan := Plan(start, now, addYear);
    var o := Resume(base, start, now, p, calendar, addYear, fetch);
    assert o.file == base + Saved(plan, fetch, FetchedLines) && o.chunks == Attempted(plan, fetch);
    AppendedFacts(base, plan, fetch);
    RequestFacts(start, now, addYear, fetch);
  }

  /** The lines of a refresh: the old ones unchanged, then only kept data lines. */
  lemma AppendedFacts(base: seq<string>, plan: seq<Chunk>, fetch: Chunk -> Option<string>)
    ensures var file := base + Saved(plan, fetch, FetchedLines);
      |base| <= |file| && file[..|base|] == base
      && (forall k :: |base| <= k < |file| ==> KeepFetched(file[k]))
  {
    var saved := Saved(plan, fetch, FetchedLines);
    var file := base + saved;
    SavedAreKept(plan, fetch);
    assert file[..|base|] == base;
    forall k | |base| <= k < |file| ensures KeepFetched(file[k]) {
      assert file[k] == saved[k - |base|];
    }
  }

  /** The requests of a refresh from `start`: contiguous, up to `now`, each but the last successful. */
  lemma RequestFacts(start: int, now: int, addYear: int -> int, fetch: Chunk -> Option<string>)
    requires forall t :: addYear(t) > t
    requires start < now
    ensures var a := Attempted(Plan(start, now, addYear), fetch);
      |a| > 0 && a[0].start == start
      && (forall k :: 0 <= k < |a| ==> a[k].start < a[k].end <= now)
      && (forall k :: 0 <= k < |a| - 1 ==> a[k].end == a[k + 1].start && fetch(a[k]).Some?)
      && (fetch(a[|a| - 1]).Some? ==> a[|a| - 1].end == now)
  {
    var plan := Plan(start, now, addYear);
    var a := Attempted(plan, fetch);
    PlanFacts(start, now, addYear);
    AttemptedFacts(plan, fetch);
    forall k | 0 <= k < |a| ensures a[k].start < a[k].end <= now {
      assert a[k] == plan[k];
    }
    forall k | 0 <= k < |a| - 1 ensures a[k].end == a[k + 1].start {
      assert a[k] == plan[k] && a[k + 1] == plan[k + 1];
    }
    if fetch(a[|a| - 1]).Some? {
      assert |a| == |plan| && a == plan;
    }
  }

  /**
   * The three ways a refresh ends: it stops exactly when the latest date
   * is invalid, leaving the file alone; it is up to date exactly when the
   * start (the first archive day, or five minutes after a valid latest
   * date) is at or after `now`; otherwise it refreshes. A file with no
   * latest date is started again from the header; one with a latest date
   * keeps every line it had.
   */
  lemma RefreshCases(file: Option<seq<string>>, now: int, firstStart: int, p: Parsers, calendar: int -> DateTime,
                     addYear: int -> int, fetch: Chunk -> Option<string>)
    requires forall t :: addYear(t) > t
    ensures var o := Refreshing(file, now, firstStart, p, calendar, addYear, fetch);
      var latest := LatestDate(file, p.parseDate);
      var start := if latest.None? || latest.value.None? then firstStart else latest.value.value + NEXT_SAMPLE_MS;
      (o.Stopped? <==> latest == Some(None))
      && (o.UpToDate? <==> latest != Some(None) && start >= now)
      && (latest.Some? ==> file.Some? && |file.value| <= |o.file| && o.file[..|file.value|] == file.value)
      && (latest.None? ==> |o.file| > 0 && o.file[0] == DATA_HEADER)
      && (o.Refreshed? ==> |o.chunks| > 0 && o.chunks[0].start == start)
  {
    RefreshFromCases(LatestDate(file, p.parseDate), file, now, firstStart, p, calendar, addYear, fetch);
  }

  /** `RefreshCases` for any latest date. */
  lemma RefreshFromCases(latest: Option<Option<int>>, file: Option<seq<string>>, now: int, firstStart: int, p: Parsers,
                         calendar: int -> DateTime, addYear: int -> int, fetch: Chunk -> Option<string>)
    requires forall t :: addYear(t) > t
    requires latest.Some? ==> file.Some?
    ensures var o := RefreshFrom(latest, file, now, firstStart, p, calendar, addYear, fetch);
      var start := if latest.None? || latest.value.None? then firstStart else latest.value.value + NEXT_SAMPLE_MS;
      (o.Stopped? <==> latest == Some(None))
      && (o.UpToDate? <==> latest != Some(None) && start >= now)
      && (latest.Some? ==> |file.value| <= |o.file| && o.file[..|file.value|] == file.value)
      && (latest.None? ==> |o.file| > 0 && o.file[0] == DATA_HEADER)
      && (o.Refreshed? ==> |o.chunks| > 0 && o.chunks[0].start == start)
  {
    if latest.None? {
      ResumeShape([DATA_HEADER], firstStart, now, p, calendar, addYear, fetch);
    } else if latest.value.Some? {
      ResumeShape(file.value, latest.value.value + NEXT_SAMPLE_MS, now, p, calendar, addYear, fetch);
    }
  }

  lemma ResumeShape(base: seq<string>, start: int, now: int, p: Parsers, calendar: int -> DateTime,
                    addYear: int -> int, fetch: Chunk -> Option<string>)
    requires forall t :: addYear(t) > t
    ensures var o := Resume(base, start, now, p, calendar, addYear, fetch);
      !o.Stopped? && (o.UpToDate? <==> start >= now)
      && |base| <= |o.file| && o.file[..|base|] == base
      && (o.Refreshed? ==> |o.chunks| > 0 && o.chunks[0].start == start)
  {
    if start < now {
      ResumeFacts(base, start, now, p, calendar, addYear, fetch);
    }
  }
}
