/**
 * compact_data.js: reads `all_data.csv` line by line and writes one row
 * per hour mark with the min, max and last temperature folded into it.
 */
module CompactData {
  import opened Wrappers
  import opened Text
  import opened DateFormat
  import opened HourlyBuckets

  /** One written row: the formatted hour mark and the three temperatures. */
  datatype HourRow = HourRow(when: string, min: int, max: int, last: int)

  /** What the script writes and counts. */
  datatype Report = Report(rows: seq<HourRow>, rowsProcessed: nat, hoursWritten: nat)

  function RowOf(b: Bucket, calendar: int -> DateTime): HourRow {
    HourRow(FormatDate(calendar(b.mark)), b.min, b.max, b.last)
  }

  function RowsOf(bs: seq<Bucket>, calendar: int -> DateTime): (rs: seq<HourRow>)
    ensures |rs| == |bs| && forall k :: 0 <= k < |bs| ==> rs[k] == RowOf(bs[k], calendar)
  {
    seq(|bs|, k requires 0 <= k < |bs| => RowOf(bs[k], calendar))
  }

  /**
   * The reading a line after the header gives, if any: the line is split
   * on `", "`; fewer than two fields, an empty date or temperature after
   * trimming, or a temperature that is not a number skip it.
   */
  function LineReading(line: string, parseDate: string -> int, parseTemp: string -> Option<int>): Option<Reading> {
    var parts := Split(line, ", ");
    if |parts| < 2 then None
    else
      var dateStr, tempStr := Trim(parts[0]), Trim(parts[1]);
      if dateStr == "" || tempStr == "" then None
      else
        var temp := parseTemp(tempStr);
        if temp.None? then None else Some(Reading(parseDate(dateStr), temp.value))
  }

  /** `LineReading` with the parsers fixed. */
  function LineReader(parseDate: string -> int, parseTemp: string -> Option<int>): string -> Option<Reading> {
    line => LineReading(line, parseDate, parseTemp)
  }

  /** The readings `read` accepts from the lines after the header, in file order. */
  function BodyReadings(ls: seq<string>, read: string -> Option<Reading>): seq<Reading>
    decreases |ls|
  {
    if ls == [] then []
    else
      var r := read(ls[|ls| - 1]);
      BodyReadings(ls[..|ls| - 1], read) + if r.Some? then [r.value] else []
  }

  function ReadingsWith(lines: seq<string>, read: string -> Option<Reading>): seq<Reading> {
    if lines == [] then [] else BodyReadings(lines[1..], read)
  }

  function Readings(lines: seq<string>, parseDate: string -> int, parseTemp: string -> Option<int>): seq<Reading> {
    ReadingsWith(lines, LineReader(parseDate, parseTemp))
  }

  /** The report for the lines of a file. */
  function ReportOf(rs: seq<Reading>, calendar: int -> DateTime): Report {
    var rows := RowsOf(Compacted(rs), calendar);
    Report(rows, |rs|, |rows|)
  }

  /** What the script produces for the file, or `None` when the file does not exist. */
  function Compact(input: Option<seq<string>>, parseDate: string -> int, parseTemp: string -> Option<int>,
                   calendar: int -> DateTime): Option<Report>
  {
    if input.None? then None
    else
      Some(ReportOf(Readings(input.value, parseDate, parseTemp), calendar))
  }

  /** `Math.min(minTemp, temp)` with `None` for `Infinity`. */
  function MinFrom(acc: Option<int>, t: int): int {
    if acc.None? then t else Min(acc.value, t)
  }

  /** `Math.max(maxTemp, temp)` with `None` for `-Infinity`. */
  function MaxFrom(acc: Option<int>, t: int): int {
    if acc.None? then t else Max(acc.value, t)
  }

  /** The loop variables hold the pending bucket of the fold. */
  predicate HoldsPending(f: Fold, mark: Option<int>, minTemp: Option<int>, maxTemp: Option<int>, lastTemp: Option<int>) {
    match f.pending
    case None => mark.None? && minTemp.None? && maxTemp.None? && lastTemp.None?
    case Some(b) => mark == Some(b.mark) && minTemp == Some(b.min) && maxTemp == Some(b.max) && lastTemp == Some(b.last)
  }

  lemma BodyReadingsSnoc(ls: seq<string>, l: string, read: string -> Option<Reading>)
    ensures var r := read(l);
      BodyReadings(ls + [l], read) == BodyReadings(ls, read) + if r.Some? then [r.value] else []
  {
    assert (ls + [l])[..|ls|] == ls;
  }

  lemma RowsOfSnoc(bs: seq<Bucket>, b: Bucket, calendar: int -> DateTime)
    ensures RowsOf(bs + [b], calendar) == RowsOf(bs, calendar) + [RowOf(b, calendar)]
  {
  }

  /**
   * The body of the loop for an accepted reading: it sets the hour mark
   * when none is set yet, then either writes the pending row and restarts
   * from the reading, or folds the reading into min, max and last.
   */
  method AcceptReading(r: Reading, calendar: int -> DateTime, ghost f: Fold,
                       mark0: Option<int>, min0: Option<int>, max0: Option<int>, last0: Option<int>, rows0: seq<HourRow>)
    returns (mark: Option<int>, minTemp: Option<int>, maxTemp: Option<int>, lastTemp: Option<int>, rows: seq<HourRow>, wrote: bool)
    requires HoldsPending(f, mark0, min0, max0, last0) && rows0 == RowsOf(f.done, calendar)
    ensures HoldsPending(Absorb(f, r), mark, minTemp, maxTemp, lastTemp) && rows == RowsOf(Absorb(f, r).done, calendar)
    ensures |rows| == |rows0| + if wrote then 1 else 0
  {
    mark, minTemp, maxTemp, lastTemp, rows := mark0, min0, max0, last0, rows0;
    wrote := false;
    var target := HourMark(r.date);
    if mark.None? {
      mark := Some(target);
    }
    if target > mark.value {
      rows := rows + [HourRow(FormatDate(calendar(mark.value)), minTemp.value, maxTemp.value, lastTemp.value)];
      RowsOfSnoc(f.done, f.pending.value, calendar);
      wrote := true;
      mark := Some(target);
      minTemp, maxTemp, lastTemp := Some(r.temp), Some(r.temp), Some(r.temp);
    } else {
      minTemp := Some(MinFrom(minTemp, r.temp));
      maxTemp := Some(MaxFrom(maxTemp, r.temp));
      lastTemp := Some(r.temp);
    }
  }

  /**
   * The compaction loop. `minTemp`, `maxTemp` and `lastTemp` start as
   * `Infinity`, `-Infinity` and `null` (here `None`); the first reading
   * only sets the hour mark and is then folded through the min/max branch.
   */
  method CompactLines(lines: seq<string>, read: string -> Option<Reading>, calendar: int -> DateTime)
    returns (report: Report)
    ensures report == ReportOf(ReadingsWith(lines, read), calendar)
  {
    var currentHourMark: Option<int> := None;
    var minTemp: Option<int> := None;
    var maxTemp: Option<int> := None;
    var lastTemp: Option<int> := None;
    var isFirstLine := true;
    var rowsProcessed := 0;
    var hoursWritten := 0;
    var rows: seq<HourRow> := [];
    ghost var rs: seq<Reading> := [];
    var i := 0;
    while i < |lines|
      invariant 0 <= i <= |lines|
      invariant isFirstLine <==> i == 0
      invariant rs == if i == 0 then [] else BodyReadings(lines[1..i], read)
      invariant HoldsPending(FoldAll(rs), currentHourMark, minTemp, maxTemp, lastTemp)
      invariant rows == RowsOf(FoldAll(rs).done, calendar)
      invariant rowsProcessed == |rs| && hoursWritten == |rows|
    {
      var line := lines[i];
      if isFirstLine {
        isFirstLine := false;
        assert lines[1..1] == [];
        i := i + 1;
        continue;
      }
      assert lines[1..i + 1] == lines[1..i] + [line];
      BodyReadingsSnoc(lines[1..i], line, read);
      var reading := read(line);
      if reading.Some? {
        var wrote;
        currentHourMark, minTemp, maxTemp, lastTemp, rows, wrote :=
          AcceptReading(reading.value, calendar, FoldAll(rs), currentHourMark, minTemp, maxTemp, lastTemp, rows);
        if wrote {
          hoursWritten := hoursWritten + 1;
        }
        rowsProcessed := rowsProcessed + 1;
        rs := rs + [reading.value];
        assert FoldAll(rs) == Absorb(FoldAll(rs[..|rs| - 1]), reading.value);
      }
      i := i + 1;
    }
    assert rs == ReadingsWith(lines, read) by {
      if lines != [] {
        assert lines[1..|lines|] == lines[1..];
      }
    }
    if currentHourMark.Some? {
      rows := rows + [HourRow(FormatDate(calendar(currentHourMark.value)), minTemp.value, maxTemp.value, lastTemp.value)];
      hoursWritten := hoursWritten + 1;
      RowsOfSnoc(FoldAll(rs).done, FoldAll(rs).pending.value, calendar);
    }
    report := Report(rows, rowsProcessed, hoursWritten);
  }

  /** `compactData`: nothing when the input file is missing, else the compaction of its lines. */
  method CompactFile(input: Option<seq<string>>, parseDate: string -> int, parseTemp: string -> Option<int>,
                     calendar: int -> DateTime) returns (out: Option<Report>)
    ensures out == Compact(input, parseDate, parseTemp, calendar)
  {
    if input.None? {
      return None;
    }
    var report := CompactLines(input.value, LineReader(parseDate, parseTemp), calendar);
    out := Some(report);
  }

  /** Whatever the first line says, it is skipped as the header. */
  lemma HeaderIgnored(h1: string, h2: string, rest: seq<string>, parseDate: string -> int,
                      parseTemp: string -> Option<int>, calendar: int -> DateTime)
    ensures Compact(Some([h1] + rest), parseDate, parseTemp, calendar) == Compact(Some([h2] + rest), parseDate, parseTemp, calendar)
  {
    assert ([h1] + rest)[1..] == rest && ([h2] + rest)[1..] == rest;
  }

  /** A line without a `", "` has fewer than two fields and is skipped. */
  lemma LineWithoutSeparatorSkipped(line: string, parseDate: string -> int, parseTemp: string -> Option<int>)
    requires !Contains(line, ", ")
    ensures LineReading(line, parseDate, parseTemp) == None
  {
    SplitWithout(line, ", ");
  }

  /**
   * A line `date, temp` with both fields non-empty, unpadded and free of
   * `", "` gives the reading of its date, exactly when its temperature is
   * a number.
   */
  lemma WellFormedLine(dateStr: string, tempStr: string, parseDate: string -> int, parseTemp: string -> Option<int>)
    requires dateStr != [] && !IsWhitespace(dateStr[0]) && !IsWhitespace(dateStr[|dateStr| - 1])
    requires tempStr != [] && !IsWhitespace(tempStr[0]) && !IsWhitespace(tempStr[|tempStr| - 1])
    requires !Contains(dateStr, ", ") && !Contains(tempStr, ", ")
    ensures var r := LineReading(dateStr + ", " + tempStr, parseDate, parseTemp);
      (r.Some? <==> parseTemp(tempStr).Some?)
      && (r.Some? ==> r.value == Reading(parseDate(dateStr), parseTemp(tempStr).value))
  {
    CommaSpaceHasNoBorder();
    JoinTwo(dateStr, tempStr, ", ");
    SplitJoin([dateStr, tempStr], ", ");
    TrimUnpadded(dateStr);
    TrimUnpadded(tempStr);
  }

  /**
   * The counts and rows: `hoursWritten` is the number of rows written and
   * `rowsProcessed` the number of accepted readings; there is a row exactly
   * when a reading was accepted; every row has `min <= last <= max`; the
   * last row ends with the last reading.
   */
  lemma ReportFacts(lines: seq<string>, parseDate: string -> int, parseTemp: string -> Option<int>, calendar: int -> DateTime)
    ensures var out := Compact(Some(lines), parseDate, parseTemp, calendar).value;
      var rs := Readings(lines, parseDate, parseTemp);
      out.hoursWritten == |out.rows| <= out.rowsProcessed == |rs|
      && (out.rows == [] <==> rs == [])
      && (forall k :: 0 <= k < |out.rows| ==> out.rows[k].min <= out.rows[k].last <= out.rows[k].max)
      && (rs != [] ==> out.rows[|out.rows| - 1].last == rs[|rs| - 1].temp)
  {
    var rs := Readings(lines, parseDate, parseTemp);
    assert Compact(Some(lines), parseDate, parseTemp, calendar).value == ReportOf(rs, calendar);
    ReportOfFacts(rs, calendar);
  }

  /** `ReportFacts` for any list of accepted readings. */
  lemma ReportOfFacts(rs: seq<Reading>, calendar: int -> DateTime)
    ensures var out := ReportOf(rs, calendar);
      out.hoursWritten == |out.rows| <= out.rowsProcessed == |rs|
      && (out.rows == [] <==> rs == [])
      && (forall k :: 0 <= k < |out.rows| ==> out.rows[k].min <= out.rows[k].last <= out.rows[k].max)
      && (rs != [] ==> out.rows[|out.rows| - 1].last == rs[|rs| - 1].temp)
  {
    var bs := Compacted(rs);
    var rows := RowsOf(bs, calendar);
    NoFillerRows(rs);
    RowsExactlyWhenReadings(rs);
    RowsSound(rs);
    forall k | 0 <= k < |rows| ensures rows[k].min <= rows[k].last <= rows[k].max {
      assert Sound(bs[k], rs);
    }
    if rs != [] {
      LastRowEndsWithLastReading(rs);
    }
  }

  /**
   * The date written for a row reads back as the calendar fields of its
   * hour mark, when the calendar gives a four-digit year.
   */
  lemma RowDateReadsBack(lines: seq<string>, parseDate: string -> int, parseTemp: string -> Option<int>,
                         calendar: int -> DateTime, k: nat)
    requires k < |Compacted(Readings(lines, parseDate, parseTemp))|
    requires InRange(calendar(Compacted(Readings(lines, parseDate, parseTemp))[k].mark))
    ensures var out := Compact(Some(lines), parseDate, parseTemp, calendar).value;
      k < |out.rows| && ReadDate(out.rows[k].when) == Some(calendar(Compacted(Readings(lines, parseDate, parseTemp))[k].mark))
  {
    FormatDateReadsBack(calendar(Compacted(Readings(lines, parseDate, parseTemp))[k].mark));
  }
}
