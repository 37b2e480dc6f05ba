/**
 * generate_streaks.js: for every threshold from 0 down to -25 it scans the
 * hourly series once in "below" mode, keeps the ten longest streaks, reports
 * the trailing streak as current when the data is fresh (48 h), and writes
 * one interval row for every streak it finds.
 */
module StreakGeneration {
  import opened Wrappers
  import opened Text
  import opened Segmenter
  import opened Ranking

  /** 48 hours: the freshness window for the trailing streak. */
  const ONGOING_WINDOW_MS: int := 2 * DAY_MS

  /** A parsed data line; `temp` is `None` when `parseFloat` gave `NaN`. */
  datatype Sample = Sample(date: int, temp: Option<int>)

  /** A streak as serialised in the summary. */
  datatype Entry = Entry(start: int, end: int, durationMs: int, isOngoing: bool)

  /** `streakData[threshold]`. */
  datatype ThresholdResult = ThresholdResult(top10: seq<Entry>, current: Option<Entry>)

  /** A `threshold,start,end` line of the interval table. */
  datatype IntervalRow = IntervalRow(threshold: int, start: int, end: int)

  /** What one threshold pass produces. */
  datatype Outcome = Outcome(result: ThresholdResult, rows: seq<IntervalRow>)

  /** Temperatures are read in tenths of a degree; thresholds are whole degrees Celsius. */
  const TENTHS: int := 10

  /**
   * The condition of this script: `temp <= threshold`, inclusive, compared in
   * one unit (the threshold in tenths); `NaN` never meets it.
   */
  predicate Meets(temp: Option<int>, threshold: int) {
    temp.Some? && temp.value <= TENTHS * threshold
  }

  /** −0.5 °C is above −1 °C, and −1.0 °C meets it. */
  lemma ThresholdInDegrees()
    ensures !Meets(Some(-5), -1) && Meets(Some(-10), -1) && !Meets(Some(-48), -5)
  {
  }

  /** `parts[3] || parts[1]`: the fourth field unless it is missing or empty. */
  function TempField(parts: seq<string>): string
    requires |parts| >= 2
  {
    if |parts| > 3 && parts[3] != "" then parts[3] else parts[1]
  }

  /** The sample of one data line; a line with fewer than two `", "` fields gives none. */
  function LineSample(line: string, parseDate: string -> int, parseTemp: string -> Option<int>): seq<Sample> {
    var parts := Split(line, ", ");
    if |parts| < 2 then [] else [Sample(parseDate(parts[0]), parseTemp(TempField(parts)))]
  }

  /** `LineSample` with the parsers fixed. */
  function LineReader(parseDate: string -> int, parseTemp: string -> Option<int>): string -> seq<Sample> {
    line => LineSample(line, parseDate, parseTemp)
  }

  /** What `read` makes of every line after the header. */
  function SamplesWith(lines: seq<string>, read: string -> seq<Sample>): seq<Sample>
    decreases |lines|
  {
    if |lines| <= 1 then []
    else SamplesWith(lines[..|lines| - 1], read) + read(lines[|lines| - 1])
  }

  /** The samples of a file; line 0 is the header. */
  function Samples(lines: seq<string>, parseDate: string -> int, parseTemp: string -> Option<int>): seq<Sample> {
    SamplesWith(lines, LineReader(parseDate, parseTemp))
  }

  function Observe(samples: seq<Sample>, threshold: int): seq<Obs>
  {
    seq(|samples|, i requires 0 <= i < |samples| => Obs(samples[i].date, Meets(samples[i].temp, threshold)))
  }

  /**
   * Observing keeps every sample's date, and a higher threshold admits
   * every sample a lower one does, so the passes for 0, -1, ..., -25 are
   * ever stricter tests of the same readings.
   */
  lemma ObserveMonotone(samples: seq<Sample>, lower: int, higher: int)
    requires lower <= higher
    ensures |Observe(samples, lower)| == |Observe(samples, higher)| == |samples|
    ensures forall i :: 0 <= i < |samples| ==>
      Observe(samples, lower)[i].date == Observe(samples, higher)[i].date == samples[i].date
    ensures forall i :: 0 <= i < |samples| && Observe(samples, lower)[i].met ==> Observe(samples, higher)[i].met
  {
  }

  lemma ObserveSnoc(samples: seq<Sample>, s: Sample, threshold: int)
    ensures Observe(samples + [s], threshold) == Observe(samples, threshold) + [Obs(s.date, Meets(s.temp, threshold))]
  {
    var a, b := Observe(samples + [s], threshold), Observe(samples, threshold) + [Obs(s.date, Meets(s.temp, threshold))];
    assert forall i :: 0 <= i < |samples| ==> (samples + [s])[i] == samples[i];
    assert forall i :: 0 <= i < |a| ==> a[i] == b[i];
  }

  function LastSample(samples: seq<Sample>): Option<Sample> {
    if samples == [] then None else Some(samples[|samples| - 1])
  }

  function Rows(threshold: int, ss: seq<Streak>): seq<IntervalRow>
  {
    seq(|ss|, k requires 0 <= k < |ss| => IntervalRow(threshold, ss[k].start, ss[k].end))
  }

  lemma RowsSnoc(threshold: int, ss: seq<Streak>, s: Streak)
    ensures Rows(threshold, ss + [s]) == Rows(threshold, ss) + [IntervalRow(threshold, s.start, s.end)]
  {
    var a, b := Rows(threshold, ss + [s]), Rows(threshold, ss) + [IntervalRow(threshold, s.start, s.end)];
    assert forall k :: 0 <= k < |ss| ==> (ss + [s])[k] == ss[k];
    assert forall k :: 0 <= k < |a| ==> a[k] == b[k];
  }

  function ToEntry(s: Streak): Entry {
    Entry(s.start, s.end, s.durationMs, s.isOngoing)
  }

  function Entries(ss: seq<Streak>): (es: seq<Entry>)
    ensures |es| == |ss|
    ensures forall k :: 0 <= k < |ss| ==> es[k] == ToEntry(ss[k])
  {
    seq(|ss|, k requires 0 <= k < |ss| => ToEntry(ss[k]))
  }

  /** `now - lastDataPoint.date < 48 h`, strict. */
  predicate IsFresh(lastDate: int, now: int) {
    now - lastDate < ONGOING_WINDOW_MS
  }

  /** The streak list once the trailing streak, if any, has been pushed. */
  function Finished(g: Seg, last: Option<Sample>, now: int): seq<Streak> {
    match g.open
    case None => g.closed
    case Some(c) => g.closed + [Streak(c.start, c.end, c.count, c.end - c.start, last.Some? && IsFresh(last.value.date, now))]
  }

  /** The `current` entry: the trailing streak when the data is fresh, ending at the last sample. */
  function Current(g: Seg, last: Option<Sample>, now: int): Option<Entry> {
    if g.open.Some? && last.Some? && IsFresh(last.value.date, now) then
      Some(Entry(g.open.value.start, last.value.date, last.value.date - g.open.value.start, true))
    else None
  }

  /** What the code after the row loop makes of the segmenter's state. */
  function Summary(threshold: int, g: Seg, last: Option<Sample>, now: int): Outcome {
    var all := Finished(g, last, now);
    Outcome(ThresholdResult(Entries(Top10(all)), Current(g, last, now)), Rows(threshold, all))
  }

  /** The result of `findStreaksForThreshold` and the interval rows it writes. */
  function FindStreaks(lines: seq<string>, threshold: int, now: int,
                       parseDate: string -> int, parseTemp: string -> Option<int>): Outcome
  {
    var samples := Samples(lines, parseDate, parseTemp);
    Summary(threshold, Segment(Observe(samples, threshold)), LastSample(samples), now)
  }

  lemma SamplesSnoc(lines: seq<string>, i: nat, read: string -> seq<Sample>)
    requires i < |lines|
    ensures SamplesWith(lines[..i + 1], read) == SamplesWith(lines[..i], read) + if i == 0 then [] else read(lines[i])
  {
    assert lines[..i + 1][..i] == lines[..i];
  }

  /** The per-threshold scanner: the locals of `findStreaksForThreshold`. */
  class ThresholdScan {
    const threshold: int
    var current: Option<Candidate>
    var streaks: seq<Streak>
    var intervals: seq<IntervalRow>
    var lastDataPoint: Option<Sample>
    /** The samples consumed so far. */
    ghost var samples: seq<Sample>

    ghost predicate Valid()
      reads this
    {
      Seg(streaks, current) == Segment(Observe(samples, threshold))
      && intervals == Rows(threshold, streaks)
      && lastDataPoint == LastSample(samples)
    }

    constructor (threshold: int)
      ensures Valid() && this.threshold == threshold && samples == []
    {
      this.threshold := threshold;
      current := None;
      streaks := [];
      intervals := [];
      lastDataPoint := None;
      samples := [];
    }

    /** The body of the row loop for one parsed line. */
    method Feed(s: Sample)
      requires Valid()
      modifies this
      ensures Valid() && samples == old(samples) + [s]
    {
      ghost var g := Seg(streaks, current);
      ghost var o := Obs(s.date, Meets(s.temp, threshold));
      ObserveSnoc(samples, s, threshold);
      SegmentSnoc(Observe(samples, threshold), o);
      samples := samples + [s];
      lastDataPoint := Some(s);
      if current.Some? && s.date - current.value.end > DAY_MS {
        RowsSnoc(threshold, streaks, Close(current.value));
        streaks := streaks + [Close(current.value)];
        intervals := intervals + [IntervalRow(threshold, current.value.start, current.value.end)];
        current := None;
      }
      if Meets(s.temp, threshold) {
        if current.None? {
          current := Some(Candidate(s.date, s.date, 1));
        } else {
          current := Some(Candidate(current.value.start, s.date, current.value.count + 1));
        }
      } else {
        if current.Some? {
          RowsSnoc(threshold, streaks, Close(current.value));
          streaks := streaks + [Close(current.value)];
          intervals := intervals + [IntervalRow(threshold, current.value.start, current.value.end)];
          current := None;
        }
      }
      assert Seg(streaks, current) == Step(g, o);
    }

    /** One data line: its sample, when `read` finds one, is fed. */
    method FeedLine(line: string, read: string -> seq<Sample>)
      requires Valid() && |read(line)| <= 1
      modifies this
      ensures Valid() && samples == old(samples) + read(line)
    {
      var parsed := read(line);
      if parsed != [] {
        assert parsed == [parsed[0]];
        Feed(parsed[0]);
      }
    }

    /** The code after the loop: the trailing streak, the `current` entry and the top 10. */
    method Finish(now: int) returns (r: ThresholdResult)
      requires Valid()
      modifies this
      ensures streaks == Finished(old(Seg(streaks, current)), old(lastDataPoint), now)
      ensures Outcome(r, intervals) == Summary(threshold, old(Seg(streaks, current)), old(lastDataPoint), now)
      ensures current == old(current) && lastDataPoint == old(lastDataPoint) && samples == old(samples)
    {
      var ongoingStreak: Option<Entry> := None;
      if current.Some? {
        var c := current.value;
        var ongoing := false;
        if lastDataPoint.Some? && now - lastDataPoint.value.date < ONGOING_WINDOW_MS {
          ongoing := true;
          ongoingStreak := Some(Entry(c.start, lastDataPoint.value.date, lastDataPoint.value.date - c.start, true));
        }
        streaks := streaks + [Streak(c.start, c.end, c.count, c.end - c.start, ongoing)];
        intervals := intervals + [IntervalRow(threshold, c.start, c.end)];
      }
      r := ThresholdResult(Entries(Top10(streaks)), ongoingStreak);
    }
  }

  /**
   * The row loop of `findStreaksForThreshold`: the header is skipped, and
   * every other line that `read` turns into a sample is fed.
   */
  method ScanLines(lines: seq<string>, threshold: int, read: string -> seq<Sample>)
    returns (scan: ThresholdScan)
    requires forall line :: |read(line)| <= 1
    ensures fresh(scan) && scan.Valid() && scan.threshold == threshold
    ensures scan.samples == SamplesWith(lines, read)
  {
    scan := new ThresholdScan(threshold);
    var isFirstLine := true;
    var i := 0;
    while i < |lines|
      invariant 0 <= i <= |lines|
      invariant fresh(scan) && scan.Valid() && scan.threshold == threshold
      invariant scan.samples == SamplesWith(lines[..i], read)
      invariant isFirstLine <==> i == 0
    {
      SamplesSnoc(lines, i, read);
      if isFirstLine {
        isFirstLine := false;
      } else {
        scan.FeedLine(lines[i], read);
      }
      i := i + 1;
    }
    assert lines[..|lines|] == lines;
  }

  /** `findStreaksForThreshold`: one pass over the file for one threshold. */
  method FindStreaksForThreshold(lines: seq<string>, threshold: int, now: int,
                                 parseDate: string -> int, parseTemp: string -> Option<int>)
    returns (result: ThresholdResult, rows: seq<IntervalRow>)
    ensures Outcome(result, rows) == FindStreaks(lines, threshold, now, parseDate, parseTemp)
  {
    var scan := ScanLines(lines, threshold, LineReader(parseDate, parseTemp));
    ghost var g := Seg(scan.streaks, scan.current);
    ghost var last := scan.lastDataPoint;
    assert FindStreaks(lines, threshold, now, parseDate, parseTemp) == Summary(threshold, g, last, now);
    result := scan.Finish(now);
    rows := scan.intervals;
  }

  // ---------------------------------------------------------------------
  // What the pass promises.

  lemma FinishedMatchesAll(g: Seg, last: Option<Sample>, now: int)
    ensures |Finished(g, last, now)| == |AllStreaks(g)|
    ensures forall k :: 0 <= k < |AllStreaks(g)| ==>
      var f, a := Finished(g, last, now)[k], AllStreaks(g)[k];
      f.start == a.start && f.end == a.end && f.count == a.count && f.durationMs == a.durationMs
  {
  }

  /**
   * The interval table of one threshold lists every streak, the trailing
   * one included: one row per maximal run of qualifying rows, in input
   * order, from the run's first row to its last.
   */
  lemma IntervalRowsAreRuns(lines: seq<string>, threshold: int, now: int,
                            parseDate: string -> int, parseTemp: string -> Option<int>)
    ensures var obs := Observe(Samples(lines, parseDate, parseTemp), threshold);
      var rows := FindStreaks(lines, threshold, now, parseDate, parseTemp).rows;
      |rows| == |RunStarts(obs)| == |RunEnds(obs)|
      && forall k :: 0 <= k < |rows| ==> rows[k] == IntervalRow(threshold, RunStarts(obs)[k], RunEnds(obs)[k])
  {
    var samples := Samples(lines, parseDate, parseTemp);
    var obs := Observe(samples, threshold);
    var g := Segment(obs);
    StreaksAreMaximalRuns(obs);
    StartsEndsAt(AllStreaks(g));
    FinishedMatchesAll(g, LastSample(samples), now);
  }

  /** Every summary entry, top 10 and current, appears in the interval table with the same start and end. */
  lemma SummaryInIntervalTable(lines: seq<string>, threshold: int, now: int,
                               parseDate: string -> int, parseTemp: string -> Option<int>)
    ensures var o := FindStreaks(lines, threshold, now, parseDate, parseTemp);
      (forall e :: e in o.result.top10 ==> IntervalRow(threshold, e.start, e.end) in o.rows)
      && (o.result.current.Some? ==>
            IntervalRow(threshold, o.result.current.value.start, o.result.current.value.end) in o.rows)
  {
    var samples := Samples(lines, parseDate, parseTemp);
    var obs := Observe(samples, threshold);
    var g := Segment(obs);
    var all := Finished(g, LastSample(samples), now);
    var o := FindStreaks(lines, threshold, now, parseDate, parseTemp);
    assert o.result.top10 == Entries(Top10(all)) && o.rows == Rows(threshold, all);
    TopRowsListed(threshold, all);
    if o.result.current.Some? {
      OpenTracksLastRow(obs);
      var j := |all| - 1;
      assert o.rows[j] == IntervalRow(threshold, o.result.current.value.start, o.result.current.value.end);
    }
  }

  /** Each of the top ten streaks of a list has its row among the list's rows. */
  lemma TopRowsListed(threshold: int, all: seq<Streak>)
    ensures forall e :: e in Entries(Top10(all)) ==> IntervalRow(threshold, e.start, e.end) in Rows(threshold, all)
  {
    TopTenFacts(all);
    var top, rows := Entries(Top10(all)), Rows(threshold, all);
    forall e | e in top ensures IntervalRow(threshold, e.start, e.end) in rows {
      var k :| 0 <= k < |top| && top[k] == e;
      var s := Top10(all)[k];
      assert s in multiset(all);
      var j :| 0 <= j < |all| && all[j] == s;
      assert rows[j] == IntervalRow(threshold, e.start, e.end);
    }
  }

  /**
   * The current streak: present exactly when the last sample qualifies and
   * is less than 48 h older than `now`; it is the last streak of the list,
   * flagged ongoing there too, and it ends at the last sample, never at `now`.
   */
  lemma CurrentStreakRule(lines: seq<string>, threshold: int, now: int,
                          parseDate: string -> int, parseTemp: string -> Option<int>)
    ensures var samples := Samples(lines, parseDate, parseTemp);
      var o := FindStreaks(lines, threshold, now, parseDate, parseTemp);
      var all := Finished(Segment(Observe(samples, threshold)), LastSample(samples), now);
      (o.result.current.Some? <==>
         samples != [] && Meets(samples[|samples| - 1].temp, threshold) && IsFresh(samples[|samples| - 1].date, now))
      && (o.result.current.Some? ==>
            all != [] && all[|all| - 1].isOngoing
            && o.result.current.value == ToEntry(all[|all| - 1])
            && o.result.current.value.end == samples[|samples| - 1].date)
      && (forall k :: 0 <= k < |all| - 1 ==> !all[k].isOngoing)
  {
    var samples := Samples(lines, parseDate, parseTemp);
    var obs := Observe(samples, threshold);
    OpenTracksLastRow(obs);
    ClosedNotOngoing(obs);
  }

  /** `top10` holds min(10, n) entries in non-increasing duration, each a streak of the list. */
  lemma TopTenRule(lines: seq<string>, threshold: int, now: int,
                   parseDate: string -> int, parseTemp: string -> Option<int>)
    ensures var samples := Samples(lines, parseDate, parseTemp);
      var all := Finished(Segment(Observe(samples, threshold)), LastSample(samples), now);
      var top := FindStreaks(lines, threshold, now, parseDate, parseTemp).result.top10;
      |top| == (if |all| < 10 then |all| else 10)
      && (forall i, j :: 0 <= i < j < |top| ==> top[i].durationMs >= top[j].durationMs)
      && (forall i :: 0 <= i < |top| ==> exists k :: 0 <= k < |all| && top[i] == ToEntry(all[k]))
      && (forall x, i :: x in multiset(all) - multiset(Top10(all)) && 0 <= i < |top| ==> x.durationMs <= top[i].durationMs)
  {
    var samples := Samples(lines, parseDate, parseTemp);
    var all := Finished(Segment(Observe(samples, threshold)), LastSample(samples), now);
    TopTenFacts(all);
    DroppedNoLonger(all);
    var top := Top10(all);
    forall i | 0 <= i < |top| ensures exists k :: 0 <= k < |all| && ToEntry(top[i]) == ToEntry(all[k]) {
      assert top[i] in multiset(all);
      var k :| 0 <= k < |all| && all[k] == top[i];
    }
  }

  /** On time-ordered input every streak has `start <= end` and `durationMs == end - start`. */
  lemma StreaksWellFormed(lines: seq<string>, threshold: int, now: int,
                          parseDate: string -> int, parseTemp: string -> Option<int>)
    requires var samples := Samples(lines, parseDate, parseTemp);
      forall i, j :: 0 <= i <= j < |samples| ==> samples[i].date <= samples[j].date
    ensures var samples := Samples(lines, parseDate, parseTemp);
      var all := Finished(Segment(Observe(samples, threshold)), LastSample(samples), now);
      forall k :: 0 <= k < |all| ==> all[k].start <= all[k].end && all[k].durationMs == all[k].end - all[k].start
  {
    var samples := Samples(lines, parseDate, parseTemp);
    var obs := Observe(samples, threshold);
    assert TimeOrdered(obs) by {
      forall i, j | 0 <= i <= j < |obs| ensures obs[i].date <= obs[j].date {
        assert obs[i].date == samples[i].date && obs[j].date == samples[j].date;
      }
    }
    StreaksInTimeOrder(obs);
    FinishedMatchesAll(Segment(obs), LastSample(samples), now);
  }

  /** A two-column row `date, temp` gives its second field as the temperature. */
  lemma TwoColumnRow(date: string, temp: string, parseDate: string -> int, parseTemp: string -> Option<int>)
    requires !Contains(date, ", ") && !Contains(temp, ", ")
    ensures LineSample(date + ", " + temp, parseDate, parseTemp) == [Sample(parseDate(date), parseTemp(temp))]
  {
    CommaSpaceHasNoBorder();
    assert Join([date, temp], ", ") == date + ", " + temp by {
      assert [date, temp][1..] == [temp];
    }
    SplitJoin([date, temp], ", ");
  }

  /**
   * A four-column row `date, min, max, hour` gives the hourly value, or the
   * second field (the minimum) when the hourly value is empty.
   */
  lemma FourColumnRow(date: string, lo: string, hi: string, hour: string,
                      parseDate: string -> int, parseTemp: string -> Option<int>)
    requires !Contains(date, ", ") && !Contains(lo, ", ") && !Contains(hi, ", ") && !Contains(hour, ", ")
    ensures LineSample(date + ", " + lo + ", " + hi + ", " + hour, parseDate, parseTemp)
      == [Sample(parseDate(date), parseTemp(if hour != "" then hour else lo))]
  {
    CommaSpaceHasNoBorder();
    var parts := [date, lo, hi, hour];
    assert Join(parts, ", ") == date + ", " + lo + ", " + hi + ", " + hour by {
      assert parts[1..] == [lo, hi, hour];
      assert [lo, hi, hour][1..] == [hi, hour];
      assert [hi, hour][1..] == [hour];
      assert Join([hi, hour], ", ") == hi + ", " + hour;
      assert Join([lo, hi, hour], ", ") == lo + ", " + (hi + ", " + hour);
    }
    SplitJoin(parts, ", ");
    assert TempField(parts) == if hour != "" then hour else lo;
  }

  /**
   * The worked example: -5.0 at 00:00, -6.0 at 01:00 and 3.0 at 02:00 against
   * threshold 0 give one streak of one hour and no current entry when the
   * data is old.
   */
  lemma HourlyExample(t: int, now: int)
    requires now - (t + 7_200_000) >= ONGOING_WINDOW_MS
    ensures var samples := [Sample(t, Some(-50)), Sample(t + 3_600_000, Some(-60)), Sample(t + 7_200_000, Some(30))];
      var g := Segment(Observe(samples, 0));
      Finished(g, LastSample(samples), now) == [Streak(t, t + 3_600_000, 2, 3_600_000, false)]
      && Current(g, LastSample(samples), now) == None
  {
    var samples := [Sample(t, Some(-50)), Sample(t + 3_600_000, Some(-60)), Sample(t + 7_200_000, Some(30))];
    var obs := Observe(samples, 0);
    assert obs == [Obs(t, true), Obs(t + 3_600_000, true), Obs(t + 7_200_000, false)];
    assert obs[..2] == [Obs(t, true), Obs(t + 3_600_000, true)];
    assert obs[..2][..1] == [Obs(t, true)];
    assert obs[..2][..1][..0] == [];
    assert Segment(obs[..2][..1]) == Seg([], Some(Candidate(t, t, 1)));
    assert Segment(obs[..2]) == Seg([], Some(Candidate(t, t + 3_600_000, 2)));
    assert Segment(obs) == Seg([Streak(t, t + 3_600_000, 2, 3_600_000, false)], None);
  }

  // ---------------------------------------------------------------------
  // The threshold loop of `generateStreaks`.

  /** Every row a pass writes carries that pass's threshold. */
  lemma RowsLabelled(lines: seq<string>, now: int, parseDate: string -> int, parseTemp: string -> Option<int>,
                     rowsFor: int -> seq<IntervalRow>)
    requires forall t :: rowsFor(t) == FindStreaks(lines, t, now, parseDate, parseTemp).rows
    ensures forall t, k :: 0 <= k < |rowsFor(t)| ==> rowsFor(t)[k].threshold == t
  {
    forall t, k | 0 <= k < |rowsFor(t)| ensures rowsFor(t)[k].threshold == t {
      var samples := Samples(lines, parseDate, parseTemp);
      var all := Finished(Segment(Observe(samples, t)), LastSample(samples), now);
      assert rowsFor(t) == Rows(t, all);
    }
  }

  /** Threshold `t` of the list 0, -1, ..., -25 has its own block of the table. */
  lemma TableComplete(thresholds: seq<int>, rowsFor: int -> seq<IntervalRow>, t: int)
    requires |thresholds| == 26 && forall k :: 0 <= k < 26 ==> thresholds[k] == -k
    requires forall u, k :: 0 <= k < |rowsFor(u)| ==> rowsFor(u)[k].threshold == u
    requires -25 <= t <= 0
    ensures RowsOf(AllRows(thresholds, rowsFor), t) == rowsFor(t)
  {
    assert thresholds[-t] == t;
    IntervalTableByThreshold(thresholds, rowsFor, t);
  }

  datatype Output = Output(streakData: map<int, ThresholdResult>, intervals: seq<IntervalRow>)

  /** `for (let i = 0; i >= -25; i--) thresholds.push(i)`. */
  method Thresholds() returns (ts: seq<int>)
    ensures |ts| == 26
    ensures forall k :: 0 <= k < 26 ==> ts[k] == -k
  {
    ts := [];
    var i := 0;
    while i >= -25
      invariant -26 <= i <= 0
      invariant |ts| == -i
      invariant forall k :: 0 <= k < |ts| ==> ts[k] == -k
    {
      ts := ts + [i];
      i := i - 1;
    }
  }

  /** The interval table: the rows of each threshold in the order the thresholds were processed. */
  function AllRows(ts: seq<int>, rowsFor: int -> seq<IntervalRow>): seq<IntervalRow>
    decreases |ts|
  {
    if ts == [] then [] else AllRows(ts[..|ts| - 1], rowsFor) + rowsFor(ts[|ts| - 1])
  }

  /** The rows of the table that belong to threshold `t`. */
  function RowsOf(rows: seq<IntervalRow>, t: int): seq<IntervalRow>
    decreases |rows|
  {
    if rows == [] then []
    else RowsOf(rows[..|rows| - 1], t) + (if rows[|rows| - 1].threshold == t then [rows[|rows| - 1]] else [])
  }

  lemma {:induction false} RowsOfConcat(a: seq<IntervalRow>, b: seq<IntervalRow>, t: int)
    ensures RowsOf(a + b, t) == RowsOf(a, t) + RowsOf(b, t)
    decreases |b|
  {
    if b != [] {
      assert (a + b)[..|a + b| - 1] == a + b[..|b| - 1];
      RowsOfConcat(a, b[..|b| - 1], t);
    } else {
      assert a + b == a;
    }
  }

  lemma {:induction false} RowsOfUniform(rows: seq<IntervalRow>, t: int, u: int)
    requires forall k :: 0 <= k < |rows| ==> rows[k].threshold == u
    ensures RowsOf(rows, t) == if t == u then rows else []
    decreases |rows|
  {
    if rows != [] {
      RowsOfUniform(rows[..|rows| - 1], t, u);
    }
  }

  /**
   * When every pass labels its rows with its own threshold, looking a
   * threshold up in the table gives exactly the rows its pass wrote.
   */
  lemma {:induction false} IntervalTableByThreshold(ts: seq<int>, rowsFor: int -> seq<IntervalRow>, t: int)
    requires forall i, j :: 0 <= i < j < |ts| ==> ts[i] != ts[j]
    requires forall u, k :: 0 <= k < |rowsFor(u)| ==> rowsFor(u)[k].threshold == u
    ensures RowsOf(AllRows(ts, rowsFor), t) == if t in ts then rowsFor(t) else []
    decreases |ts|
  {
    if ts != [] {
      var init, u := ts[..|ts| - 1], ts[|ts| - 1];
      DistinctInit(ts);
      IntervalTableByThreshold(init, rowsFor, t);
      TableStep(init, u, rowsFor, t);
      assert ts == init + [u];
      if t == u {
        assert t !in init;
      } else {
        assert (t in ts) == (t in init);
      }
    }
  }

  /** Dropping the last of distinct thresholds leaves distinct ones, none equal to it. */
  lemma DistinctInit(ts: seq<int>)
    requires ts != [] && forall i, j :: 0 <= i < j < |ts| ==> ts[i] != ts[j]
    ensures var init := ts[..|ts| - 1];
      (forall i, j :: 0 <= i < j < |init| ==> init[i] != init[j]) && ts[|ts| - 1] !in init
  {
    var init := ts[..|ts| - 1];
    assert forall i :: 0 <= i < |init| ==> init[i] == ts[i];
  }

  /** One more pass adds its own rows to its threshold's lookup and nothing to any other's. */
  lemma TableStep(init: seq<int>, u: int, rowsFor: int -> seq<IntervalRow>, t: int)
    requires forall v, k :: 0 <= k < |rowsFor(v)| ==> rowsFor(v)[k].threshold == v
    ensures RowsOf(AllRows(init + [u], rowsFor), t) == RowsOf(AllRows(init, rowsFor), t) + if t == u then rowsFor(u) else []
  {
    assert (init + [u])[..|init|] == init;
    assert AllRows(init + [u], rowsFor) == AllRows(init, rowsFor) + rowsFor(u);
    RowsOfConcat(AllRows(init, rowsFor), rowsFor(u), t);
    RowsOfUniform(rowsFor(u), t, u);
  }

  /** One pass of the threshold loop, returning the result and rows its threshold is specified to have. */
  method RunPass(lines: seq<string>, threshold: int, now: int, parseDate: string -> int, parseTemp: string -> Option<int>,
                 resultFor: int -> ThresholdResult, rowsFor: int -> seq<IntervalRow>)
    returns (result: ThresholdResult, rows: seq<IntervalRow>)
    requires Outcome(resultFor(threshold), rowsFor(threshold)) == FindStreaks(lines, threshold, now, parseDate, parseTemp)
    ensures result == resultFor(threshold) && rows == rowsFor(threshold)
  {
    result, rows := FindStreaksForThreshold(lines, threshold, now, parseDate, parseTemp);
  }

  /** The threshold loop of `generateStreaks`: one pass per threshold, its result filed under it and its rows appended. */
  method RunPasses(lines: seq<string>, now: int, parseDate: string -> int, parseTemp: string -> Option<int>,
                   thresholds: seq<int>, resultFor: int -> ThresholdResult, rowsFor: int -> seq<IntervalRow>)
    returns (streakData: map<int, ThresholdResult>, intervals: seq<IntervalRow>)
    requires |thresholds| == 26 && forall k :: 0 <= k < 26 ==> thresholds[k] == -k
    requires forall t :: Outcome(resultFor(t), rowsFor(t)) == FindStreaks(lines, t, now, parseDate, parseTemp)
    ensures forall t :: t in streakData <==> -25 <= t <= 0
    ensures forall t :: t in streakData ==> streakData[t] == resultFor(t)
    ensures intervals == AllRows(thresholds, rowsFor)
  {
    streakData := map[];
    intervals := [];
    var i := 0;
    while i < |thresholds|
      invariant 0 <= i <= |thresholds|
      invariant forall t :: t in streakData <==> -i < t <= 0
      invariant forall t :: t in streakData ==> streakData[t] == resultFor(t)
      invariant intervals == AllRows(thresholds[..i], rowsFor)
    {
      var threshold := thresholds[i];
      assert threshold == -i;
      var result, rows := RunPass(lines, threshold, now, parseDate, parseTemp, resultFor, rowsFor);
      ghost var before := streakData;
      streakData := streakData[threshold := result];
      forall t ensures t in streakData <==> -(i + 1) < t <= 0 {
        if t != threshold {
          assert t in streakData <==> t in before;
        }
      }
      assert thresholds[..i + 1][..i] == thresholds[..i];
      intervals := intervals + rows;
      i := i + 1;
    }
    assert thresholds[..|thresholds|] == thresholds;
  }

  /**
   * The interval file as written: the rows of the passes for thresholds
   * 0, -1, ..., -(n - 1), one block after another in that order.
   */
  function IntervalFile(lines: seq<string>, now: int, parseDate: string -> int, parseTemp: string -> Option<int>,
                        n: nat): seq<IntervalRow>
  {
    if n == 0 then [] else IntervalFile(lines, now, parseDate, parseTemp, n - 1) + FindStreaks(lines, -(n - 1), now, parseDate, parseTemp).rows
  }

  /** The rows of `rowsFor` for thresholds 0, -1, ..., -(n - 1), one block after another. */
  function Blocks(rowsFor: int -> seq<IntervalRow>, n: nat): seq<IntervalRow>
  {
    if n == 0 then [] else Blocks(rowsFor, n - 1) + rowsFor(-(n - 1))
  }

  lemma {:induction false} AllRowsIsBlocks(ts: seq<int>, rowsFor: int -> seq<IntervalRow>)
    requires forall k :: 0 <= k < |ts| ==> ts[k] == -k
    ensures AllRows(ts, rowsFor) == Blocks(rowsFor, |ts|)
  {
    if ts != [] {
      var init, n := ts[..|ts| - 1], |ts|;
      assert forall k :: 0 <= k < |init| ==> init[k] == ts[k];
      AllRowsIsBlocks(init, rowsFor);
      assert ts[n - 1] == -(n - 1);
    }
  }

  lemma {:induction false} BlocksIsFile(lines: seq<string>, now: int, parseDate: string -> int, parseTemp: string -> Option<int>,
                                        rowsFor: int -> seq<IntervalRow>, n: nat)
    requires forall t :: rowsFor(t) == FindStreaks(lines, t, now, parseDate, parseTemp).rows
    ensures Blocks(rowsFor, n) == IntervalFile(lines, now, parseDate, parseTemp, n)
  {
    if n > 0 {
      BlocksIsFile(lines, now, parseDate, parseTemp, rowsFor, n - 1);
      assert rowsFor(-(n - 1)) == FindStreaks(lines, -(n - 1), now, parseDate, parseTemp).rows;
    }
  }

  lemma AllRowsIsFile(lines: seq<string>, now: int, parseDate: string -> int, parseTemp: string -> Option<int>,
                      ts: seq<int>, rowsFor: int -> seq<IntervalRow>)
    requires forall k :: 0 <= k < |ts| ==> ts[k] == -k
    requires forall t :: rowsFor(t) == FindStreaks(lines, t, now, parseDate, parseTemp).rows
    ensures AllRows(ts, rowsFor) == IntervalFile(lines, now, parseDate, parseTemp, |ts|)
  {
    AllRowsIsBlocks(ts, rowsFor);
    BlocksIsFile(lines, now, parseDate, parseTemp, rowsFor, |ts|);
  }

  /**
   * `generateStreaks`: nothing when the input file is missing; otherwise one
   * summary entry per threshold 0..-25 and an interval file made of the
   * passes' rows in threshold order, so that each of these thresholds finds
   * exactly the rows its pass wrote.
   */
  method GenerateStreaks(input: Option<seq<string>>, now: int,
                         parseDate: string -> int, parseTemp: string -> Option<int>)
    returns (out: Option<Output>)
    ensures input.None? ==> out.None?
    ensures input.Some? ==> (
      out.Some?
      && (forall t :: t in out.value.streakData <==> -25 <= t <= 0)
      && (forall t :: t in out.value.streakData ==>
            out.value.streakData[t] == FindStreaks(input.value, t, now, parseDate, parseTemp).result)
      && out.value.intervals == IntervalFile(input.value, now, parseDate, parseTemp, 26)
      && (forall t :: -25 <= t <= 0 ==>
            RowsOf(out.value.intervals, t) == FindStreaks(input.value, t, now, parseDate, parseTemp).rows))
  {
    if input.None? {
      return None;
    }
    var lines := input.value;
    var rowsFor := t => FindStreaks(lines, t, now, parseDate, parseTemp).rows;
    var resultFor := t => FindStreaks(lines, t, now, parseDate, parseTemp).result;
    var thresholds := Thresholds();
    var streakData, intervals := RunPasses(lines, now, parseDate, parseTemp, thresholds, resultFor, rowsFor);
    RowsLabelled(lines, now, parseDate, parseTemp, rowsFor);
    AllRowsIsFile(lines, now, parseDate, parseTemp, thresholds, rowsFor);
    forall t | -25 <= t <= 0
      ensures RowsOf(intervals, t) == FindStreaks(lines, t, now, parseDate, parseTemp).rows
    {
      TableComplete(thresholds, rowsFor, t);
    }
    out := Some(Output(streakData, intervals));
  }
}
