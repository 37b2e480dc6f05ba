/**
 * analyze_temps.js: the command-line search for the ten longest streaks of
 * one threshold, in "below" (`<=`) or "above" (`>=`) mode, with a 24 h
 * freshness window that stretches an ongoing streak to `now`, and the long
 * "X days, Y hours, Z minutes" duration format.
 */
module AnalyzeTemps {
  import opened Wrappers
  import opened Text
  import opened JsNumber
  import opened Segmenter
  import opened Ranking

  /** 24 hours: the freshness window for the trailing streak. */
  const ONGOING_WINDOW_MS: int := DAY_MS

  /** A parsed data line; `temp` is `None` when `parseFloat` gave `NaN`. */
  datatype Reading = Reading(date: int, temp: Option<int>)

  /** `mode === 'above' ? temp >= threshold : temp <= threshold`; `NaN` meets neither. */
  predicate Meets(temp: Option<int>, threshold: int, mode: string) {
    temp.Some? && if mode == "above" then temp.value >= threshold else temp.value <= threshold
  }

  /** The reading of one data line; a line whose first or second `", "` field is missing or empty gives none. */
  function LineReading(line: string, parseDate: string -> int, parseTemp: string -> Option<int>): seq<Reading> {
    var parts := Split(line, ", ");
    if parts[0] == "" || |parts| < 2 || parts[1] == "" then [] else [Reading(parseDate(parts[0]), parseTemp(parts[1]))]
  }

  /** `LineReading` with the parsers fixed. */
  function LineReader(parseDate: string -> int, parseTemp: string -> Option<int>): string -> seq<Reading> {
    line => LineReading(line, parseDate, parseTemp)
  }

  /** What `read` makes of every line after the header. */
  function ReadingsWith(lines: seq<string>, read: string -> seq<Reading>): seq<Reading>
    decreases |lines|
  {
    if |lines| <= 1 then []
    else ReadingsWith(lines[..|lines| - 1], read) + read(lines[|lines| - 1])
  }

  /** The readings of a file; line 0 is the header. */
  function Readings(lines: seq<string>, parseDate: string -> int, parseTemp: string -> Option<int>): seq<Reading> {
    ReadingsWith(lines, LineReader(parseDate, parseTemp))
  }

  function Observe(rs: seq<Reading>, threshold: int, mode: string): seq<Obs>
  {
    seq(|rs|, i requires 0 <= i < |rs| => Obs(rs[i].date, Meets(rs[i].temp, threshold, mode)))
  }

  /**
   * Observing keeps every reading's date; any mode other than "above" is
   * "below"; a non-numeric reading meets neither; a numeric one meets at
   * least one, and both exactly when it equals the threshold.
   */
  lemma ObserveModes(rs: seq<Reading>, threshold: int, mode: string)
    ensures |Observe(rs, threshold, mode)| == |rs|
    ensures forall i :: 0 <= i < |rs| ==> Observe(rs, threshold, mode)[i].date == rs[i].date
    ensures mode != "above" ==> Observe(rs, threshold, mode) == Observe(rs, threshold, "below")
    ensures forall i :: 0 <= i < |rs| ==>
      var above, below := Observe(rs, threshold, "above")[i].met, Observe(rs, threshold, "below")[i].met;
      (rs[i].temp.None? ==> !above && !below)
      && (rs[i].temp.Some? ==> (above || below) && (above && below <==> rs[i].temp.value == threshold))
  {
  }

  lemma ReadingsSnoc(lines: seq<string>, i: nat, read: string -> seq<Reading>)
    requires i < |lines|
    ensures ReadingsWith(lines[..i + 1], read) == ReadingsWith(lines[..i], read) + if i == 0 then [] else read(lines[i])
  {
    assert lines[..i + 1][..i] == lines[..i];
  }

  /** The trailing streak: stretched to `now` when its last row is less than 24 h old. */
  function CloseTrailing(c: Candidate, now: int): Streak {
    if now - c.end < ONGOING_WINDOW_MS then Streak(c.start, now, c.count, now - c.start, true) else Close(c)
  }

  /** The streak list once the trailing streak, if any, has been pushed. */
  function Finished(g: Seg, now: int): seq<Streak> {
    g.closed + if g.open.Some? then [CloseTrailing(g.open.value, now)] else []
  }

  function AllFound(lines: seq<string>, threshold: int, mode: string, now: int,
                    parseDate: string -> int, parseTemp: string -> Option<int>): seq<Streak>
  {
    Finished(Segment(Observe(Readings(lines, parseDate, parseTemp), threshold, mode)), now)
  }

  /** The value `findLongestStreaks` resolves to. */
  function LongestStreaks(lines: seq<string>, threshold: int, mode: string, now: int,
                          parseDate: string -> int, parseTemp: string -> Option<int>): seq<Streak>
  {
    Top10(AllFound(lines, threshold, mode, now, parseDate, parseTemp))
  }

  /** The locals of `findLongestStreaks`. */
  class StreakSearch {
    const threshold: int
    const mode: string
    var currentStreak: Option<Candidate>
    var streaks: seq<Streak>
    /** The readings consumed so far. */
    ghost var readings: seq<Reading>

    ghost predicate Valid()
      reads this
    {
      Seg(streaks, currentStreak) == Segment(Observe(readings, threshold, mode))
    }

    constructor (threshold: int, mode: string)
      ensures Valid() && this.threshold == threshold && this.mode == mode && readings == []
    {
      this.threshold := threshold;
      this.mode := mode;
      currentStreak := None;
      streaks := [];
      readings := [];
    }

    /** The body of the row loop for one parsed line. */
    method Feed(r: Reading)
      requires Valid()
      modifies this
      ensures Valid() && readings == old(readings) + [r]
    {
      ghost var obs := Observe(readings, threshold, mode);
      ghost var o := Obs(r.date, Meets(r.temp, threshold, mode));
      readings := readings + [r];
      assert Observe(readings, threshold, mode) == obs + [o];
      assert (obs + [o])[..|obs|] == obs;
      if currentStreak.Some? && r.date - currentStreak.value.end > DAY_MS {
        streaks := streaks + [Close(currentStreak.value)];
        currentStreak := None;
      }
      var conditionMet := r.temp.Some? && if mode == "above" then r.temp.value >= threshold else r.temp.value <= threshold;
      if conditionMet {
        if currentStreak.None? {
          currentStreak := Some(Candidate(r.date, r.date, 1));
        } else {
          currentStreak := Some(Candidate(currentStreak.value.start, r.date, currentStreak.value.count + 1));
        }
      } else {
        if currentStreak.Some? {
          streaks := streaks + [Close(currentStreak.value)];
          currentStreak := None;
        }
      }
    }

    /** One line of the row loop after the header: its reading, when `read` finds one, is fed. */
    method FeedLine(line: string, read: string -> seq<Reading>)
      requires Valid() && |read(line)| <= 1
      modifies this
      ensures Valid() && readings == old(readings) + read(line)
    {
      var parsed := read(line);
      if parsed != [] {
        assert parsed == [parsed[0]];
        Feed(parsed[0]);
      }
    }

    /** The code after the loop: push the trailing streak, then sort and keep ten. */
    method Finish(now: int) returns (top: seq<Streak>)
      requires Valid()
      modifies this
      ensures streaks == Finished(old(Seg(streaks, currentStreak)), now)
      ensures top == Top10(streaks)
      ensures currentStreak == old(currentStreak) && readings == old(readings)
    {
      if currentStreak.Some? {
        var c := currentStreak.value;
        var s := Streak(c.start, c.end, c.count, c.end - c.start, false);
        if now - c.end < ONGOING_WINDOW_MS {
          s := Streak(c.start, now, c.count, now - c.start, true);
        }
        streaks := streaks + [s];
      }
      top := Top10(streaks);
    }
  }

  /** The row loop of `findLongestStreaks`: the header is skipped, every other line is read and fed. */
  method ScanLines(lines: seq<string>, threshold: int, mode: string, read: string -> seq<Reading>)
    returns (search: StreakSearch)
    requires forall line :: |read(line)| <= 1
    ensures fresh(search) && search.Valid() && search.threshold == threshold && search.mode == mode
    ensures search.readings == ReadingsWith(lines, read)
  {
    search := new StreakSearch(threshold, mode);
    var isFirstLine := true;
    var i := 0;
    while i < |lines|
      invariant 0 <= i <= |lines|
      invariant fresh(search) && search.Valid() && search.threshold == threshold && search.mode == mode
      invariant search.readings == ReadingsWith(lines[..i], read)
      invariant isFirstLine <==> i == 0
    {
      ReadingsSnoc(lines, i, read);
      if isFirstLine {
        isFirstLine := false;
      } else {
        search.FeedLine(lines[i], read);
      }
      i := i + 1;
    }
    assert lines[..|lines|] == lines;
  }

  /** `findLongestStreaks`. */
  method FindLongestStreaks(lines: seq<string>, threshold: int, mode: string, now: int,
                            parseDate: string -> int, parseTemp: string -> Option<int>)
    returns (top: seq<Streak>)
    ensures top == LongestStreaks(lines, threshold, mode, now, parseDate, parseTemp)
  {
    var search := ScanLines(lines, threshold, mode, LineReader(parseDate, parseTemp));
    ghost var g := Seg(search.streaks, search.currentStreak);
    assert AllFound(lines, threshold, mode, now, parseDate, parseTemp) == Finished(g, now);
    top := search.Finish(now);
  }

  // ---------------------------------------------------------------------
  // What the search promises.

  lemma FinishedVsAll(g: Seg, now: int)
    ensures |Finished(g, now)| == |AllStreaks(g)|
    ensures forall k :: 0 <= k < |AllStreaks(g)| ==>
      Finished(g, now)[k].start == AllStreaks(g)[k].start
      && Finished(g, now)[k].count == AllStreaks(g)[k].count
      && (Finished(g, now)[k] == AllStreaks(g)[k]
          || (k == |AllStreaks(g)| - 1 && g.open.Some? && Finished(g, now)[k] == CloseTrailing(g.open.value, now)))
  {
  }

  lemma FinishedRuns(obs: seq<Obs>, now: int)
    ensures var all := Finished(Segment(obs), now);
      |all| == |RunStarts(obs)| == |RunEnds(obs)|
      && (forall k :: 0 <= k < |all| ==> all[k].start == RunStarts(obs)[k])
      && (forall k :: 0 <= k < |all| && !all[k].isOngoing ==>
            all[k].end == RunEnds(obs)[k] && all[k].durationMs == all[k].end - all[k].start)
      && (forall k :: 0 <= k < |all| && all[k].isOngoing ==> k == |all| - 1)
  {
    var g := Segment(obs);
    var all := Finished(g, now);
    StreaksAreMaximalRuns(obs);
    StartsEndsAt(AllStreaks(g));
    FinishedVsAll(g, now);
    ClosedNotOngoing(obs);
    assert forall k :: 0 <= k < |g.closed| ==> all[k] == g.closed[k];
    forall k | 0 <= k < |all| && !all[k].isOngoing
      ensures all[k].end == RunEnds(obs)[k] && all[k].durationMs == all[k].end - all[k].start
    {
      assert all[k] == AllStreaks(g)[k];
    }
  }

  /**
   * The streaks are the maximal runs of qualifying rows, in input order;
   * every streak but an ongoing one ends at its run's last row with
   * `durationMs == end - start`, and only the last streak can be ongoing.
   */
  lemma StreaksAreRuns(lines: seq<string>, threshold: int, mode: string, now: int,
                       parseDate: string -> int, parseTemp: string -> Option<int>)
    ensures var obs := Observe(Readings(lines, parseDate, parseTemp), threshold, mode);
      var all := AllFound(lines, threshold, mode, now, parseDate, parseTemp);
      |all| == |RunStarts(obs)| == |RunEnds(obs)|
      && (forall k :: 0 <= k < |all| ==> all[k].start == RunStarts(obs)[k])
      && (forall k :: 0 <= k < |all| && !all[k].isOngoing ==>
            all[k].end == RunEnds(obs)[k] && all[k].durationMs == all[k].end - all[k].start)
      && (forall k :: 0 <= k < |all| && all[k].isOngoing ==> k == |all| - 1)
  {
    FinishedRuns(Observe(Readings(lines, parseDate, parseTemp), threshold, mode), now);
  }

  /**
   * The trailing streak exists exactly when the last row qualifies; it
   * holds the rows of the trailing run; it is ongoing exactly when that row
   * is less than 24 h older than `now`, and then it ends at `now` with
   * `durationMs == now - start`; otherwise it ends at that row.
   */
  lemma TrailingStreakRule(lines: seq<string>, threshold: int, mode: string, now: int,
                           parseDate: string -> int, parseTemp: string -> Option<int>)
    ensures var obs := Observe(Readings(lines, parseDate, parseTemp), threshold, mode);
      var all := AllFound(lines, threshold, mode, now, parseDate, parseTemp);
      (TrailingRun(obs) > 0 <==> obs != [] && obs[|obs| - 1].met)
      && (TrailingRun(obs) > 0 ==>
            TrailingRun(obs) <= |obs| && all != []
            && var s, last := all[|all| - 1], obs[|obs| - 1].date;
            s.start == obs[|obs| - TrailingRun(obs)].date
            && s.count == TrailingRun(obs)
            && (s.isOngoing <==> now - last < ONGOING_WINDOW_MS)
            && (s.isOngoing ==> s.end == now && s.durationMs == now - s.start)
            && (!s.isOngoing ==> s.end == last && s.durationMs == last - s.start))
      && (TrailingRun(obs) == 0 ==> forall k :: 0 <= k < |all| ==> !all[k].isOngoing)
  {
    var obs := Observe(Readings(lines, parseDate, parseTemp), threshold, mode);
    OpenIsTrailingRun(obs);
    OpenTracksLastRow(obs);
    ClosedNotOngoing(obs);
  }

  /** Every qualifying row is counted in exactly one of the streaks found. */
  lemma RowsCounted(lines: seq<string>, threshold: int, mode: string, now: int,
                    parseDate: string -> int, parseTemp: string -> Option<int>)
    ensures var obs := Observe(Readings(lines, parseDate, parseTemp), threshold, mode);
      TotalCount(AllFound(lines, threshold, mode, now, parseDate, parseTemp)) == CountMet(obs)
  {
    var obs := Observe(Readings(lines, parseDate, parseTemp), threshold, mode);
    var g := Segment(obs);
    CountsAddUp(obs);
    if g.open.Some? {
      TotalCountSnoc(g.closed, Close(g.open.value));
      TotalCountSnoc(g.closed, CloseTrailing(g.open.value, now));
    } else {
      assert AllStreaks(g) == g.closed;
      assert Finished(g, now) == g.closed;
    }
  }

  /** The result holds min(10, n) streaks in non-increasing duration, each one of the streaks found. */
  lemma TopTenRule(lines: seq<string>, threshold: int, mode: string, now: int,
                   parseDate: string -> int, parseTemp: string -> Option<int>)
    ensures var all := AllFound(lines, threshold, mode, now, parseDate, parseTemp);
      var top := LongestStreaks(lines, threshold, mode, now, parseDate, parseTemp);
      |top| == (if |all| < 10 then |all| else 10)
      && (forall i, j :: 0 <= i < j < |top| ==> top[i].durationMs >= top[j].durationMs)
      && multiset(top) <= multiset(all)
      && (forall x, i :: x in multiset(all) - multiset(top) && 0 <= i < |top| ==> x.durationMs <= top[i].durationMs)
  {
    TopTenFacts(AllFound(lines, threshold, mode, now, parseDate, parseTemp));
    DroppedNoLonger(AllFound(lines, threshold, mode, now, parseDate, parseTemp));
  }

  // ---------------------------------------------------------------------
  // `formatDuration`: "X days, Y hours, Z minutes".

  datatype Dhm = Dhm(days: int, hours: int, minutes: int)

  /** `totalMinutes = floor(ms / 60000)` split into days, hours and minutes with JavaScript's `%`. */
  function Breakdown(ms: int): (b: Dhm)
    ensures ms >= 0 ==> (b.days >= 0 && 0 <= b.hours < 24 && 0 <= b.minutes < 60
                         && b.days * 1440 + b.hours * 60 + b.minutes == ms / 60000)
    ensures ms < 60000 ==> b.days <= 0 && b.hours <= 0 && b.minutes <= 0
    ensures ms >= 60000 ==> b.days > 0 || b.hours > 0 || b.minutes > 0
  {
    var totalMinutes := ms / 60000;
    var b := Dhm(totalMinutes / 1440, JsRem(totalMinutes, 1440) / 60, JsRem(totalMinutes, 60));
    DecomposeMinutes(totalMinutes);
    b
  }

  lemma DecomposeMinutes(t: int)
    ensures t >= 0 ==> (t / 1440) * 1440 + ((t % 1440) / 60) * 60 + t % 60 == t
    ensures t >= 0 ==> 0 <= (t % 1440) / 60 < 24
  {
    var d, r := t / 1440, t % 1440;
    assert t == d * 1440 + r;
    var h, m := r / 60, r % 60;
    assert r == h * 60 + m;
    assert t == (d * 24 + h) * 60 + m;
    assert t % 60 == m;
  }

  /** `${n} unit`, with an `s` unless `n` is 1. */
  function Part(n: nat, unit: string): string {
    NatToString(n) + " " + unit + if n != 1 then "s" else ""
  }

  function OptionalPart(n: int, unit: string): seq<string> {
    if n > 0 then [Part(n, unit)] else []
  }

  /** The non-zero components, each as a part, in the order days, hours, minutes. */
  function Parts(b: Dhm): seq<string> {
    OptionalPart(b.days, "day") + OptionalPart(b.hours, "hour") + OptionalPart(b.minutes, "minute")
  }

  /** `formatDuration(ms)`. */
  function FormatDuration(ms: int): string {
    var parts := Parts(Breakdown(ms));
    if |parts| > 0 then Join(parts, ", ") else "0 minutes"
  }

  // Reading a formatted duration back.

  function UnitMinutes(u: string): int {
    if u == "day" || u == "days" then 1440
    else if u == "hour" || u == "hours" then 60
    else if u == "minute" || u == "minutes" then 1
    else 0
  }

  /** The minutes a part `N unit` stands for. */
  function PartMinutes(p: string): int {
    var k := FirstIndex(p, " ");
    if k < 0 || !AllDigits(p[..k]) then 0 else DigitsValue(p[..k]) * UnitMinutes(p[k + 1..])
  }

  function ReadParts(ps: seq<string>): int
    decreases |ps|
  {
    if ps == [] then 0 else PartMinutes(ps[0]) + ReadParts(ps[1..])
  }

  /** The number of minutes a formatted duration denotes. */
  function ReadDuration(s: string): int {
    ReadParts(Split(s, ", "))
  }

  // A strict reader: it accepts only what `formatDuration` promises to write.

  /** The minutes a singular unit word stands for. */
  function WordMinutes(w: string): Option<int> {
    if w == "day" then Some(1440) else if w == "hour" then Some(60) else if w == "minute" then Some(1) else None
  }

  /** A part read strictly: how many of which unit, the unit in minutes. */
  datatype Amount = Amount(count: nat, unit: int)

  /** The unit word after the number `n`, read strictly: singular exactly when `n` is 1. */
  function StrictWord(n: nat, w: string): Option<Amount> {
    var word := if n == 1 then Some(w) else if |w| > 0 && w[|w| - 1] == 's' then Some(w[..|w| - 1]) else None;
    if word.None? || WordMinutes(word.value).None? then None else Some(Amount(n, WordMinutes(word.value).value))
  }

  /**
   * A part read strictly: a positive number written without leading zeros,
   * one space, and a unit word read by `StrictWord`.
   */
  function StrictPart(p: string): Option<Amount> {
    var k := FirstIndex(p, " ");
    if k <= 0 || !AllDigits(p[..k]) || p[0] == '0' then None
    else StrictWord(DigitsValue(p[..k]), p[k + 1..])
  }

  /** A unit `u` of `n` may follow a part of unit `above`: a smaller unit, hours below 24, minutes below 60. */
  predicate MayFollow(a: Amount, above: Option<int>) {
    (above.None? || a.unit < above.value) && (a.unit == 60 ==> a.count < 24) && (a.unit == 1 ==> a.count < 60)
  }

  /**
   * Parts read strictly with `read`: units in the order days, hours,
   * minutes, each at most once, hours below 24 and minutes below 60.
   * `above` is the unit of the previous part.
   */
  function StrictParts(ps: seq<string>, above: Option<int>, read: string -> Option<Amount>): Option<int>
    decreases |ps|
  {
    if ps == [] then Some(0)
    else
      var a := read(ps[0]);
      if a.None? || !MayFollow(a.value, above) then None
      else
        var rest := StrictParts(ps[1..], Some(a.value.unit), read);
        if rest.None? then None else Some(a.value.count * a.value.unit + rest.value)
  }

  /** The ending a unit word takes after the number `n`. */
  function Plural(n: nat): string {
    if n == 1 then "" else "s"
  }

  /** The strict reader accepts exactly the three unit words with the ending the number takes. */
  lemma StrictWordIff(n: nat, w: string)
    ensures StrictWord(n, w).Some? <==> w == "day" + Plural(n) || w == "hour" + Plural(n) || w == "minute" + Plural(n)
  {
    if n != 1 && |w| > 0 {
      assert w == w[..|w| - 1] + [w[|w| - 1]];
    }
  }

  /** After a positive number, a part is read by its word. */
  lemma StrictPartOfNumber(n: nat, w: string)
    requires n > 0
    ensures StrictPart(NatToString(n) + " " + w) == StrictWord(n, w)
  {
    var d := NatToString(n);
    var p := d + " " + w;
    DigitsHaveNoSpaceOrComma(n);
    FirstIndexAfter(d, " ", w);
    assert p[..|d|] == d && p[|d| + 1..] == w && p[0] == d[0];
  }

  /** A number written with a leading zero, `0` included, is refused whatever follows. */
  lemma LeadingZeroRefused(e: string, w: string)
    requires AllDigits(e) && e != [] && e[0] == '0'
    ensures StrictPart(e + " " + w).None?
  {
    var q := e + " " + w;
    assert forall i :: 0 <= i < |e| ==> e[i] != ' ';
    FirstIndexAfter(e, " ", w);
    assert q[0] == '0';
  }

  /** A duration read strictly: "0 minutes", or one or more strict parts separated by `", "`. */
  function StrictDuration(s: string): Option<int> {
    if s == "0 minutes" then Some(0) else StrictParts(Split(s, ", "), None, StrictPart)
  }

  lemma {:induction false} ReadPartsAppend(a: seq<string>, b: seq<string>)
    ensures ReadParts(a + b) == ReadParts(a) + ReadParts(b)
    decreases |a|
  {
    if a != [] {
      assert (a + b)[1..] == a[1..] + b;
      ReadPartsAppend(a[1..], b);
    } else {
      assert a + b == b;
    }
  }

  lemma DigitsHaveNoSpaceOrComma(n: nat)
    ensures forall i :: 0 <= i < |NatToString(n)| ==> NatToString(n)[i] != ' ' && NatToString(n)[i] != ','
  {
    var d := NatToString(n);
    assert forall i :: 0 <= i < |d| ==> IsDigit(d[i]);
  }

  /** `digits unit`: the first space follows the digits, and there is no `", "`. */
  lemma PartPieces(n: nat, tail: string)
    requires forall i :: 0 <= i < |tail| ==> tail[i] != ','
    ensures var d, p := NatToString(n), NatToString(n) + " " + tail;
      FirstIndex(p, " ") == |d| && p[..|d|] == d && p[|d| + 1..] == tail && !Contains(p, ", ")
  {
    var d := NatToString(n);
    var p := d + " " + tail;
    DigitsHaveNoSpaceOrComma(n);
    FirstIndexAfter(d, " ", tail);
    assert p[..|d|] == d;
    assert p[|d| + 1..] == tail;
    forall i | 0 <= i < |p| ensures p[i] != ',' {
      if i < |d| {
        assert p[i] == d[i];
      } else if i > |d| {
        assert p[i] == tail[i - |d| - 1];
      }
    }
    MissingFirstChar(p, ", ");
  }

  /** A unit word, singular or plural, has no comma and stands for its unit's minutes. */
  lemma UnitTail(n: nat, unit: string)
    requires unit == "day" || unit == "hour" || unit == "minute"
    ensures var tail := unit + if n != 1 then "s" else "";
      (forall i :: 0 <= i < |tail| ==> tail[i] != ',') && UnitMinutes(tail) == UnitMinutes(unit)
  {
  }

  /** The unit word with its ending is read back as that unit. */
  lemma StrictWordOfUnit(n: nat, unit: string)
    requires unit == "day" || unit == "hour" || unit == "minute"
    ensures StrictWord(n, unit + Plural(n)) == Some(Amount(n, UnitMinutes(unit)))
  {
    var w := unit + Plural(n);
    if n != 1 {
      assert w[..|w| - 1] == unit;
    }
  }

  /**
   * A part reads back as its number times its unit, and holds no `", "`.
   * A positive part also reads strictly: its unit word is singular exactly
   * when the number is 1.
   */
  lemma PartReadsBack(n: nat, unit: string)
    requires unit == "day" || unit == "hour" || unit == "minute"
    ensures PartMinutes(Part(n, unit)) == n * UnitMinutes(unit)
    ensures !Contains(Part(n, unit), ", ")
    ensures n > 0 ==> StrictPart(Part(n, unit)) == Some(Amount(n, UnitMinutes(unit)))
  {
    var tail := unit + if n != 1 then "s" else "";
    UnitTail(n, unit);
    PartPieces(n, tail);
    assert Part(n, unit) == NatToString(n) + " " + tail;
    assert tail == unit + Plural(n);
    if n > 0 {
      StrictPartOfNumber(n, tail);
      StrictWordOfUnit(n, unit);
    }
  }

  lemma ZeroMinutesReadsBack()
    ensures ReadDuration("0 minutes") == 0
  {
    var z := Part(0, "minute");
    assert z == "0 minutes";
    PartReadsBack(0, "minute");
    SplitWithout(z, ", ");
    assert ReadParts([z]) == PartMinutes(z) + ReadParts([]);
  }

  lemma OptionalPartReadsBack(n: int, unit: string)
    requires n >= 0 && (unit == "day" || unit == "hour" || unit == "minute")
    ensures ReadParts(OptionalPart(n, unit)) == n * UnitMinutes(unit)
    ensures forall i :: 0 <= i < |OptionalPart(n, unit)| ==> !Contains(OptionalPart(n, unit)[i], ", ")
  {
    if n > 0 {
      PartReadsBack(n, unit);
      assert OptionalPart(n, unit)[1..] == [];
    }
  }

  /** The listed parts add up to the minutes of the components. */
  lemma ReadPartsOfBreakdown(b: Dhm)
    requires b.days >= 0 && b.hours >= 0 && b.minutes >= 0
    ensures ReadParts(Parts(b)) == b.days * 1440 + b.hours * 60 + b.minutes
  {
    var pd, ph, pm := OptionalPart(b.days, "day"), OptionalPart(b.hours, "hour"), OptionalPart(b.minutes, "minute");
    OptionalPartReadsBack(b.days, "day");
    OptionalPartReadsBack(b.hours, "hour");
    OptionalPartReadsBack(b.minutes, "minute");
    assert ReadParts(pd) == b.days * 1440;
    assert ReadParts(ph) == b.hours * 60;
    assert ReadParts(pm) == b.minutes;
    ReadPartsAppend(pd, ph);
    ReadPartsAppend(pd + ph, pm);
  }

  lemma PartsHaveNoSeparator(b: Dhm)
    requires b.days >= 0 && b.hours >= 0 && b.minutes >= 0
    ensures forall i :: 0 <= i < |Parts(b)| ==> !Contains(Parts(b)[i], ", ")
  {
    OptionalPartReadsBack(b.days, "day");
    OptionalPartReadsBack(b.hours, "hour");
    OptionalPartReadsBack(b.minutes, "minute");
  }

  /** One strict part in front of strictly read parts. */
  lemma StrictCons(ps: seq<string>, above: Option<int>, read: string -> Option<Amount>, a: Amount, v: int)
    requires ps != [] && read(ps[0]) == Some(a) && MayFollow(a, above)
    requires StrictParts(ps[1..], Some(a.unit), read) == Some(v)
    ensures StrictParts(ps, above, read) == Some(a.count * a.unit + v)
  {
  }

  /** An optional part, then strictly read parts. */
  lemma OptionalCons(q: seq<string>, rest: seq<string>, above: Option<int>, read: string -> Option<Amount>, a: Amount, v: int)
    requires q == [] || (|q| == 1 && read(q[0]) == Some(a) && MayFollow(a, above))
    requires StrictParts(rest, if q == [] then above else Some(a.unit), read) == Some(v)
    ensures StrictParts(q + rest, above, read) == Some((if q == [] then 0 else a.count * a.unit) + v)
  {
    if q == [] {
      assert q + rest == rest;
    } else {
      assert (q + rest)[0] == q[0] && (q + rest)[1..] == rest;
      StrictCons(q + rest, above, read, a, v);
    }
  }

  lemma MinutesStrict(m: int, above: Option<int>, read: string -> Option<Amount>)
    requires 0 <= m < 60 && (above.None? || above.value > 1)
    requires m > 0 ==> read(Part(m, "minute")) == Some(Amount(m, 1))
    ensures StrictParts(OptionalPart(m, "minute"), above, read) == Some(m)
  {
    var q := OptionalPart(m, "minute");
    assert q + [] == q;
    OptionalCons(q, [], above, read, Amount(m, 1), 0);
  }

  lemma HoursStrict(h: int, m: int, above: Option<int>, read: string -> Option<Amount>)
    requires 0 <= h < 24 && 0 <= m < 60 && (above.None? || above.value > 60)
    requires h > 0 ==> read(Part(h, "hour")) == Some(Amount(h, 60))
    requires m > 0 ==> read(Part(m, "minute")) == Some(Amount(m, 1))
    ensures StrictParts(OptionalPart(h, "hour") + OptionalPart(m, "minute"), above, read) == Some(h * 60 + m)
  {
    var q := OptionalPart(h, "hour");
    MinutesStrict(m, if q == [] then above else Some(60), read);
    OptionalCons(q, OptionalPart(m, "minute"), above, read, Amount(h, 60), m);
  }

  lemma PartsRegroup(b: Dhm)
    ensures Parts(b) == OptionalPart(b.days, "day") + (OptionalPart(b.hours, "hour") + OptionalPart(b.minutes, "minute"))
  {
  }

  lemma DaysThenRestStrict(b: Dhm, read: string -> Option<Amount>)
    requires b.days >= 0 && 0 <= b.hours < 24 && 0 <= b.minutes < 60
    requires b.days > 0 ==> read(Part(b.days, "day")) == Some(Amount(b.days, 1440))
    requires b.hours > 0 ==> read(Part(b.hours, "hour")) == Some(Amount(b.hours, 60))
    requires b.minutes > 0 ==> read(Part(b.minutes, "minute")) == Some(Amount(b.minutes, 1))
    ensures StrictParts(OptionalPart(b.days, "day") + (OptionalPart(b.hours, "hour") + OptionalPart(b.minutes, "minute")), None, read)
         == Some(b.days * 1440 + b.hours * 60 + b.minutes)
  {
    var q, rest := OptionalPart(b.days, "day"), OptionalPart(b.hours, "hour") + OptionalPart(b.minutes, "minute");
    HoursStrict(b.hours, b.minutes, if q == [] then None else Some(1440), read);
    OptionalCons(q, rest, None, read, Amount(b.days, 1440), b.hours * 60 + b.minutes);
  }

  /** The parts of a breakdown read strictly to its minutes. */
  lemma PartsStrict(b: Dhm, read: string -> Option<Amount>)
    requires b.days >= 0 && 0 <= b.hours < 24 && 0 <= b.minutes < 60
    requires b.days > 0 ==> read(Part(b.days, "day")) == Some(Amount(b.days, 1440))
    requires b.hours > 0 ==> read(Part(b.hours, "hour")) == Some(Amount(b.hours, 60))
    requires b.minutes > 0 ==> read(Part(b.minutes, "minute")) == Some(Amount(b.minutes, 1))
    ensures StrictParts(Parts(b), None, read) == Some(b.days * 1440 + b.hours * 60 + b.minutes)
  {
    PartsRegroup(b);
    DaysThenRestStrict(b, read);
  }

  lemma PartsReadStrictly(b: Dhm)
    requires b.days >= 0 && 0 <= b.hours < 24 && 0 <= b.minutes < 60
    ensures StrictParts(Parts(b), None, StrictPart) == Some(b.days * 1440 + b.hours * 60 + b.minutes)
  {
    PartReadsBack(b.days, "day");
    PartReadsBack(b.hours, "hour");
    PartReadsBack(b.minutes, "minute");
    PartsStrict(b, StrictPart);
  }

  /** Joined parts other than "0 minutes" are read strictly part by part. */
  lemma StrictOfJoin(parts: seq<string>, text: string)
    requires parts != [] && text == Join(parts, ", ") && text != "0 minutes"
    requires forall i :: 0 <= i < |parts| ==> !Contains(parts[i], ", ")
    ensures StrictDuration(text) == StrictParts(Split(text, ", "), None, StrictPart)
    ensures Split(text, ", ") == parts
  {
    CommaSpaceHasNoBorder();
    SplitJoin(parts, ", ");
  }

  /** The joined parts of a breakdown with some positive component read strictly to its minutes. */
  lemma StrictOfBreakdown(b: Dhm, text: string)
    requires b.days >= 0 && 0 <= b.hours < 24 && 0 <= b.minutes < 60
    requires b.days > 0 || b.hours > 0 || b.minutes > 0
    requires text == Join(Parts(b), ", ") && text != "0 minutes"
    ensures StrictDuration(text) == Some(b.days * 1440 + b.hours * 60 + b.minutes)
  {
    var parts := Parts(b);
    assert parts != [] by {
      assert |parts| == |OptionalPart(b.days, "day")| + |OptionalPart(b.hours, "hour")| + |OptionalPart(b.minutes, "minute")|;
    }
    PartsHaveNoSeparator(b);
    StrictOfJoin(parts, text);
    PartsReadStrictly(b);
  }

  /** A positive duration is written as its joined parts. */
  lemma FormatDurationJoins(ms: int)
    requires ms >= 60000
    ensures FormatDuration(ms) == Join(Parts(Breakdown(ms)), ", ") && FormatDuration(ms) != "0 minutes"
  {
    ZeroMinutesIff(ms);
  }

  /** The text of a positive duration reads strictly to its minutes. */
  lemma FormatDurationStrict(ms: int)
    requires ms >= 60000
    ensures StrictDuration(FormatDuration(ms)) == Some(ms / 60000)
  {
    var b, text := Breakdown(ms), FormatDuration(ms);
    FormatDurationJoins(ms);
    StrictOfBreakdown(b, text);
  }

  /**
   * Reading the formatted text back recovers `floor(ms / 60000)`, the
   * minutes it was made from. It also reads strictly: zero components are
   * left out, the units come in the order days, hours, minutes, and each
   * unit is singular exactly when its number is 1.
   */
  lemma FormatDurationReadsBack(ms: int)
    requires ms >= 0
    ensures ReadDuration(FormatDuration(ms)) == ms / 60000
    ensures StrictDuration(FormatDuration(ms)) == Some(ms / 60000)
  {
    var b := Breakdown(ms);
    var parts := Parts(b);
    if |parts| == 0 {
      ZeroMinutesReadsBack();
    } else {
      ReadPartsOfBreakdown(b);
      PartsHaveNoSeparator(b);
      CommaSpaceHasNoBorder();
      SplitJoin(parts, ", ");
      ZeroMinutesIff(ms);
      FormatDurationStrict(ms);
    }
  }

  /** The text is "0 minutes" exactly when less than one whole minute is given, negative durations included. */
  lemma ZeroMinutesIff(ms: int)
    ensures FormatDuration(ms) == "0 minutes" <==> ms < 60000
  {
    var b := Breakdown(ms);
    var parts := Parts(b);
    if ms >= 60000 {
      var n := if b.days > 0 then b.days else if b.hours > 0 then b.hours else b.minutes;
      var u := if b.days > 0 then "day" else if b.hours > 0 then "hour" else "minute";
      assert parts[0] == Part(n, u);
      assert Part(n, u)[0] == NatToString(n)[0];
      assert Join(parts, ", ")[0] == parts[0][0];
    }
  }
}
