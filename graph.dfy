/**
 * graph.js: the pieces of the yearly temperature charts that compute
 * something: thinning a year's points, the tooltip's search for the point
 * under the cursor, the numbered streak list and the clipping of a streak
 * to a year's chart.
 */
module Graph {
  import opened Wrappers
  import opened Common
  import opened Segmenter
  import opened StreakGeneration

  /** One plotted reading. */
  datatype Point = Point(date: int, temp: int)

  // ---------------------------------------------------------------------
  // `downsample`.

  /** `Math.ceil(len / maxPoints)`. */
  function Step(len: nat, maxPoints: nat): (step: nat)
    requires maxPoints > 0
    ensures step * maxPoints >= len
    ensures len > 0 ==> step >= 1 && (step - 1) * maxPoints < len
  {
    var q := (len + maxPoints - 1) / maxPoints;
    assert q * maxPoints + (len + maxPoints - 1) % maxPoints == len + maxPoints - 1;
    q
  }

  /** How many indices `0, step, 2·step, …` lie below `len`. */
  function Taken(len: nat, step: nat): (n: nat)
    requires len > 0 && step > 0
    ensures (n - 1) * step <= len - 1 < n * step
  {
    (len - 1) / step + 1
  }

  /** With `step = ceil(len / maxPoints)`, at most `maxPoints` indices are stepped on. */
  lemma TakenBound(len: nat, maxPoints: nat)
    requires maxPoints > 0 && len > 0
    ensures Taken(len, Step(len, maxPoints)) <= maxPoints
  {
    var step := Step(len, maxPoints);
    var n := Taken(len, step);
    assert (n - 1) * step < maxPoints * step;
    CancelFactor(n - 1, maxPoints, step);
  }

  /** `a·s < b·s` with a positive `s` gives `a < b`. */
  lemma CancelFactor(a: int, b: int, s: int)
    requires s > 0 && a * s < b * s
    ensures a < b
  {
  }

  /** The indices `0, step, 2·step, …` below `|data|`, and the points at them. */
  method Stepped(data: seq<Point>, step: nat) returns (taken: seq<Point>)
    requires |data| > 0 && step > 0
    ensures |taken| == Taken(|data|, step)
    ensures forall k :: 0 <= k < |taken| ==> k * step < |data| && taken[k] == data[k * step]
  {
    ghost var n := Taken(|data|, step);
    taken := [];
    var i := 0;
    while i < |data|
      invariant i == |taken| * step && |taken| <= n
      invariant forall k :: 0 <= k < |taken| ==> k * step < |data| && taken[k] == data[k * step]
      invariant i < |data| ==> |taken| < n
      invariant i >= |data| ==> |taken| == n
      decreases |data| - i
    {
      taken := taken + [data[i]];
      i := i + step;
      assert i == |taken| * step;
      if i < |data| {
        CancelFactor(|taken|, n, step);
      } else {
        CancelFactor(n - 1, |taken|, step);
      }
    }
  }

  /**
   * `downsample(data, maxPoints)`: the points themselves when there are at
   * most `maxPoints`; otherwise every `step`-th point from the first, with
   * `step = ceil(len / maxPoints)`, and the last point appended when it was
   * not stepped on. The points are distinct objects, so the `!==` test is a
   * test on their index.
   */
  method Downsample(data: seq<Point>, maxPoints: nat) returns (sampled: seq<Point>)
    requires maxPoints > 0
    ensures |data| <= maxPoints ==> sampled == data
    ensures |data| > maxPoints ==>
      var step := Step(|data|, maxPoints);
      var n := Taken(|data|, step);
      |sampled| == n + (if (n - 1) * step == |data| - 1 then 0 else 1)
      && (forall k :: 0 <= k < n ==> sampled[k] == data[k * step])
      && sampled[|sampled| - 1] == data[|data| - 1]
      && |sampled| <= maxPoints + 1
  {
    if |data| <= maxPoints {
      return data;
    }
    var step := Step(|data|, maxPoints);
    ghost var n := Taken(|data|, step);
    sampled := Stepped(data, step);
    TakenBound(|data|, maxPoints);
    var lastTaken := (|sampled| - 1) * step;
    if lastTaken != |data| - 1 {
      sampled := sampled + [data[|data| - 1]];
    }
  }

  // ---------------------------------------------------------------------
  // The tooltip search.

  predicate SortedByDate(data: seq<Point>) {
    forall i, j :: 0 <= i < j < |data| ==> data[i].date <= data[j].date
  }

  /**
   * The binary search in the chart's `mousemove` handler. It stays within
   * the points (0 for none, where the caller finds no point); on points
   * sorted by date it finds the first one at or after `target`, or the
   * last one when every point is earlier.
   */
  method PointAt(data: seq<Point>, target: int) returns (left: int)
    ensures |data| == 0 ==> left == 0
    ensures |data| > 0 ==> 0 <= left < |data|
    ensures |data| > 0 && SortedByDate(data) ==>
      (forall j :: 0 <= j < left ==> data[j].date < target)
      && (data[left].date >= target || left == |data| - 1)
  {
    left := 0;
    var right := |data| - 1;
    if |data| == 0 {
      return;
    }
    while left < right
      invariant 0 <= left <= right < |data|
      invariant SortedByDate(data) ==> forall j :: 0 <= j < left ==> data[j].date < target
      invariant right == |data| - 1 || data[right].date >= target
      decreases right - left
    {
      var mid := (left + right) / 2;
      if data[mid].date < target {
        left := mid + 1;
      } else {
        right := mid;
      }
    }
  }

  // ---------------------------------------------------------------------
  // `getTopStreaks`.

  /** The suffix an ongoing streak's duration gets in the chart labels. */
  const ONGOING_SUFFIX: string := " (KÄIMAS)"

  /** A numbered streak of the chart, with its label text. */
  datatype TopStreak = TopStreak(num: nat, from: int, to: int, duration: string)

  /** The label of one streak. */
  function Label(e: Entry): string {
    FormatDuration(e.durationMs) + if e.isOngoing then ONGOING_SUFFIX else ""
  }

  /**
   * `getTopStreaks`: nothing without streak data or without an entry for
   * threshold 0; otherwise the threshold-0 top ten in order, numbered from
   * 1, each with its start, end and label.
   */
  function TopStreaks(data: Option<map<int, ThresholdResult>>): seq<TopStreak>
  {
    if data.None? || 0 !in data.value then []
    else
      var top := data.value[0].top10;
      seq(|top|, i requires 0 <= i < |top| => TopStreak(i + 1, top[i].start, top[i].end, Label(top[i])))
  }

  /**
   * The chart's list for streak data written by the threshold-0 pass: at
   * most ten rows, numbered from 1, longest streak first, each one of the
   * pass's streaks with its start, end and label; none without the data.
   */
  lemma TopStreaksOfPass(data: Option<map<int, ThresholdResult>>, lines: seq<string>, now: int,
                         parseDate: string -> int, parseTemp: string -> Option<int>)
    ensures data.None? || 0 !in data.value ==> TopStreaks(data) == []
    ensures data.Some? && 0 in data.value && data.value[0] == FindStreaks(lines, 0, now, parseDate, parseTemp).result ==>
      var samples := Samples(lines, parseDate, parseTemp);
      var all := Finished(Segment(Observe(samples, 0)), LastSample(samples), now);
      var top, r := data.value[0].top10, TopStreaks(data);
      |r| == |top| == (if |all| < 10 then |all| else 10)
      && (forall i :: 0 <= i < |r| ==>
            r[i].num == i + 1 && r[i].from == top[i].start && r[i].to == top[i].end && r[i].duration == Label(top[i]))
      && (forall i, j :: 0 <= i < j < |top| ==> top[i].durationMs >= top[j].durationMs)
      && (forall i :: 0 <= i < |top| ==> exists k :: 0 <= k < |all| && top[i] == ToEntry(all[k]))
  {
    TopTenRule(lines, 0, now, parseDate, parseTemp);
  }

  // ---------------------------------------------------------------------
  // The year clip rule.

  /** Where a drawn streak is clipped to, and whether it gets its label. */
  datatype Clipped = Clipped(start: int, end: int, labelled: bool)

  /**
   * A streak from `from` to `to` in the chart running from `yearStart` to
   * `yearEnd` (1 January to 30 April 23:59:59): drawn when it overlaps the
   * chart, clipped to it, and labelled when the clipped part is at least
   * half the streak.
   */
  function Clip(from: int, to: int, yearStart: int, yearEnd: int): Option<Clipped> {
    if to >= yearStart && from <= yearEnd then
      var s := if from > yearStart then from else yearStart;
      var e := if to < yearEnd then to else yearEnd;
      Some(Clipped(s, e, 2 * (e - s) >= to - from))
    else None
  }

  /**
   * A streak is drawn exactly when it shares an instant with the chart;
   * the drawn part is the intersection of the two; a streak inside the
   * chart is drawn whole and labelled; one that lies more than half
   * outside it is not labelled.
   */
  predicate Within(t: int, lo: int, hi: int) {
    lo <= t <= hi
  }

  lemma ClipFacts(from: int, to: int, yearStart: int, yearEnd: int)
    requires from <= to && yearStart <= yearEnd
    ensures var c := Clip(from, to, yearStart, yearEnd);
      (c.Some? <==> exists t :: Within(t, from, to) && Within(t, yearStart, yearEnd))
      && (c.Some? ==>
            c.value.start <= c.value.end
            && (forall t :: Within(t, c.value.start, c.value.end) <==> Within(t, from, to) && Within(t, yearStart, yearEnd))
            && (c.value.labelled <==> 2 * (c.value.end - c.value.start) >= to - from))
      && (yearStart <= from && to <= yearEnd ==> c == Some(Clipped(from, to, true)))
  {
    var c := Clip(from, to, yearStart, yearEnd);
    if c.Some? {
      var t := if from > yearStart then from else yearStart;
      assert Within(t, from, to) && Within(t, yearStart, yearEnd);
    }
  }
}
