/**
 * The single forward pass that cuts a time-ordered series of observations
 * into streaks. It is the loop that generate_streaks.js and analyze_temps.js
 * both run: each observation carries its timestamp and whether it meets the
 * threshold condition (which of the two files decides how).
 */
module Segmenter {
  import opened Wrappers

  /** 24 hours in milliseconds: a longer silence always ends a streak. */
  const DAY_MS: int := 86_400_000

  /** A row reduced to what the segmenter looks at. */
  datatype Obs = Obs(date: int, met: bool)

  /** The streak in progress: first and last qualifying timestamp and the rows absorbed. */
  datatype Candidate = Candidate(start: int, end: int, count: nat)

  /** A closed streak as the scripts push it. */
  datatype Streak = Streak(start: int, end: int, count: nat, durationMs: int, isOngoing: bool)

  /** The segmenter's state: streaks closed so far, in input order, and the open one. */
  datatype Seg = Seg(closed: seq<Streak>, open: Option<Candidate>)

  /** Closing a candidate sets `durationMs = end - start`. */
  function Close(c: Candidate): Streak
  {
    Streak(c.start, c.end, c.count, c.end - c.start, false)
  }

  /** The gap test, made before the row's condition is looked at (strict `>`). */
  predicate GapCloses(g: Seg, date: int) {
    g.open.Some? && date - g.open.value.end > DAY_MS
  }

  /** One iteration of the row loop. */
  function Step(g: Seg, o: Obs): Seg {
    var g1 := if GapCloses(g, o.date) then Seg(g.closed + [Close(g.open.value)], None) else g;
    if o.met then
      if g1.open.None? then Seg(g1.closed, Some(Candidate(o.date, o.date, 1)))
      else Seg(g1.closed, Some(Candidate(g1.open.value.start, o.date, g1.open.value.count + 1)))
    else if g1.open.Some? then Seg(g1.closed + [Close(g1.open.value)], None)
    else g1
  }

  /** The state after the loop has consumed `obs`. */
  function Segment(obs: seq<Obs>): Seg
    decreases |obs|
  {
    if obs == [] then Seg([], None) else Step(Segment(obs[..|obs| - 1]), obs[|obs| - 1])
  }

  /** One more row is one more step. */
  lemma SegmentSnoc(obs: seq<Obs>, o: Obs)
    ensures Segment(obs + [o]) == Step(Segment(obs), o)
  {
    assert (obs + [o])[..|obs|] == obs;
  }

  /** All streaks, the open one closed at its last row. */
  function AllStreaks(g: Seg): seq<Streak> {
    g.closed + if g.open.Some? then [Close(g.open.value)] else []
  }

  function Starts(ss: seq<Streak>): seq<int>
    decreases |ss|
  {
    if ss == [] then [] else Starts(ss[..|ss| - 1]) + [ss[|ss| - 1].start]
  }

  function Ends(ss: seq<Streak>): seq<int>
    decreases |ss|
  {
    if ss == [] then [] else Ends(ss[..|ss| - 1]) + [ss[|ss| - 1].end]
  }

  lemma StartsSnoc(ss: seq<Streak>, s: Streak)
    ensures Starts(ss + [s]) == Starts(ss) + [s.start]
    ensures Ends(ss + [s]) == Ends(ss) + [s.end]
  {
    assert (ss + [s])[..|ss|] == ss;
  }

  lemma {:induction false} StartsEndsAt(ss: seq<Streak>)
    ensures |Starts(ss)| == |ss| && |Ends(ss)| == |ss|
    ensures forall k :: 0 <= k < |ss| ==> Starts(ss)[k] == ss[k].start && Ends(ss)[k] == ss[k].end
    decreases |ss|
  {
    if ss != [] {
      StartsEndsAt(ss[..|ss| - 1]);
    }
  }

  // ---------------------------------------------------------------------
  // An independent description of the streaks: maximal runs of qualifying
  // rows in which no two consecutive rows are more than 24 h apart.

  /** Row `i` belongs to the same run as row `i - 1`. */
  predicate Continues(obs: seq<Obs>, i: nat)
    requires 0 < i < |obs|
  {
    obs[i - 1].met && obs[i].met && obs[i].date - obs[i - 1].date <= DAY_MS
  }

  /** Row `i` is the first row of a run. */
  predicate StartsRun(obs: seq<Obs>, i: nat)
    requires i < |obs|
  {
    obs[i].met && (i == 0 || !Continues(obs, i))
  }

  /** Row `i` is the last row of a run. */
  predicate EndsRun(obs: seq<Obs>, i: nat)
    requires i < |obs|
  {
    obs[i].met && (i == |obs| - 1 || !Continues(obs, i + 1))
  }

  /** The timestamps of the rows that start a run, in input order. */
  function RunStarts(obs: seq<Obs>): seq<int>
    decreases |obs|
  {
    if obs == [] then []
    else RunStarts(obs[..|obs| - 1]) + if StartsRun(obs, |obs| - 1) then [obs[|obs| - 1].date] else []
  }

  /** The timestamps of the rows that end a run and are followed by another row. */
  function InnerRunEnds(obs: seq<Obs>): seq<int>
    decreases |obs|
  {
    if |obs| <= 1 then []
    else InnerRunEnds(obs[..|obs| - 1]) + if EndsRun(obs, |obs| - 2) then [obs[|obs| - 2].date] else []
  }

  /** The timestamps of the rows that end a run, in input order. */
  function RunEnds(obs: seq<Obs>): seq<int> {
    InnerRunEnds(obs) + if obs != [] && obs[|obs| - 1].met then [obs[|obs| - 1].date] else []
  }

  /** A streak is open exactly when the last row qualified, and it ends at that row. */
  lemma {:induction false} OpenTracksLastRow(obs: seq<Obs>)
    ensures obs == [] ==> Segment(obs) == Seg([], None)
    ensures obs != [] ==> (Segment(obs).open.Some? <==> obs[|obs| - 1].met)
    ensures obs != [] && Segment(obs).open.Some? ==> Segment(obs).open.value.end == obs[|obs| - 1].date
  {
    if obs != [] {
      OpenTracksLastRow(obs[..|obs| - 1]);
    }
  }

  /** The number of rows in the run that the last row belongs to (0 when it does not qualify). */
  function TrailingRun(obs: seq<Obs>): nat
    decreases |obs|
  {
    if obs == [] || !obs[|obs| - 1].met then 0
    else if |obs| >= 2 && Continues(obs, |obs| - 1) then TrailingRun(obs[..|obs| - 1]) + 1
    else 1
  }

  /**
   * The open streak has absorbed exactly the rows of the trailing run: its
   * count is that run's length and its start is the date of the run's first row.
   */
  lemma {:induction false} OpenIsTrailingRun(obs: seq<Obs>)
    ensures TrailingRun(obs) <= |obs|
    ensures Segment(obs).open.Some? <==> TrailingRun(obs) > 0
    ensures Segment(obs).open.Some? ==>
      Segment(obs).open.value.count == TrailingRun(obs)
      && Segment(obs).open.value.start == obs[|obs| - TrailingRun(obs)].date
      && StartsRun(obs, |obs| - TrailingRun(obs))
  {
    if obs != [] {
      var p, o := obs[..|obs| - 1], obs[|obs| - 1];
      OpenIsTrailingRun(p);
      OpenTracksLastRow(p);
      OpenTracksLastRow(obs);
      assert Segment(obs) == Step(Segment(p), o);
      if |obs| >= 2 && Continues(obs, |obs| - 1) {
        assert p[|p| - 1] == obs[|obs| - 2];
        var k := |p| - TrailingRun(p);
        assert p[k] == obs[k];
        if k > 0 {
          assert p[k - 1] == obs[k - 1];
          assert Continues(p, k) == Continues(obs, k);
        }
      }
    }
  }

  /** A streak the row loop closes is never flagged ongoing and has `durationMs == end - start`. */
  lemma {:induction false} ClosedNotOngoing(obs: seq<Obs>)
    ensures forall k :: 0 <= k < |Segment(obs).closed| ==>
      !Segment(obs).closed[k].isOngoing && Segment(obs).closed[k].durationMs == Segment(obs).closed[k].end - Segment(obs).closed[k].start
  {
    if obs != [] {
      ClosedNotOngoing(obs[..|obs| - 1]);
    }
  }

  lemma {:induction false} SegmentClosedAndOpen(obs: seq<Obs>)
    ensures Ends(Segment(obs).closed) == InnerRunEnds(obs)
    ensures Starts(Segment(obs).closed)
      + (if Segment(obs).open.Some? then [Segment(obs).open.value.start] else []) == RunStarts(obs)
  {
    if obs != [] {
      var p, o := obs[..|obs| - 1], obs[|obs| - 1];
      assert obs == p + [o];
      SegmentClosedAndOpen(p);
      OpenTracksLastRow(p);
      var g := Segment(p);
      assert Segment(obs) == Step(g, o);
      if p == [] {
        assert InnerRunEnds(obs) == [];
      } else {
        assert p[..|p| - 1] == obs[..|obs| - 2];
        assert obs[|obs| - 2] == p[|p| - 1];
        assert InnerRunEnds(obs) == InnerRunEnds(p) + if EndsRun(obs, |obs| - 2) then [p[|p| - 1].date] else [];
      }
      var g1 := if GapCloses(g, o.date) then Seg(g.closed + [Close(g.open.value)], None) else g;
      if GapCloses(g, o.date) {
        StartsSnoc(g.closed, Close(g.open.value));
      }
      if !o.met && g1.open.Some? {
        StartsSnoc(g1.closed, Close(g1.open.value));
      }
    }
  }

  /**
   * The streaks are exactly the maximal runs: their starts are the rows
   * that begin a run and their ends the rows that end one, in input order.
   */
  lemma StreaksAreMaximalRuns(obs: seq<Obs>)
    ensures Starts(AllStreaks(Segment(obs))) == RunStarts(obs)
    ensures Ends(AllStreaks(Segment(obs))) == RunEnds(obs)
  {
    SegmentClosedAndOpen(obs);
    OpenTracksLastRow(obs);
    var g := Segment(obs);
    if g.open.Some? {
      StartsSnoc(g.closed, Close(g.open.value));
      assert RunEnds(obs) == InnerRunEnds(obs) + [obs[|obs| - 1].date];
    } else {
      assert AllStreaks(g) == g.closed;
      assert RunEnds(obs) == InnerRunEnds(obs) + [];
    }
  }

  // ---------------------------------------------------------------------
  // Counting: every qualifying row lands in exactly one streak.

  function CountMet(obs: seq<Obs>): nat
    decreases |obs|
  {
    if obs == [] then 0 else CountMet(obs[..|obs| - 1]) + if obs[|obs| - 1].met then 1 else 0
  }

  function TotalCount(ss: seq<Streak>): nat
    decreases |ss|
  {
    if ss == [] then 0 else TotalCount(ss[..|ss| - 1]) + ss[|ss| - 1].count
  }

  lemma TotalCountSnoc(ss: seq<Streak>, s: Streak)
    ensures TotalCount(ss + [s]) == TotalCount(ss) + s.count
  {
    assert (ss + [s])[..|ss|] == ss;
  }

  /** The row counts of the streaks add up to the number of qualifying rows. */
  lemma {:induction false} CountsAddUp(obs: seq<Obs>)
    ensures TotalCount(AllStreaks(Segment(obs))) == CountMet(obs)
  {
    if obs != [] {
      var p, o := obs[..|obs| - 1], obs[|obs| - 1];
      CountsAddUp(p);
      var g := Segment(p);
      var g1 := if GapCloses(g, o.date) then Seg(g.closed + [Close(g.open.value)], None) else g;
      if GapCloses(g, o.date) {
        TotalCountSnoc(g.closed, Close(g.open.value));
      }
      if g1.open.Some? {
        TotalCountSnoc(g1.closed, Close(g1.open.value));
      }
      var h := Segment(obs);
      assert h == Step(g, o);
      if h.open.Some? {
        TotalCountSnoc(h.closed, Close(h.open.value));
      } else {
        assert AllStreaks(h) == h.closed;
      }
      if g.open.Some? {
        TotalCountSnoc(g.closed, Close(g.open.value));
      } else {
        assert AllStreaks(g) == g.closed;
      }
    }
  }

  // ---------------------------------------------------------------------
  // Order: on time-ordered input, streaks are well-formed and in time order.

  predicate TimeOrdered(obs: seq<Obs>) {
    forall i, j :: 0 <= i <= j < |obs| ==> obs[i].date <= obs[j].date
  }

  /** Every streak has `start <= end` and `durationMs == end - start`, and each ends no later than the next starts. */
  predicate WellOrdered(ss: seq<Streak>) {
    (forall k :: 0 <= k < |ss| ==> ss[k].start <= ss[k].end && ss[k].durationMs == ss[k].end - ss[k].start)
    && (forall k :: 0 <= k < |ss| - 1 ==> ss[k].end <= ss[k + 1].start)
  }

  /** A well-ordered list extended by a well-formed streak that starts no earlier than the last one ends. */
  lemma WellOrderedSnoc(ss: seq<Streak>, s: Streak)
    ensures WellOrdered(ss + [s]) <==>
      WellOrdered(ss) && s.start <= s.end && s.durationMs == s.end - s.start
      && (ss != [] ==> ss[|ss| - 1].end <= s.start)
  {
    var t := ss + [s];
    assert forall k :: 0 <= k < |ss| ==> t[k] == ss[k];
    assert t[|ss|] == s;
  }

  /** What the loop keeps after a row dated `last`: ordered streaks, none ending after `last`, the open one ending at it. */
  predicate OrderedUpTo(g: Seg, last: int) {
    WellOrdered(AllStreaks(g))
    && (forall k :: 0 <= k < |g.closed| ==> g.closed[k].end <= last)
    && (g.open.Some? ==> g.open.value.start <= g.open.value.end == last)
  }

  /** Closing the open streak keeps the order. */
  lemma CloseKeepsOrder(g: Seg, last: int, next: int)
    requires OrderedUpTo(g, last) && last <= next
    ensures g.open.Some? ==> OrderedUpTo(Seg(g.closed + [Close(g.open.value)], None), next)
    ensures g.open.None? ==> OrderedUpTo(g, next)
  {
    if g.open.Some? {
      var c := g.closed + [Close(g.open.value)];
      assert AllStreaks(g) == c;
      assert AllStreaks(Seg(c, None)) == c;
      assert forall k :: 0 <= k < |g.closed| ==> c[k] == g.closed[k];
    }
  }

  /** One row at or after `last` keeps the order. */
  lemma StepKeepsOrder(g: Seg, last: int, o: Obs)
    requires OrderedUpTo(g, last) && last <= o.date
    ensures OrderedUpTo(Step(g, o), o.date)
  {
    var g1 := if GapCloses(g, o.date) then Seg(g.closed + [Close(g.open.value)], None) else g;
    CloseKeepsOrder(g, last, o.date);
    assert OrderedUpTo(g1, o.date) || (g1 == g && g.open.Some?);
    var h := Step(g, o);
    if o.met {
      if g1.open.None? {
        assert AllStreaks(g1) == g1.closed;
        WellOrderedSnoc(g1.closed, Close(Candidate(o.date, o.date, 1)));
        assert AllStreaks(h) == g1.closed + [Close(Candidate(o.date, o.date, 1))];
      } else {
        var c := g1.open.value;
        var n := Candidate(c.start, o.date, c.count + 1);
        WellOrderedSnoc(g1.closed, Close(c));
        WellOrderedSnoc(g1.closed, Close(n));
        assert AllStreaks(g1) == g1.closed + [Close(c)];
        assert AllStreaks(h) == g1.closed + [Close(n)];
      }
    } else if g1.open.Some? {
      CloseKeepsOrder(g1, last, o.date);
    }
  }

  lemma {:induction false} OrderedPrefix(obs: seq<Obs>)
    requires TimeOrdered(obs)
    ensures obs != [] ==> OrderedUpTo(Segment(obs), obs[|obs| - 1].date)
    ensures obs == [] ==> Segment(obs) == Seg([], None)
  {
    if obs != [] {
      var p, o := obs[..|obs| - 1], obs[|obs| - 1];
      assert TimeOrdered(p);
      OrderedPrefix(p);
      if p == [] {
        assert OrderedUpTo(Seg([], None), o.date);
        StepKeepsOrder(Seg([], None), o.date, o);
      } else {
        assert p[|p| - 1].date <= o.date;
        StepKeepsOrder(Segment(p), p[|p| - 1].date, o);
      }
    }
  }

  /** On time-ordered input the streaks are well-formed and ordered by time. */
  lemma StreaksInTimeOrder(obs: seq<Obs>)
    requires TimeOrdered(obs)
    ensures WellOrdered(AllStreaks(Segment(obs)))
  {
    OrderedPrefix(obs);
    if obs == [] {
      assert AllStreaks(Segment(obs)) == [];
    }
  }

  // ---------------------------------------------------------------------
  // Boundary cases.

  /** One qualifying row makes a streak of length zero. */
  lemma SingleRow(t: int)
    ensures AllStreaks(Segment([Obs(t, true)])) == [Streak(t, t, 1, 0, false)]
  {
    assert [Obs(t, true)][..0] == [];
  }

  /** Two qualifying rows exactly 24 h apart stay in one streak. */
  lemma GapOfExactlyOneDay(t: int)
    ensures AllStreaks(Segment([Obs(t, true), Obs(t + DAY_MS, true)])) == [Streak(t, t + DAY_MS, 2, DAY_MS, false)]
  {
    var obs := [Obs(t, true), Obs(t + DAY_MS, true)];
    assert obs[..1] == [Obs(t, true)] && obs[..1][..0] == [];
    assert Segment(obs[..1]) == Seg([], Some(Candidate(t, t, 1)));
    assert Segment(obs) == Seg([], Some(Candidate(t, t + DAY_MS, 2)));
  }

  /** Two qualifying rows 24 h and 1 ms apart make two streaks. */
  lemma GapOverOneDay(t: int)
    ensures AllStreaks(Segment([Obs(t, true), Obs(t + DAY_MS + 1, true)]))
      == [Streak(t, t, 1, 0, false), Streak(t + DAY_MS + 1, t + DAY_MS + 1, 1, 0, false)]
  {
    var obs := [Obs(t, true), Obs(t + DAY_MS + 1, true)];
    assert obs[..1] == [Obs(t, true)] && obs[..1][..0] == [];
    assert Segment(obs[..1]) == Seg([], Some(Candidate(t, t, 1)));
    assert Segment(obs) == Seg([Streak(t, t, 1, 0, false)], Some(Candidate(t + DAY_MS + 1, t + DAY_MS + 1, 1)));
  }
}
