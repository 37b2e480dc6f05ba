/**
 * The hourly compaction loop that compact_data.js and refresh_data.js
 * share: every reading is mapped to an hour mark; a strictly later mark
 * closes the pending bucket and opens a new one, any other mark (the same
 * hour, or an earlier one arriving out of order) is folded into the pending
 * bucket's min, max and last.
 */
module HourlyBuckets {
  import opened Wrappers

  const HOUR_MS: int := 3_600_000

  /**
   * The hour mark of a reading: the reading itself when its minutes and
   * seconds are zero, else the next full hour. Milliseconds are not
   * looked at, so the mark is the ceiling to the hour of the time truncated
   * to the second.
   */
  function HourMark(t: int): (m: int)
    ensures m % HOUR_MS == 0
    ensures m - HOUR_MS < t - t % 1000 <= m
  {
    var inHour := t % HOUR_MS;
    SecondsInHour(t);
    if inHour >= 1000 then t - inHour + HOUR_MS else t - inHour
  }

  lemma SecondsInHour(t: int)
    ensures t % 1000 == (t % HOUR_MS) % 1000
  {
    var q := t / HOUR_MS;
    assert t == q * HOUR_MS + t % HOUR_MS;
    assert q * HOUR_MS == (q * 3600) * 1000;
  }

  /** A reading exactly on the hour is its own mark. */
  lemma HourMarkOfFullHour(t: int)
    requires t % HOUR_MS == 0
    ensures HourMark(t) == t
  {
  }

  lemma {:induction false} TruncateMonotone(a: int, b: int)
    requires a <= b
    ensures a - a % 1000 <= b - b % 1000
  {
    assert a - a % 1000 == (a / 1000) * 1000;
    assert b - b % 1000 == (b / 1000) * 1000;
    assert a / 1000 <= b / 1000;
  }

  /** Later readings never get an earlier mark. */
  lemma HourMarkMonotone(a: int, b: int)
    requires a <= b
    ensures HourMark(a) <= HourMark(b)
  {
    TruncateMonotone(a, b);
    var ma, mb := HourMark(a), HourMark(b);
    var qa, qb := ma / HOUR_MS, mb / HOUR_MS;
    assert ma == qa * HOUR_MS && mb == qb * HOUR_MS;
    assert (qa - qb) * HOUR_MS < HOUR_MS;
    assert qa - qb < 1;
  }

  /** An accepted row: a timestamp and a temperature. */
  datatype Reading = Reading(date: int, temp: int)

  /** One output row: the hour mark, the min and max of its readings, and the latest one. */
  datatype Bucket = Bucket(mark: int, min: int, max: int, last: int)

  /** The loop state: rows written so far and the pending bucket. */
  datatype Fold = Fold(done: seq<Bucket>, pending: Option<Bucket>)

  function Min(a: int, b: int): int { if a <= b then a else b }
  function Max(a: int, b: int): int { if a >= b then a else b }

  /** One iteration of the loop for an accepted reading. */
  function Absorb(f: Fold, r: Reading): Fold {
    var target := HourMark(r.date);
    match f.pending
    case None => Fold(f.done, Some(Bucket(target, r.temp, r.temp, r.temp)))
    case Some(b) =>
      if target > b.mark then Fold(f.done + [b], Some(Bucket(target, r.temp, r.temp, r.temp)))
      else Fold(f.done, Some(Bucket(b.mark, Min(b.min, r.temp), Max(b.max, r.temp), r.temp)))
  }

  function FoldAll(rs: seq<Reading>): Fold
    decreases |rs|
  {
    if rs == [] then Fold([], None) else Absorb(FoldAll(rs[..|rs| - 1]), rs[|rs| - 1])
  }

  /** The rows written: those closed in the loop, then the pending one. */
  function Rows(f: Fold): seq<Bucket> {
    f.done + if f.pending.Some? then [f.pending.value] else []
  }

  function Compacted(rs: seq<Reading>): seq<Bucket> {
    Rows(FoldAll(rs))
  }

  // ---------------------------------------------------------------------
  // An independent description of the marks.

  /** The latest hour mark among the readings. */
  function LatestMark(rs: seq<Reading>): int
    requires rs != []
    decreases |rs|
  {
    if |rs| == 1 then HourMark(rs[0].date) else Max(LatestMark(rs[..|rs| - 1]), HourMark(rs[|rs| - 1].date))
  }

  /** The hour marks that exceed every earlier mark, in input order. */
  function RecordMarks(rs: seq<Reading>): seq<int>
    decreases |rs|
  {
    if rs == [] then []
    else
      var p := rs[..|rs| - 1];
      RecordMarks(p) + if p == [] || HourMark(rs[|rs| - 1].date) > LatestMark(p) then [HourMark(rs[|rs| - 1].date)] else []
  }

  function Marks(bs: seq<Bucket>): seq<int>
  {
    seq(|bs|, k requires 0 <= k < |bs| => bs[k].mark)
  }

  predicate StrictlyIncreasing(ms: seq<int>) {
    forall i, j :: 0 <= i < j < |ms| ==> ms[i] < ms[j]
  }

  /** The pending bucket carries the latest mark seen. */
  lemma {:induction false} PendingHasLatestMark(rs: seq<Reading>)
    ensures rs == [] <==> FoldAll(rs).pending.None?
    ensures rs != [] ==> FoldAll(rs).pending.value.mark == LatestMark(rs)
  {
    if rs != [] {
      PendingHasLatestMark(rs[..|rs| - 1]);
    }
  }

  /**
   * A row is written for every reading whose mark exceeds all earlier
   * marks, and for no other: the marks written are the record marks.
   */
  lemma {:induction false} MarksAreRecords(rs: seq<Reading>)
    ensures Marks(Compacted(rs)) == RecordMarks(rs)
    ensures rs != [] ==> RecordMarks(rs) != [] && RecordMarks(rs)[|RecordMarks(rs)| - 1] == LatestMark(rs)
  {
    if rs != [] {
      var p, r := rs[..|rs| - 1], rs[|rs| - 1];
      MarksAreRecords(p);
      PendingHasLatestMark(p);
      var f := FoldAll(p);
      assert FoldAll(rs) == Absorb(f, r);
      if p == [] {
        assert Compacted(rs) == [Bucket(HourMark(r.date), r.temp, r.temp, r.temp)];
      } else {
        var b := f.pending.value;
        var m := HourMark(r.date);
        assert Marks(Rows(f)) == Marks(f.done) + [b.mark];
        if m > b.mark {
          assert Rows(Absorb(f, r)) == Rows(f) + [Bucket(m, r.temp, r.temp, r.temp)];
          assert Marks(Rows(f) + [Bucket(m, r.temp, r.temp, r.temp)]) == Marks(Rows(f)) + [m];
        } else {
          assert Marks(Rows(Absorb(f, r))) == Marks(f.done) + [b.mark];
        }
      }
    }
  }

  lemma IncreasingSnoc(ms: seq<int>, m: int)
    requires StrictlyIncreasing(ms) && forall k :: 0 <= k < |ms| ==> ms[k] < m
    ensures StrictlyIncreasing(ms + [m])
  {
    var r := ms + [m];
    assert forall k :: 0 <= k < |ms| ==> r[k] == ms[k];
  }

  /** No record mark exceeds the latest mark. */
  lemma {:induction false} RecordsBelowLatest(rs: seq<Reading>)
    ensures forall k :: 0 <= k < |RecordMarks(rs)| ==> RecordMarks(rs)[k] <= LatestMark(rs)
  {
    if rs != [] {
      var p, m := rs[..|rs| - 1], HourMark(rs[|rs| - 1].date);
      RecordsBelowLatest(p);
      if p == [] {
        assert RecordMarks(rs) == [m] && LatestMark(rs) == m;
      } else {
        var latest := LatestMark(p);
        assert LatestMark(rs) == Max(latest, m);
        var extra := if m > latest then [m] else [];
        assert RecordMarks(rs) == RecordMarks(p) + extra;
        forall k | 0 <= k < |RecordMarks(rs)| ensures RecordMarks(rs)[k] <= Max(latest, m) {
          if k < |RecordMarks(p)| {
            assert RecordMarks(rs)[k] == RecordMarks(p)[k];
          }
        }
      }
    }
  }

  lemma {:induction false} RecordsIncrease(rs: seq<Reading>)
    ensures StrictlyIncreasing(RecordMarks(rs))
  {
    if rs != [] {
      var p, m := rs[..|rs| - 1], HourMark(rs[|rs| - 1].date);
      RecordsIncrease(p);
      if p == [] {
        assert RecordMarks(rs) == [m];
      } else {
        var latest := LatestMark(p);
        if m > latest {
          assert RecordMarks(rs) == RecordMarks(p) + [m];
          RecordsBelowLatest(p);
          IncreasingSnoc(RecordMarks(p), m);
        } else {
          assert RecordMarks(rs) == RecordMarks(p);
        }
      }
    }
  }

  /** The hour marks written strictly increase. */
  lemma MarksIncrease(rs: seq<Reading>)
    ensures var bs := Compacted(rs); forall i, j :: 0 <= i < j < |bs| ==> bs[i].mark < bs[j].mark
  {
    MarksAreRecords(rs);
    RecordsIncrease(rs);
    var bs := Compacted(rs);
    forall i, j | 0 <= i < j < |bs| ensures bs[i].mark < bs[j].mark {
      assert Marks(bs)[i] == bs[i].mark && Marks(bs)[j] == bs[j].mark;
    }
  }

  /** `m` is the hour mark of one of the readings. */
  predicate IsMarkOf(rs: seq<Reading>, m: int) {
    exists i :: 0 <= i < |rs| && HourMark(rs[i].date) == m
  }

  lemma {:induction false} RecordsFromReadings(rs: seq<Reading>)
    ensures |RecordMarks(rs)| <= |rs|
    ensures forall k :: 0 <= k < |RecordMarks(rs)| ==> IsMarkOf(rs, RecordMarks(rs)[k])
  {
    if rs != [] {
      var p := rs[..|rs| - 1];
      RecordsFromReadings(p);
      forall k | 0 <= k < |RecordMarks(rs)| ensures IsMarkOf(rs, RecordMarks(rs)[k]) {
        if k < |RecordMarks(p)| {
          var i :| 0 <= i < |p| && HourMark(p[i].date) == RecordMarks(p)[k];
          assert rs[i] == p[i];
        } else {
          assert RecordMarks(rs)[k] == HourMark(rs[|rs| - 1].date);
        }
      }
    }
  }

  /**
   * Gaps produce no filler rows: every row's mark is the mark of a
   * reading, and there are never more rows than readings.
   */
  lemma NoFillerRows(rs: seq<Reading>)
    ensures |Compacted(rs)| <= |rs|
    ensures forall k :: 0 <= k < |Compacted(rs)| ==> IsMarkOf(rs, Compacted(rs)[k].mark)
  {
    MarksAreRecords(rs);
    RecordsFromReadings(rs);
    var bs := Compacted(rs);
    forall k | 0 <= k < |bs| ensures IsMarkOf(rs, bs[k].mark) {
      assert Marks(bs)[k] == bs[k].mark;
    }
  }

  // ---------------------------------------------------------------------
  // What each row holds.

  predicate HasTemp(rs: seq<Reading>, t: int) {
    exists i :: 0 <= i < |rs| && rs[i].temp == t
  }

  /** `min <= last <= max`, and all three are temperatures of readings. */
  predicate Sound(b: Bucket, rs: seq<Reading>) {
    b.min <= b.last <= b.max && HasTemp(rs, b.min) && HasTemp(rs, b.max) && HasTemp(rs, b.last)
  }

  /** Row `b` covers reading `r`: `r` lies within its min..max and its mark is not earlier. */
  predicate CoversAt(b: Bucket, r: Reading) {
    b.min <= r.temp <= b.max && HourMark(r.date) <= b.mark
  }

  /** Some row of `bs` covers `r`. */
  predicate CoveredBy(bs: seq<Bucket>, r: Reading) {
    exists k :: 0 <= k < |bs| && CoversAt(bs[k], r)
  }

  predicate Covered(rs: seq<Reading>, bs: seq<Bucket>) {
    forall i :: 0 <= i < |rs| ==> CoveredBy(bs, rs[i])
  }

  lemma HasTempGrows(rs: seq<Reading>, r: Reading, t: int)
    requires HasTemp(rs, t)
    ensures HasTemp(rs + [r], t)
  {
    var i :| 0 <= i < |rs| && rs[i].temp == t;
    assert (rs + [r])[i] == rs[i];
  }

  /** Every row has `min <= last <= max`, all three taken from readings. */
  lemma {:induction false} RowsSound(rs: seq<Reading>)
    ensures forall k :: 0 <= k < |Compacted(rs)| ==> Sound(Compacted(rs)[k], rs)
  {
    if rs != [] {
      var p, r := rs[..|rs| - 1], rs[|rs| - 1];
      assert rs == p + [r];
      RowsSound(p);
      var f := FoldAll(p);
      var before := Rows(f);
      assert before == Compacted(p);
      assert HasTemp(rs, r.temp) by { assert rs[|rs| - 1].temp == r.temp; }
      forall k | 0 <= k < |before| ensures Sound(before[k], rs) {
        assert Sound(before[k], p);
        HasTempGrows(p, r, before[k].min);
        HasTempGrows(p, r, before[k].max);
        HasTempGrows(p, r, before[k].last);
      }
      var after := Compacted(rs);
      assert after == Rows(Absorb(f, r));
      if f.pending.None? || HourMark(r.date) > f.pending.value.mark {
        OpensRow(f, r);
        assert forall k :: 0 <= k < |before| ==> after[k] == before[k];
      } else {
        WidensRow(f, r);
        var b := f.pending.value;
        assert before[|before| - 1] == b;
        assert Sound(b, rs);
        assert forall k :: 0 <= k < |before| - 1 ==> after[k] == before[k];
      }
    }
  }

  /** How one reading changes the rows, when it opens a new one. */
  lemma OpensRow(f: Fold, r: Reading)
    requires f.pending.None? || HourMark(r.date) > f.pending.value.mark
    ensures Rows(Absorb(f, r)) == Rows(f) + [Bucket(HourMark(r.date), r.temp, r.temp, r.temp)]
  {
  }

  /** How one reading changes the rows, when it is folded into the last one. */
  lemma WidensRow(f: Fold, r: Reading)
    requires f.pending.Some? && HourMark(r.date) <= f.pending.value.mark
    ensures var b := f.pending.value;
      Rows(Absorb(f, r)) == f.done + [Bucket(b.mark, Min(b.min, r.temp), Max(b.max, r.temp), r.temp)]
      && Rows(f) == f.done + [b]
  {
  }

  /** A row that is kept or widened still covers what it covered. */
  lemma CoverKept(p: seq<Reading>, before: seq<Bucket>, after: seq<Bucket>)
    requires Covered(p, before) && |before| <= |after|
    requires forall k :: 0 <= k < |before| ==> after[k].mark == before[k].mark && after[k].min <= before[k].min && before[k].max <= after[k].max
    ensures Covered(p, after)
  {
    forall i | 0 <= i < |p| ensures CoveredBy(after, p[i]) {
      assert CoveredBy(before, p[i]);
      var k :| 0 <= k < |before| && CoversAt(before[k], p[i]);
      assert CoversAt(after[k], p[i]);
    }
  }

  lemma CoverAppend(p: seq<Reading>, r: Reading, bs: seq<Bucket>, k: nat)
    requires Covered(p, bs) && k < |bs|
    requires CoversAt(bs[k], r)
    ensures Covered(p + [r], bs)
  {
    forall i | 0 <= i < |p + [r]| ensures CoveredBy(bs, (p + [r])[i]) {
      if i < |p| {
        assert (p + [r])[i] == p[i];
      }
    }
  }

  /**
   * Every reading lies within the min..max of a row whose mark is not
   * earlier than its own.
   */
  lemma {:induction false} RowsCover(rs: seq<Reading>)
    ensures Covered(rs, Compacted(rs))
  {
    if rs != [] {
      var p, r := rs[..|rs| - 1], rs[|rs| - 1];
      assert rs == p + [r];
      RowsCover(p);
      var f := FoldAll(p);
      var after := Compacted(rs);
      assert after == Rows(Absorb(f, r));
      if f.pending.None? || HourMark(r.date) > f.pending.value.mark {
        OpensRow(f, r);
        CoverKept(p, Rows(f), after);
        CoverAppend(p, r, after, |after| - 1);
      } else {
        WidensRow(f, r);
        CoverKept(p, Rows(f), after);
        CoverAppend(p, r, after, |after| - 1);
      }
    }
  }

  // ---------------------------------------------------------------------
  // Which readings each row is made of.

  /**
   * The bucket reading `i` is folded into: the latest mark among the
   * readings up to and including it.
   */
  function BucketMarkOf(rs: seq<Reading>, i: nat): int
    requires i < |rs|
  {
    LatestMark(rs[..i + 1])
  }

  /**
   * The temperatures, in input order, of exactly the readings `i` with
   * `BucketMarkOf(rs, i) == m`.
   */
  function TempsIn(rs: seq<Reading>, m: int): seq<int>
    decreases |rs|
  {
    if rs == [] then []
    else TempsIn(rs[..|rs| - 1], m) + if LatestMark(rs) == m then [rs[|rs| - 1].temp] else []
  }

  /** `TempsIn` collects the temperatures of exactly the readings assigned to `m`. */
  lemma {:induction false} TempsInMembers(rs: seq<Reading>, m: int, t: int)
    ensures t in TempsIn(rs, m) <==> exists i :: 0 <= i < |rs| && BucketMarkOf(rs, i) == m && rs[i].temp == t
  {
    if rs != [] {
      var p, n := rs[..|rs| - 1], |rs| - 1;
      TempsInMembers(p, m, t);
      assert rs[..n + 1] == rs;
      assert forall i :: 0 <= i < n ==> rs[..i + 1] == p[..i + 1] && rs[i] == p[i];
      if t in TempsIn(rs, m) {
        if t !in TempsIn(p, m) {
          assert BucketMarkOf(rs, n) == m && rs[n].temp == t;
        } else {
          var i :| 0 <= i < |p| && BucketMarkOf(p, i) == m && p[i].temp == t;
          assert BucketMarkOf(rs, i) == m && rs[i].temp == t;
        }
      } else {
        forall i | 0 <= i < |rs| && BucketMarkOf(rs, i) == m ensures rs[i].temp != t {
          if i < n {
            assert BucketMarkOf(p, i) == m && p[i] == rs[i];
          }
        }
      }
    }
  }

  /** `b` holds the minimum, the maximum and the last of the temperatures `ts`. */
  predicate Summarises(b: Bucket, ts: seq<int>) {
    ts != [] && b.last == ts[|ts| - 1]
    && b.min in ts && (forall t :: t in ts ==> b.min <= t)
    && b.max in ts && (forall t :: t in ts ==> t <= b.max)
  }

  lemma SummarisesSnoc(b: Bucket, ts: seq<int>, t: int)
    requires Summarises(b, ts)
    ensures Summarises(Bucket(b.mark, Min(b.min, t), Max(b.max, t), t), ts + [t])
  {
    assert forall u :: u in ts + [t] ==> u in ts || u == t;
  }

  /** No reading is folded into a bucket later than the latest mark. */
  lemma {:induction false} NothingAboveLatest(rs: seq<Reading>, m: int)
    requires rs == [] || m > LatestMark(rs)
    ensures TempsIn(rs, m) == []
  {
    if rs != [] {
      var p := rs[..|rs| - 1];
      if p != [] {
        assert LatestMark(rs) == Max(LatestMark(p), HourMark(rs[|rs| - 1].date));
      }
      NothingAboveLatest(p, m);
    }
  }

  /** The prefix `rs[..i + 1]` assigns its last reading to its latest mark. */
  lemma TempsInStep(rs: seq<Reading>, m: int)
    requires rs != []
    ensures var p, r := rs[..|rs| - 1], rs[|rs| - 1];
      TempsIn(rs, m) == TempsIn(p, m) + if LatestMark(rs) == m then [r.temp] else []
  {
  }

  /** What the rows hold, for every row. */
  predicate AllSummarised(rs: seq<Reading>, bs: seq<Bucket>) {
    forall k :: 0 <= k < |bs| ==> Summarises(bs[k], TempsIn(rs, bs[k].mark))
  }

  /** A reading folded elsewhere leaves a row's readings as they were. */
  lemma OtherRowKept(p: seq<Reading>, r: Reading, b: Bucket)
    requires Summarises(b, TempsIn(p, b.mark))
    requires b.mark != LatestMark(p + [r])
    ensures Summarises(b, TempsIn(p + [r], b.mark))
  {
    var rs := p + [r];
    assert rs[..|rs| - 1] == p;
    TempsInStep(rs, b.mark);
  }

  /** A reading that opens a row leaves the earlier rows' readings alone. */
  lemma OpenStep(p: seq<Reading>, r: Reading)
    requires AllSummarised(p, Compacted(p))
    requires p == [] || HourMark(r.date) > LatestMark(p)
    ensures AllSummarised(p + [r], Compacted(p + [r]))
  {
    var rs := p + [r];
    assert rs[..|rs| - 1] == p;
    var f := FoldAll(p);
    var before, after := Rows(f), Compacted(rs);
    assert after == Rows(Absorb(f, r));
    PendingHasLatestMark(p);
    MarksIncrease(p);
    OpensRow(f, r);
    var m := HourMark(r.date);
    assert LatestMark(rs) == m;
    NothingAboveLatest(p, m);
    TempsInStep(rs, m);
    forall k | 0 <= k < |after| ensures Summarises(after[k], TempsIn(rs, after[k].mark)) {
      if k < |before| {
        assert after[k] == before[k];
        assert before[k].mark <= before[|before| - 1].mark;
        OtherRowKept(p, r, before[k]);
      }
    }
  }

  /** A reading folded into the pending row adds to that row's readings only. */
  lemma WidenStep(p: seq<Reading>, r: Reading)
    requires AllSummarised(p, Compacted(p))
    requires p != [] && HourMark(r.date) <= LatestMark(p)
    ensures AllSummarised(p + [r], Compacted(p + [r]))
  {
    var rs := p + [r];
    assert rs[..|rs| - 1] == p;
    var f := FoldAll(p);
    var before, after := Rows(f), Compacted(rs);
    assert after == Rows(Absorb(f, r));
    PendingHasLatestMark(p);
    MarksIncrease(p);
    WidensRow(f, r);
    var b := f.pending.value;
    assert LatestMark(rs) == b.mark;
    assert before[|before| - 1] == b;
    TempsInStep(rs, b.mark);
    SummarisesSnoc(b, TempsIn(p, b.mark), r.temp);
    forall k | 0 <= k < |after| ensures Summarises(after[k], TempsIn(rs, after[k].mark)) {
      if k < |before| - 1 {
        assert after[k] == before[k];
        assert before[k].mark < b.mark;
        OtherRowKept(p, r, before[k]);
      }
    }
  }

  /**
   * Row `k` holds the minimum, the maximum and the last temperature of
   * exactly the readings folded into its bucket, in input order.
   */
  lemma {:induction false} RowsHoldTheirReadings(rs: seq<Reading>)
    ensures forall k :: 0 <= k < |Compacted(rs)| ==> Summarises(Compacted(rs)[k], TempsIn(rs, Compacted(rs)[k].mark))
  {
    if rs != [] {
      var p, r := rs[..|rs| - 1], rs[|rs| - 1];
      assert rs == p + [r];
      RowsHoldTheirReadings(p);
      if p == [] || HourMark(r.date) > LatestMark(p) {
        OpenStep(p, r);
      } else {
        WidenStep(p, r);
      }
    }
  }

  /** The record marks of a prefix are a prefix of the record marks. */
  lemma {:induction false} RecordsOfPrefix(rs: seq<Reading>, j: nat)
    requires j <= |rs|
    ensures var a, b := RecordMarks(rs[..j]), RecordMarks(rs); |a| <= |b| && a == b[..|a|]
  {
    if j < |rs| {
      var p := rs[..|rs| - 1];
      assert rs[..j] == p[..j];
      RecordsOfPrefix(p, j);
    } else {
      assert rs[..j] == rs;
    }
  }

  /**
   * Every reading is folded into a row: some row's mark is the bucket mark
   * of reading `i`. Marks strictly increase, so that row is the only one.
   */
  lemma EveryReadingHasRow(rs: seq<Reading>, i: nat)
    requires i < |rs|
    ensures exists k :: 0 <= k < |Compacted(rs)| && Compacted(rs)[k].mark == BucketMarkOf(rs, i)
  {
    var q := rs[..i + 1];
    MarksAreRecords(q);
    MarksAreRecords(rs);
    RecordsOfPrefix(rs, i + 1);
    var k := |RecordMarks(q)| - 1;
    assert RecordMarks(rs)[k] == LatestMark(q);
    assert Marks(Compacted(rs))[k] == Compacted(rs)[k].mark;
  }

  /** The last row's `last` is the temperature of the last reading. */
  lemma LastRowEndsWithLastReading(rs: seq<Reading>)
    requires rs != []
    ensures Compacted(rs) != [] && Compacted(rs)[|Compacted(rs)| - 1].last == rs[|rs| - 1].temp
  {
    var f := FoldAll(rs[..|rs| - 1]);
    assert FoldAll(rs) == Absorb(f, rs[|rs| - 1]);
  }

  /**
   * A reading whose mark is not later than the pending one, an out-of-order
   * earlier reading included, writes no row: it updates the last row's min,
   * max and last and leaves everything else as it was.
   */
  lemma FoldsIntoPending(rs: seq<Reading>, r: Reading)
    requires rs != [] && HourMark(r.date) <= LatestMark(rs)
    ensures var before, after := Compacted(rs), Compacted(rs + [r]);
      |after| == |before| && after[..|after| - 1] == before[..|before| - 1]
      && var b, a := before[|before| - 1], after[|after| - 1];
      a == Bucket(b.mark, Min(b.min, r.temp), Max(b.max, r.temp), r.temp)
  {
    PendingHasLatestMark(rs);
    assert (rs + [r])[..|rs|] == rs;
    var f := FoldAll(rs);
    assert FoldAll(rs + [r]) == Absorb(f, r);
    assert Compacted(rs) == f.done + [f.pending.value];
  }

  /** An empty input writes nothing; a non-empty one writes at least one row. */
  lemma RowsExactlyWhenReadings(rs: seq<Reading>)
    ensures Compacted(rs) == [] <==> rs == []
  {
    PendingHasLatestMark(rs);
  }
}
