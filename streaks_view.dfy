/**
 * streaks.js: what the streaks page computes before it draws anything. It
 * loads the interval table into a per-threshold cache, then for a chosen
 * threshold groups that threshold's intervals by winter season and picks
 * out the precomputed top ten and current streak. Its last rule decides
 * whether the current streak gets a card of its own.
 */
module StreaksView {
  import opened Wrappers
  import opened Text
  import opened DateFormat
  import opened StreakGeneration

  /** `{from: new Date(start), to: new Date(end)}`; an Invalid Date is `None`. */
  datatype Interval = Interval(from: Option<int>, to: Option<int>)

  /** One parsed line of the interval table: its threshold text and its interval. */
  datatype Row = Row(key: string, interval: Interval)

  // ---------------------------------------------------------------------
  // Parsing the interval table.

  /** A destructured field: `undefined` past the end of the pieces. */
  function Field(parts: seq<string>, i: nat): Option<string> {
    if i < |parts| then Some(parts[i]) else None
  }

  /** `new Date(field)`: `new Date(undefined)` is an Invalid Date. */
  function DateOf(field: Option<string>, parseDate: string -> Option<int>): Option<int> {
    if field.None? then None else parseDate(field.value)
  }

  /**
   * One line of the loop at streaks.js:17-26: blank after trimming it is
   * skipped; otherwise it is split on commas into threshold, start and end.
   */
  function ParseRow(line: string, parseDate: string -> Option<int>): Option<Row> {
    var t := Trim(line);
    if t == "" then None
    else
      var parts := Split(t, ",");
      Some(Row(parts[0], Interval(DateOf(Field(parts, 1), parseDate), DateOf(Field(parts, 2), parseDate))))
  }

  function RowParser(parseDate: string -> Option<int>): string -> Option<Row> {
    line => ParseRow(line, parseDate)
  }

  /** `table[key]`, with a missing key read as the empty list (the `|| []`). */
  function Lookup(table: map<string, seq<Interval>>, key: string): seq<Interval> {
    if key in table then table[key] else []
  }

  /** Creating the key's list when it is missing, then pushing onto it. */
  function Add(table: map<string, seq<Interval>>, r: Row): map<string, seq<Interval>> {
    table[r.key := Lookup(table, r.key) + [r.interval]]
  }

  /** The table the loop builds from the lines after the first. */
  function TableOf(lines: seq<string>, read: string -> Option<Row>): map<string, seq<Interval>>
    decreases |lines|
  {
    if lines == [] then map[]
    else
      var t := TableOf(lines[..|lines| - 1], read);
      var r := read(lines[|lines| - 1]);
      if r.None? then t else Add(t, r.value)
  }

  lemma TableOfSnoc(lines: seq<string>, line: string, read: string -> Option<Row>)
    ensures TableOf(lines + [line], read)
         == if read(line).None? then TableOf(lines, read) else Add(TableOf(lines, read), read(line).value)
  {
    assert (lines + [line])[..|lines|] == lines;
  }

  /** The intervals the lines hold for one threshold key, in line order. */
  function RowsFor(lines: seq<string>, key: string, read: string -> Option<Row>): seq<Interval>
    decreases |lines|
  {
    if lines == [] then []
    else
      var rs := RowsFor(lines[..|lines| - 1], key, read);
      var r := read(lines[|lines| - 1]);
      if r.Some? && r.value.key == key then rs + [r.value.interval] else rs
  }

  /**
   * Every parsed row is appended, in line order, to the list of its own
   * threshold, and a threshold has a list exactly when some line names it.
   */
  lemma {:induction false} TableByKey(lines: seq<string>, key: string, read: string -> Option<Row>)
    ensures Lookup(TableOf(lines, read), key) == RowsFor(lines, key, read)
    ensures key in TableOf(lines, read) <==> exists i :: 0 <= i < |lines| && read(lines[i]).Some? && read(lines[i]).value.key == key
    decreases |lines|
  {
    if lines != [] {
      var init := lines[..|lines| - 1];
      TableByKey(init, key, read);
      assert forall i :: 0 <= i < |init| ==> init[i] == lines[i];
    }
  }

  /** A `threshold,start,end` line as the streak generator writes it parses back into its three fields. */
  lemma RowLine(threshold: string, start: string, end: string, parseDate: string -> Option<int>)
    requires threshold != [] && !IsWhitespace(threshold[0])
    requires end != [] && !IsWhitespace(end[|end| - 1])
    requires !Contains(threshold, ",") && !Contains(start, ",") && !Contains(end, ",")
    ensures ParseRow(threshold + "," + start + "," + end, parseDate)
         == Some(Row(threshold, Interval(parseDate(start), parseDate(end))))
  {
    var line := threshold + "," + start + "," + end;
    assert line[0] == threshold[0] && line[|line| - 1] == end[|end| - 1];
    TrimUnpadded(line);
    JoinThree(threshold, start, end, ",");
    OneCharHasNoBorder(",");
    SplitJoin([threshold, start, end], ",");
  }

  /**
   * The cache of the interval table (`cachedIntervalsData`): per threshold
   * text, its intervals.
   */
  class IntervalCache {
    var byThreshold: map<string, seq<Interval>>

    constructor()
      ensures byThreshold == map[]
    {
      byThreshold := map[];
    }

    /** `cachedIntervalsData[r.key].push(r.interval)`, creating the list first when missing. */
    method Record(r: Row)
      modifies this
      ensures byThreshold == Add(old(byThreshold), r)
    {
      if r.key !in byThreshold {
        byThreshold := byThreshold[r.key := []];
      }
      byThreshold := byThreshold[r.key := byThreshold[r.key] + [r.interval]];
    }

    /**
     * The parse loop of `loadStreaksData`: the cache is emptied, then every
     * line after the first is parsed and recorded.
     */
    method Load(lines: seq<string>, parseDate: string -> Option<int>)
      modifies this
      ensures byThreshold == TableOf(if lines == [] then [] else lines[1..], RowParser(parseDate))
    {
      LoadWith(lines, RowParser(parseDate));
    }

    /** The same loop, over any parser of one line. */
    method LoadWith(lines: seq<string>, read: string -> Option<Row>)
      modifies this
      ensures byThreshold == TableOf(if lines == [] then [] else lines[1..], read)
    {
      byThreshold := map[];
      if lines == [] {
        return;
      }
      var i := 1;
      while i < |lines|
        invariant 1 <= i <= |lines|
        invariant byThreshold == TableOf(lines[1..i], read)
      {
        var r := read(lines[i]);
        TableOfSnoc(lines[1..i], lines[i], read);
        assert lines[1..i + 1] == lines[1..i] + [lines[i]];
        if r.Some? {
          Record(r.value);
        }
        i := i + 1;
      }
      assert lines[1..i] == lines[1..];
    }
  }

  // ---------------------------------------------------------------------
  // Winter seasons.

  /** The year a winter season starts in: January to April belong to the previous year's winter. */
  function Season(d: DateTime): int {
    if d.month <= 3 then d.year - 1 else d.year
  }

  /** The name of the season starting in year `y`. */
  function SeasonKey(y: int): string {
    IntToString(y) + "/" + IntToString(y + 1)
  }

  /**
   * The winter key of an interval's start: `"(y-1)/y"` for months up to
   * April, `"y/(y+1)"` otherwise; an Invalid Date gives `NaN` for its year
   * and for `year + 1`, so `"NaN/NaN"`.
   */
  function WinterKey(from: Option<int>, calendar: int -> DateTime): string {
    if from.None? then "NaN/NaN"
    else
      var d := calendar(from.value);
      if d.month <= 3 then IntToString(d.year - 1) + "/" + IntToString(d.year)
      else IntToString(d.year) + "/" + IntToString(d.year + 1)
  }

  function WinterOf(calendar: int -> DateTime): Interval -> string {
    (iv: Interval) => WinterKey(iv.from, calendar)
  }

  predicate IsNumeral(s: string) {
    forall i :: 0 <= i < |s| ==> s[i] == '-' || IsDigit(s[i])
  }

  lemma NumeralFacts(i: int)
    ensures IsNumeral(IntToString(i)) && |IntToString(i)| >= 1
    ensures IsDigit(IntToString(i)[0]) || IntToString(i)[0] == '-'
  {
  }

  /** Different integers are written differently. */
  lemma IntToStringInjective(i: int, j: int)
    requires IntToString(i) == IntToString(j)
    ensures i == j
  {
    var s := IntToString(i);
    if i < 0 && j < 0 {
      assert NatToString(-i) == s[1..] == NatToString(-j);
    } else if i >= 0 && j >= 0 {
      assert DigitsValue(NatToString(i)) == DigitsValue(NatToString(j));
    }
  }

  lemma NumeralHasNoSlash(a: string)
    requires IsNumeral(a)
    ensures !Contains(a, "/")
  {
    forall j: nat | j <= |a| ensures !OccursAt(a, "/", j) {
      if j + 1 <= |a| {
        assert a[j..j + 1] == [a[j]];
      }
    }
  }

  /** Two strings split at their first `/` the same way when neither left part holds one. */
  lemma SlashSplit(a: string, b: string, c: string, d: string)
    requires IsNumeral(a) && IsNumeral(c)
    requires a + "/" + b == c + "/" + d
    ensures a == c && b == d
  {
    var s := a + "/" + b;
    NumeralHasNoSlash(a);
    NumeralHasNoSlash(c);
    OneCharHasNoBorder("/");
    FirstIndexAfterPiece(a, "/", b);
    FirstIndexAfterPiece(c, "/", d);
    assert a == s[..|a|] == c;
    assert b == s[|a| + 1..] == d;
  }

  /** Distinct seasons get distinct keys. */
  lemma SeasonKeyInjective(y: int, z: int)
    ensures SeasonKey(y) == SeasonKey(z) <==> y == z
  {
    if SeasonKey(y) == SeasonKey(z) {
      NumeralFacts(y);
      NumeralFacts(z);
      SlashSplit(IntToString(y), IntToString(y + 1), IntToString(z), IntToString(z + 1));
      IntToStringInjective(y, z);
    }
  }

  /**
   * Two starts get the same winter key exactly when both are Invalid Dates
   * or both are valid dates of the same season.
   */
  lemma WinterKeysAgree(a: Option<int>, b: Option<int>, calendar: int -> DateTime)
    ensures WinterKey(a, calendar) == WinterKey(b, calendar) <==>
      (a.None? && b.None?) || (a.Some? && b.Some? && Season(calendar(a.value)) == Season(calendar(b.value)))
  {
    if a.Some? {
      assert WinterKey(a, calendar) == SeasonKey(Season(calendar(a.value)));
      NumeralFacts(Season(calendar(a.value)));
    }
    if b.Some? {
      assert WinterKey(b, calendar) == SeasonKey(Season(calendar(b.value)));
      NumeralFacts(Season(calendar(b.value)));
    }
    if a.Some? && b.Some? {
      SeasonKeyInjective(Season(calendar(a.value)), Season(calendar(b.value)));
    } else if a.Some? && b.None? {
      assert WinterKey(a, calendar)[0] != 'N';
    } else if a.None? && b.Some? {
      assert WinterKey(b, calendar)[0] != 'N';
    }
  }

  // ---------------------------------------------------------------------
  // Grouping by winter: the `winters` object, its keys in insertion order.

  datatype Grouping = Grouping(keys: seq<string>, lists: map<string, seq<Interval>>)

  /** The keys are distinct and are exactly the keys of the lists. */
  ghost predicate Consistent(g: Grouping) {
    (forall i, j :: 0 <= i < j < |g.keys| ==> g.keys[i] != g.keys[j])
    && (forall k :: k in g.lists <==> k in g.keys)
  }

  /** `if (!winters[key]) winters[key] = []`. */
  function Open(g: Grouping, key: string): Grouping {
    if key in g.lists then g else Grouping(g.keys + [key], g.lists[key := []])
  }

  /** `winters[key].push(iv)` after opening the key. */
  function Push(g: Grouping, key: string, iv: Interval): Grouping {
    var h := Open(g, key);
    Grouping(h.keys, h.lists[key := Lookup(h.lists, key) + [iv]])
  }

  /** The first `forEach`: a key for every winter of the threshold-0 intervals. */
  function Seeded(zero: seq<Interval>, keyOf: Interval -> string): Grouping
    decreases |zero|
  {
    if zero == [] then Grouping([], map[])
    else Open(Seeded(zero[..|zero| - 1], keyOf), keyOf(zero[|zero| - 1]))
  }

  /** The second `forEach`: every interval of the chosen threshold pushed onto its winter. */
  function Grouped(base: Grouping, ivs: seq<Interval>, keyOf: Interval -> string): Grouping
    decreases |ivs|
  {
    if ivs == [] then base
    else Push(Grouped(base, ivs[..|ivs| - 1], keyOf), keyOf(ivs[|ivs| - 1]), ivs[|ivs| - 1])
  }

  /** The intervals of `ivs` whose winter is `key`, in their order. */
  function Matching(ivs: seq<Interval>, key: string, keyOf: Interval -> string): seq<Interval>
    decreases |ivs|
  {
    if ivs == [] then []
    else
      var ms := Matching(ivs[..|ivs| - 1], key, keyOf);
      if keyOf(ivs[|ivs| - 1]) == key then ms + [ivs[|ivs| - 1]] else ms
  }

  /** Some interval of `ivs` falls in the winter `key`. */
  predicate Names(ivs: seq<Interval>, keyOf: Interval -> string, key: string) {
    exists i :: 0 <= i < |ivs| && keyOf(ivs[i]) == key
  }

  lemma NamesSnoc(ivs: seq<Interval>, keyOf: Interval -> string, key: string)
    requires ivs != []
    ensures Names(ivs, keyOf, key) <==> Names(ivs[..|ivs| - 1], keyOf, key) || keyOf(ivs[|ivs| - 1]) == key
  {
    var init := ivs[..|ivs| - 1];
    assert forall i :: 0 <= i < |init| ==> init[i] == ivs[i];
  }

  lemma OpenFacts(g: Grouping, key: string)
    requires Consistent(g)
    ensures var h := Open(g, key);
      Consistent(h) && key in h.lists
      && (forall k :: k in h.lists <==> k in g.lists || k == key)
      && (forall k :: Lookup(h.lists, k) == Lookup(g.lists, k))
  {
  }

  /** Pushing onto a winter changes that winter's list alone, by one interval at its end. */
  lemma PushList(g: Grouping, key: string, iv: Interval, k: string)
    ensures Lookup(Push(g, key, iv).lists, k) == Lookup(g.lists, k) + (if k == key then [iv] else [])
  {
  }

  /** The seeded object is consistent, its keys are the threshold-0 winters, and every list is empty. */
  lemma {:induction false} SeededFacts(zero: seq<Interval>, keyOf: Interval -> string)
    ensures var g := Seeded(zero, keyOf);
      Consistent(g)
      && (forall k :: k in g.lists <==> Names(zero, keyOf, k))
      && (forall k :: Lookup(g.lists, k) == [])
    decreases |zero|
  {
    if zero != [] {
      var init := zero[..|zero| - 1];
      SeededFacts(init, keyOf);
      OpenFacts(Seeded(init, keyOf), keyOf(zero[|zero| - 1]));
      forall k ensures Names(zero, keyOf, k) <==> Names(init, keyOf, k) || keyOf(zero[|zero| - 1]) == k {
        NamesSnoc(zero, keyOf, k);
      }
    }
  }

  /** Pushing keeps the object consistent and adds exactly the winters of the pushed intervals. */
  lemma {:induction false} GroupedKeys(base: Grouping, ivs: seq<Interval>, keyOf: Interval -> string)
    requires Consistent(base)
    ensures var g := Grouped(base, ivs, keyOf);
      Consistent(g) && forall k :: k in g.lists <==> k in base.lists || Names(ivs, keyOf, k)
    decreases |ivs|
  {
    if ivs != [] {
      var init := ivs[..|ivs| - 1];
      GroupedKeys(base, init, keyOf);
      OpenFacts(Grouped(base, init, keyOf), keyOf(ivs[|ivs| - 1]));
      forall k ensures Names(ivs, keyOf, k) <==> Names(init, keyOf, k) || keyOf(ivs[|ivs| - 1]) == k {
        NamesSnoc(ivs, keyOf, k);
      }
    }
  }

  /** Each winter's list is its seeded list followed by the pushed intervals of that winter, in order. */
  lemma {:induction false} GroupedList(base: Grouping, ivs: seq<Interval>, keyOf: Interval -> string, k: string)
    ensures Lookup(Grouped(base, ivs, keyOf).lists, k) == Lookup(base.lists, k) + Matching(ivs, k, keyOf)
    decreases |ivs|
  {
    if ivs != [] {
      var init, last := ivs[..|ivs| - 1], ivs[|ivs| - 1];
      GroupedList(base, init, keyOf, k);
      PushList(Grouped(base, init, keyOf), keyOf(last), last, k);
      if keyOf(last) == k {
        assert Lookup(base.lists, k) + Matching(init, k, keyOf) + [last]
            == Lookup(base.lists, k) + (Matching(init, k, keyOf) + [last]);
      }
    }
  }

  // ---------------------------------------------------------------------
  // `Object.keys(winters).sort()`: string order by character codes.

  /** `a < b` on strings: the first differing character decides, and a proper prefix comes first. */
  predicate Below(a: string, b: string)
    decreases |a|
  {
    if |a| == 0 then |b| > 0
    else if |b| == 0 then false
    else if a[0] != b[0] then a[0] < b[0]
    else Below(a[1..], b[1..])
  }

  lemma {:induction false} BelowIrreflexive(a: string)
    ensures !Below(a, a)
    decreases |a|
  {
    if |a| > 0 {
      BelowIrreflexive(a[1..]);
    }
  }

  lemma {:induction false} BelowTransitive(a: string, b: string, c: string)
    requires Below(a, b) && Below(b, c)
    ensures Below(a, c)
    decreases |a|
  {
    if |a| > 0 && a[0] == b[0] && b[0] == c[0] {
      BelowTransitive(a[1..], b[1..], c[1..]);
    }
  }

  lemma {:induction false} BelowTotal(a: string, b: string)
    ensures a == b || Below(a, b) || Below(b, a)
    decreases |a|
  {
    if |a| > 0 && |b| > 0 && a[0] == b[0] {
      BelowTotal(a[1..], b[1..]);
      if a[1..] == b[1..] {
        assert a == [a[0]] + a[1..] && b == [b[0]] + b[1..];
      }
    }
  }

  lemma BelowAsymmetric(a: string, b: string)
    requires Below(a, b)
    ensures !Below(b, a)
  {
    if Below(b, a) {
      BelowTransitive(a, b, a);
      BelowIrreflexive(a);
    }
  }

  /** Strictly ascending. */
  predicate Ascending(ks: seq<string>) {
    forall i, j :: 0 <= i < j < |ks| ==> Below(ks[i], ks[j])
  }

  /** Insertion into a sorted list, keeping it sorted. */
  function Insert(k: string, ks: seq<string>): seq<string>
    decreases |ks|
  {
    if ks == [] || !Below(ks[0], k) then [k] + ks else [ks[0]] + Insert(k, ks[1..])
  }

  /** The keys in ascending order. */
  function SortKeys(ks: seq<string>): seq<string>
    decreases |ks|
  {
    if ks == [] then [] else Insert(ks[|ks| - 1], SortKeys(ks[..|ks| - 1]))
  }

  lemma {:induction false} InsertFacts(k: string, ks: seq<string>)
    requires Ascending(ks) && k !in ks
    ensures Ascending(Insert(k, ks)) && multiset(Insert(k, ks)) == multiset(ks) + multiset{k}
    ensures Insert(k, ks) != [] && (Insert(k, ks)[0] == k || (ks != [] && Insert(k, ks)[0] == ks[0]))
    decreases |ks|
  {
    var r := Insert(k, ks);
    if ks == [] || !Below(ks[0], k) {
      if ks != [] {
        BelowTotal(k, ks[0]);
        forall j | 0 < j < |r| ensures Below(r[0], r[j]) {
          if j > 1 {
            BelowTransitive(k, ks[0], ks[j - 1]);
          }
        }
      }
    } else {
      InsertFacts(k, ks[1..]);
      assert ks == [ks[0]] + ks[1..];
      var t := Insert(k, ks[1..]);
      assert Below(ks[0], t[0]);
      forall j | 0 < j < |r| ensures Below(r[0], r[j]) {
        if j > 1 {
          BelowTransitive(ks[0], t[0], t[j - 1]);
        }
      }
    }
  }

  /** Sorting distinct keys gives them all once, strictly ascending. */
  lemma {:induction false} SortKeysFacts(ks: seq<string>)
    requires forall i, j :: 0 <= i < j < |ks| ==> ks[i] != ks[j]
    ensures Ascending(SortKeys(ks)) && multiset(SortKeys(ks)) == multiset(ks)
    decreases |ks|
  {
    if ks != [] {
      var init := ks[..|ks| - 1];
      SortKeysFacts(init);
      assert ks[|ks| - 1] !in multiset(init);
      InsertFacts(ks[|ks| - 1], SortKeys(init));
      assert ks == init + [ks[|ks| - 1]];
    }
  }

  // ---------------------------------------------------------------------
  // `analyzeStreaksData`.

  /** One winter of the page: its key and its intervals at the chosen threshold. */
  datatype Winter = Winter(key: string, intervals: seq<Interval>)

  /** A streak as the page shows it: the precomputed entry plus the `isCurrent` tag. */
  datatype StreakView = StreakView(from: int, to: int, durationMs: int, isOngoing: bool, isCurrent: bool)

  datatype Analysis = Analysis(winters: seq<Winter>, top10: seq<StreakView>, current: Option<StreakView>)

  function View(e: Entry, isCurrent: bool): StreakView {
    StreakView(e.start, e.end, e.durationMs, e.isOngoing, isCurrent)
  }

  function Views(es: seq<Entry>): seq<StreakView>
  {
    seq(|es|, i requires 0 <= i < |es| => View(es[i], false))
  }

  function WintersOf(keys: seq<string>, lists: map<string, seq<Interval>>): seq<Winter>
  {
    seq(|keys|, i requires 0 <= i < |keys| => Winter(keys[i], Lookup(lists, keys[i])))
  }

  /** `cachedStreaksData[threshold] || { top10: [], current: null }`. */
  function Precomputed(streaks: map<int, ThresholdResult>, threshold: int): ThresholdResult {
    if threshold in streaks then streaks[threshold] else ThresholdResult([], None)
  }

  /** The winters object before sorting: seeded from threshold 0, filled from the chosen threshold. */
  function WinterGroups(table: map<string, seq<Interval>>, threshold: int, keyOf: Interval -> string): Grouping {
    Grouped(Seeded(Lookup(table, IntToString(0)), keyOf), Lookup(table, IntToString(threshold)), keyOf)
  }

  /** What `analyzeStreaksData(threshold)` returns. */
  function Analyzed(streaks: map<int, ThresholdResult>, table: map<string, seq<Interval>>,
                    threshold: int, keyOf: Interval -> string): Analysis
  {
    var pre := Precomputed(streaks, threshold);
    var g := WinterGroups(table, threshold, keyOf);
    Analysis(WintersOf(SortKeys(g.keys), g.lists), Views(pre.top10),
             if pre.current.Some? then Some(View(pre.current.value, true)) else None)
  }

  /** The loop that seeds the winters from the threshold-0 intervals. */
  method SeedWinters(zero: seq<Interval>, keyOf: Interval -> string) returns (g: Grouping)
    ensures g == Seeded(zero, keyOf)
  {
    g := Grouping([], map[]);
    var i := 0;
    while i < |zero|
      invariant 0 <= i <= |zero|
      invariant g == Seeded(zero[..i], keyOf)
    {
      assert zero[..i + 1][..i] == zero[..i];
      var key := keyOf(zero[i]);
      if key !in g.lists {
        g := Grouping(g.keys + [key], g.lists[key := []]);
      }
      i := i + 1;
    }
    assert zero[..i] == zero;
  }

  /** The loop that pushes each interval of the chosen threshold onto its winter. */
  method FillWinters(base: Grouping, ivs: seq<Interval>, keyOf: Interval -> string) returns (g: Grouping)
    ensures g == Grouped(base, ivs, keyOf)
  {
    g := base;
    var i := 0;
    while i < |ivs|
      invariant 0 <= i <= |ivs|
      invariant g == Grouped(base, ivs[..i], keyOf)
    {
      assert ivs[..i + 1][..i] == ivs[..i];
      var key := keyOf(ivs[i]);
      if key !in g.lists {
        g := Grouping(g.keys + [key], g.lists[key := []]);
      }
      g := Grouping(g.keys, g.lists[key := g.lists[key] + [ivs[i]]]);
      i := i + 1;
    }
    assert ivs[..i] == ivs;
  }

  /** The loop that copies the winters into a new object in sorted key order. */
  method SortWinters(g: Grouping) returns (ws: seq<Winter>)
    ensures ws == WintersOf(SortKeys(g.keys), g.lists)
  {
    var keys := SortKeys(g.keys);
    ws := [];
    var i := 0;
    while i < |keys|
      invariant 0 <= i <= |keys|
      invariant ws == WintersOf(keys[..i], g.lists)
    {
      ws := ws + [Winter(keys[i], Lookup(g.lists, keys[i]))];
      i := i + 1;
    }
    assert keys[..i] == keys;
  }

  /**
   * `analyzeStreaksData(threshold)` over the two caches. The intervals are
   * looked up under the threshold's decimal text, as object keys are.
   */
  method AnalyzeStreaks(streaks: map<int, ThresholdResult>, cache: IntervalCache,
                        threshold: int, keyOf: Interval -> string) returns (a: Analysis)
    ensures a == Analyzed(streaks, cache.byThreshold, threshold, keyOf)
  {
    var pre := Precomputed(streaks, threshold);
    var intervals := Lookup(cache.byThreshold, IntToString(threshold));
    var top10 := Views(pre.top10);
    var current := None;
    if pre.current.Some? {
      current := Some(View(pre.current.value, true));
    }
    var zero := Lookup(cache.byThreshold, IntToString(0));
    var seeded := SeedWinters(zero, keyOf);
    var grouped := FillWinters(seeded, intervals, keyOf);
    var winters := SortWinters(grouped);
    a := Analysis(winters, top10, current);
  }

  /**
   * The precomputed part: an unknown threshold has no top ten and no
   * current streak; a known one has its top ten in order, none tagged
   * current, and its current streak, tagged current, exactly when one was
   * precomputed.
   */
  lemma AnalyzedStreaks(streaks: map<int, ThresholdResult>, table: map<string, seq<Interval>>,
                        threshold: int, keyOf: Interval -> string)
    ensures var a := Analyzed(streaks, table, threshold, keyOf);
      (threshold !in streaks ==> a.top10 == [] && a.current.None?)
      && (threshold in streaks ==>
            var pre := streaks[threshold];
            |a.top10| == |pre.top10|
            && (forall i :: 0 <= i < |pre.top10| ==>
                  a.top10[i].from == pre.top10[i].start && a.top10[i].to == pre.top10[i].end
                  && a.top10[i].durationMs == pre.top10[i].durationMs && !a.top10[i].isCurrent)
            && (a.current.Some? <==> pre.current.Some?)
            && (a.current.Some? ==> a.current.value.isCurrent && a.current.value.from == pre.current.value.start))
  {
  }

  /** Some winter of `ws` is named `key`. */
  predicate HasWinter(ws: seq<Winter>, key: string) {
    exists i :: 0 <= i < |ws| && ws[i].key == key
  }

  /** Sorting a consistent object lists each of its winters once, in ascending key order. */
  lemma SortedWinters(g: Grouping)
    requires Consistent(g)
    ensures var ws := WintersOf(SortKeys(g.keys), g.lists);
      (forall i, j :: 0 <= i < j < |ws| ==> Below(ws[i].key, ws[j].key))
      && (forall k :: HasWinter(ws, k) <==> k in g.lists)
      && (forall i :: 0 <= i < |ws| ==> ws[i].intervals == Lookup(g.lists, ws[i].key))
  {
    SortKeysFacts(g.keys);
    var sorted := SortKeys(g.keys);
    var ws := WintersOf(sorted, g.lists);
    forall k ensures HasWinter(ws, k) <==> k in g.keys {
      if k in g.keys {
        assert k in multiset(sorted);
        var i :| 0 <= i < |sorted| && sorted[i] == k;
        assert ws[i].key == k;
      }
      if HasWinter(ws, k) {
        var i :| 0 <= i < |ws| && ws[i].key == k;
        assert sorted[i] in multiset(g.keys);
      }
    }
  }

  /**
   * The winters: their keys are strictly ascending, a key is present
   * exactly when some threshold-0 interval or some interval of the chosen
   * threshold falls in that winter, and each winter holds the chosen
   * threshold's intervals of that winter, in their order.
   */
  lemma WintersFacts(streaks: map<int, ThresholdResult>, table: map<string, seq<Interval>>,
                     threshold: int, keyOf: Interval -> string)
    ensures var ws := Analyzed(streaks, table, threshold, keyOf).winters;
      var zero, chosen := Lookup(table, IntToString(0)), Lookup(table, IntToString(threshold));
      (forall i, j :: 0 <= i < j < |ws| ==> Below(ws[i].key, ws[j].key))
      && (forall k :: HasWinter(ws, k) <==> Names(zero, keyOf, k) || Names(chosen, keyOf, k))
      && (forall i :: 0 <= i < |ws| ==> ws[i].intervals == Matching(chosen, ws[i].key, keyOf))
  {
    var zero, chosen := Lookup(table, IntToString(0)), Lookup(table, IntToString(threshold));
    var seed := Seeded(zero, keyOf);
    SeededFacts(zero, keyOf);
    GroupedKeys(seed, chosen, keyOf);
    var g := Grouped(seed, chosen, keyOf);
    SortedWinters(g);
    forall k ensures Lookup(g.lists, k) == Matching(chosen, k, keyOf) {
      GroupedList(seed, chosen, keyOf, k);
    }
  }

  /** Each interval of the chosen threshold lies in the winter named by its own key, and in no other. */
  lemma IntervalInItsWinter(ivs: seq<Interval>, key: string, keyOf: Interval -> string, iv: Interval)
    ensures iv in Matching(ivs, key, keyOf) <==> iv in ivs && keyOf(iv) == key
  {
    MatchingMembers(ivs, key, keyOf);
  }

  lemma {:induction false} MatchingMembers(ivs: seq<Interval>, key: string, keyOf: Interval -> string)
    ensures forall iv :: iv in Matching(ivs, key, keyOf) <==> iv in ivs && keyOf(iv) == key
    decreases |ivs|
  {
    if ivs != [] {
      var init := ivs[..|ivs| - 1];
      MatchingMembers(init, key, keyOf);
      assert ivs == init + [ivs[|ivs| - 1]];
    }
  }

  // ---------------------------------------------------------------------
  // The separate card for the current streak (streaks.js:111).

  /** `top10.find(s => s.from.getTime() === from)`, as the index it stops at. */
  function FirstSameStart(views: seq<StreakView>, from: int): (r: Option<nat>)
    ensures r.None? <==> forall i :: 0 <= i < |views| ==> views[i].from != from
    ensures r.Some? ==>
      r.value < |views| && views[r.value].from == from && forall i :: 0 <= i < r.value ==> views[i].from != from
    decreases |views|
  {
    if views == [] then None
    else if views[0].from == from then Some(0)
    else
      var rest := FirstSameStart(views[1..], from);
      assert forall i :: 1 <= i < |views| ==> views[i] == views[1..][i - 1];
      if rest.None? then None else Some(rest.value + 1)
  }

  /**
   * The current streak gets a card of its own when there is one and no
   * streak of the top ten starts at the same instant.
   */
  function ShowCurrentSeparately(a: Analysis): (show: bool)
    ensures show <==> a.current.Some? && forall i :: 0 <= i < |a.top10| ==> a.top10[i].from != a.current.value.from
  {
    a.current.Some? && FirstSameStart(a.top10, a.current.value.from).None?
  }
}
