/**
 * convert_toravere.js: turns the Tõravere station export (three header
 * lines, then comma-separated rows of year, month, day, time and readings)
 * into `Aeg, MinTemp, MaxTemp, HourTemp` rows.
 */
module ConvertToravere {
  import opened Wrappers
  import opened Text
  import opened DateFormat

  /** The line the output file starts with. */
  const OUTPUT_HEADER: string := "Aeg, MinTemp, MaxTemp, HourTemp"

  /** Lines of header and metadata at the top of the export. */
  const SKIPPED_LINES: nat := 3

  /** Fields a row needs: the temperature is field 9, the minimum 10, the maximum 11. */
  const MIN_FIELDS: nat := 12

  /** `String(undefined)`: what a time without `:` gives for the minutes. */
  const UNDEFINED: string := "undefined"

  /**
   * `formatDateTime`: `year-MM-DD HH:mm:00`, with month, day, hours and
   * minutes padded to two characters (the year as it is). The hours and
   * minutes are the first two `:` pieces of the time; a time without `:`
   * has no minutes, and `undefined` is written in their place.
   */
  function FormatDateTime(year: string, month: string, day: string, time: string): (s: string)
    ensures |s| >= |year| + 15 && s[..|year|] == year && s[|s| - 3..] == ":00"
  {
    var hm := Split(time, ":");
    var minutes := if |hm| >= 2 then PadStart2(hm[1]) else UNDEFINED;
    var mo, da, hh := PadStart2(month), PadStart2(day), PadStart2(hm[0]);
    DateTimeShape(year, mo, da, hh, minutes);
    (year + "-" + mo + "-" + da) + " " + (hh + ":" + minutes + ":00")
  }

  /** The shape of `year-mo-da hh:mi:00` with fields of at least two characters. */
  lemma DateTimeShape(year: string, mo: string, da: string, hh: string, mi: string)
    requires |mo| >= 2 && |da| >= 2 && |hh| >= 2 && |mi| >= 2
    ensures var s := (year + "-" + mo + "-" + da) + " " + (hh + ":" + mi + ":00");
      |s| >= |year| + 15 && s[..|year|] == year && s[|s| - 3..] == ":00"
  {
    var clock := hh + ":" + mi + ":00";
    var s := (year + "-" + mo + "-" + da) + " " + clock;
    assert s[|s| - 3..] == clock[|clock| - 3..];
  }

  /** Digits without the `:` the time is split on. */
  predicate Field2(t: string) {
    1 <= |t| <= 2 && AllDigits(t)
  }

  /** Padding one or two digits gives what `String(n).padStart(2, '0')` gives for their value. */
  lemma PadDigits(t: string)
    requires Field2(t)
    ensures PadStart2(t) == Two(DigitsValue(t))
  {
    if |t| == 1 {
      DigitsRoundTrip(t);
    } else {
      TwoRoundTrip(t);
    }
  }

  /** A time `h:m` of digits splits into its hours and minutes. */
  lemma SplitTime(h: string, m: string)
    requires Field2(h) && Field2(m)
    ensures Split(h + ":" + m, ":") == [h, m]
  {
    MissingFirstChar(h, ":");
    MissingFirstChar(m, ":");
    OneCharHasNoBorder(":");
    JoinTwo(h, m, ":");
    SplitJoin([h, m], ":");
  }

  /**
   * Written from digit fields, `FormatDateTime` writes what `FormatDate`
   * writes for their values, the month made 0-based and zero seconds; with
   * the fields in range, `ReadDate` reads that back (`FormatDateReadsBack`).
   */
  lemma DigitFields(year: string, month: string, day: string, h: string, m: string, d: DateTime)
    requires |year| == 4 && AllDigits(year) && DigitsValue(year) >= 1000
    requires Field2(month) && Field2(day) && Field2(h) && Field2(m)
    requires d.year == DigitsValue(year) && d.month + 1 == DigitsValue(month) && d.day == DigitsValue(day)
    requires d.hours == DigitsValue(h) && d.minutes == DigitsValue(m) && d.seconds == 0
    ensures FormatDateTime(year, month, day, h + ":" + m) == FormatDate(d)
  {
    SameDatePart(year, month, day, d);
    SameTimePart(h, m, d);
    SplitTime(h, m);
    FormatDateTimeIsFormatDate(year, month, day, h, m, d);
  }

  lemma FormatDateTimeIsFormatDate(year: string, month: string, day: string, h: string, m: string, d: DateTime)
    requires DatePart(d) == year + "-" + PadStart2(month) + "-" + PadStart2(day)
    requires TimePart(d) == PadStart2(h) + ":" + PadStart2(m) + ":00"
    requires Split(h + ":" + m, ":") == [h, m]
    ensures FormatDateTime(year, month, day, h + ":" + m) == FormatDate(d)
  {
  }

  lemma SameDatePart(year: string, month: string, day: string, d: DateTime)
    requires |year| == 4 && AllDigits(year) && DigitsValue(year) >= 1000
    requires Field2(month) && Field2(day)
    requires d.year == DigitsValue(year) && d.month + 1 == DigitsValue(month) && d.day == DigitsValue(day)
    ensures DatePart(d) == year + "-" + PadStart2(month) + "-" + PadStart2(day)
  {
    PadDigits(month);
    PadDigits(day);
    DigitsBound(year);
    assert Pow10(3) == 1000;
    DigitsRoundTrip(year);
  }

  lemma SameTimePart(h: string, m: string, d: DateTime)
    requires Field2(h) && Field2(m)
    requires d.hours == DigitsValue(h) && d.minutes == DigitsValue(m) && d.seconds == 0
    ensures TimePart(d) == PadStart2(h) + ":" + PadStart2(m) + ":00"
  {
    PadDigits(h);
    PadDigits(m);
    TwoZero();
    ColonZero(PadStart2(h) + ":" + PadStart2(m));
  }

  lemma TwoZero()
    ensures Two(0) == "00"
  {
    assert NatToString(0) == "0";
  }

  lemma ColonZero(x: string)
    ensures x + ":" + "00" == x + ":00"
  {
    assert x + ":" + "00" == x + (":" + "00");
  }

  /** A time without `:` writes `undefined` for the minutes. */
  lemma TimeWithoutMinutes(year: string, month: string, day: string, time: string)
    requires !Contains(time, ":")
    ensures FormatDateTime(year, month, day, time)
      == (year + "-" + PadStart2(month) + "-" + PadStart2(day)) + " " + (PadStart2(time) + ":" + UNDEFINED + ":00")
  {
    SplitWithout(time, ":");
  }

  /** An output row: the formatted date and the minimum, maximum and hourly temperatures. */
  datatype OutRow = OutRow(when: string, min: int, max: int, temp: int)

  /** What the conversion writes: the header, the rows, and the count it reports. */
  datatype Conversion = Conversion(header: string, rows: seq<OutRow>, rowsProcessed: nat)

  /**
   * The row a data line gives, if any. Fewer than twelve comma fields, or
   * a temperature (field 9) that is not a number, skip it; a minimum or
   * maximum that is not a number falls back to the temperature. `number`
   * is `parseFloat`, `None` for `NaN`.
   */
  function RowOf(line: string, number: string -> Option<int>): Option<OutRow> {
    var parts := Split(line, ",");
    if |parts| < MIN_FIELDS then None
    else
      var temp, minTemp, maxTemp := number(parts[9]), number(parts[10]), number(parts[11]);
      if temp.None? then None
      else
        var outMin := if minTemp.None? then temp.value else minTemp.value;
        var outMax := if maxTemp.None? then temp.value else maxTemp.value;
        Some(OutRow(FormatDateTime(parts[0], parts[1], parts[2], parts[3]), outMin, outMax, temp.value))
  }

  /** `RowOf` with its number parser fixed. */
  function RowReader(number: string -> Option<int>): string -> Option<OutRow> {
    l => RowOf(l, number)
  }

  /** The rows `read` gives for the lines, in their order. */
  function Collect(ls: seq<string>, read: string -> Option<OutRow>): seq<OutRow>
    decreases |ls|
  {
    if ls == [] then []
    else
      var r := read(ls[|ls| - 1]);
      Collect(ls[..|ls| - 1], read) + if r.Some? then [r.value] else []
  }

  /** The data lines: all but the first three. */
  function DataLines(lines: seq<string>): seq<string> {
    if |lines| <= SKIPPED_LINES then [] else lines[SKIPPED_LINES..]
  }

  /** What `convertToravereData` writes, or `None` when the input file does not exist. */
  function Converted(input: Option<seq<string>>, number: string -> Option<int>): Option<Conversion> {
    if input.None? then None
    else
      var rows := Collect(DataLines(input.value), RowReader(number));
      Some(Conversion(OUTPUT_HEADER, rows, |rows|))
  }

  lemma CollectSnoc(ls: seq<string>, l: string, read: string -> Option<OutRow>)
    ensures var r := read(l);
      Collect(ls + [l], read) == Collect(ls, read) + if r.Some? then [r.value] else []
  {
    assert (ls + [l])[..|ls|] == ls;
  }

  /**
   * The line loop of `convertToravereData`: counts lines, skips the first
   * three, writes one row per line that `read` turns into one and counts
   * the rows written.
   */
  method ConvertLines(lines: seq<string>, read: string -> Option<OutRow>) returns (rows: seq<OutRow>, rowsProcessed: nat)
    ensures rows == Collect(DataLines(lines), read) && rowsProcessed == |rows|
  {
    rows := [];
    var lineNum: nat := 0;
    rowsProcessed := 0;
    var i := 0;
    while i < |lines|
      invariant 0 <= i <= |lines| && lineNum == i
      invariant rows == Collect(DataLines(lines[..i]), read)
      invariant rowsProcessed == |rows|
    {
      var line := lines[i];
      lineNum := lineNum + 1;
      assert lines[..i + 1] == lines[..i] + [line];
      if lineNum <= SKIPPED_LINES {
        i := i + 1;
        continue;
      }
      assert DataLines(lines[..i + 1]) == DataLines(lines[..i]) + [line];
      CollectSnoc(DataLines(lines[..i]), line, read);
      var row := read(line);
      if row.Some? {
        rows := rows + [row.value];
        rowsProcessed := rowsProcessed + 1;
      }
      i := i + 1;
    }
    assert lines[..|lines|] == lines;
  }

  /** `convertToravereData`: nothing when the input file is missing, else the header and the converted rows. */
  method ConvertFile(input: Option<seq<string>>, number: string -> Option<int>) returns (out: Option<Conversion>)
    ensures out == Converted(input, number)
  {
    if input.None? {
      return None;
    }
    var rows, rowsProcessed := ConvertLines(input.value, RowReader(number));
    out := Some(Conversion(OUTPUT_HEADER, rows, rowsProcessed));
  }

  /** Whatever the first three lines say, they are skipped. */
  lemma FirstThreeIgnored(a: seq<string>, b: seq<string>, rest: seq<string>, number: string -> Option<int>)
    requires |a| == SKIPPED_LINES && |b| == SKIPPED_LINES
    ensures Converted(Some(a + rest), number) == Converted(Some(b + rest), number)
  {
    assert DataLines(a + rest) == rest;
    assert DataLines(b + rest) == rest;
  }

  lemma {:induction false} CollectAppend(xs: seq<string>, ys: seq<string>, read: string -> Option<OutRow>)
    ensures Collect(xs + ys, read) == Collect(xs, read) + Collect(ys, read)
    decreases |ys|
  {
    if ys == [] {
      assert xs + ys == xs;
    } else {
      var init, l := ys[..|ys| - 1], ys[|ys| - 1];
      assert ys == init + [l];
      assert xs + ys == (xs + init) + [l];
      CollectAppend(xs, init, read);
      CollectSnoc(xs + init, l, read);
      CollectSnoc(init, l, read);
    }
  }

  /** Row `r` is the one `lines[k]` gives, for a data line `k`. */
  predicate GivenBy(lines: seq<string>, r: OutRow, read: string -> Option<OutRow>) {
    exists k :: SKIPPED_LINES <= k < |lines| && read(lines[k]) == Some(r)
  }

  lemma {:induction false} CollectFromLines(ls: seq<string>, read: string -> Option<OutRow>)
    ensures forall r :: r in Collect(ls, read) ==> exists k :: 0 <= k < |ls| && read(ls[k]) == Some(r)
    ensures forall k :: 0 <= k < |ls| && read(ls[k]).Some? ==> read(ls[k]).value in Collect(ls, read)
    decreases |ls|
  {
    if ls != [] {
      var init := ls[..|ls| - 1];
      CollectFromLines(init, read);
      forall r | r in Collect(ls, read) ensures exists k :: 0 <= k < |ls| && read(ls[k]) == Some(r) {
        if r in Collect(init, read) {
          var k :| 0 <= k < |init| && read(init[k]) == Some(r);
          assert ls[k] == init[k];
        } else {
          assert read(ls[|ls| - 1]) == Some(r);
        }
      }
      forall k | 0 <= k < |ls| && read(ls[k]).Some? ensures read(ls[k]).value in Collect(ls, read) {
        if k < |init| {
          assert ls[k] == init[k];
        }
      }
    }
  }

  /**
   * One row per accepted line: every row written is the row of some line
   * after the first three, every such line that gives a row has it
   * written, the rows keep the order of their lines, and `rowsProcessed`
   * is the number of rows.
   */
  lemma ConversionFacts(lines: seq<string>, number: string -> Option<int>)
    ensures var out := Converted(Some(lines), number).value;
      var read := RowReader(number);
      out.header == OUTPUT_HEADER && out.rowsProcessed == |out.rows|
      && (forall r :: r in out.rows ==> GivenBy(lines, r, read))
      && (forall k :: SKIPPED_LINES <= k < |lines| && read(lines[k]).Some? ==> read(lines[k]).value in out.rows)
      && (forall j :: SKIPPED_LINES <= j <= |lines| ==>
            out.rows == Collect(lines[SKIPPED_LINES..j], read) + Collect(lines[j..], read))
  {
    var read := RowReader(number);
    assert Converted(Some(lines), number).value.rows == Collect(DataLines(lines), read);
    CollectedFacts(lines, read);
  }

  /** `ConversionFacts` for any line reader. */
  lemma CollectedFacts(lines: seq<string>, read: string -> Option<OutRow>)
    ensures var rows := Collect(DataLines(lines), read);
      (forall r :: r in rows ==> GivenBy(lines, r, read))
      && (forall k :: SKIPPED_LINES <= k < |lines| && read(lines[k]).Some? ==> read(lines[k]).value in rows)
      && (forall j :: SKIPPED_LINES <= j <= |lines| ==>
            rows == Collect(lines[SKIPPED_LINES..j], read) + Collect(lines[j..], read))
  {
    var ds := DataLines(lines);
    var rows := Collect(ds, read);
    CollectFromLines(ds, read);
    if |lines| > SKIPPED_LINES {
      assert ds == lines[SKIPPED_LINES..];
      forall r | r in rows ensures GivenBy(lines, r, read) {
        var k :| 0 <= k < |ds| && read(ds[k]) == Some(r);
        assert lines[k + SKIPPED_LINES] == ds[k];
      }
      forall k | SKIPPED_LINES <= k < |lines| && read(lines[k]).Some?
        ensures read(lines[k]).value in rows
      {
        assert ds[k - SKIPPED_LINES] == lines[k];
      }
    }
    forall j | SKIPPED_LINES <= j <= |lines|
      ensures rows == Collect(lines[SKIPPED_LINES..j], read) + Collect(lines[j..], read)
    {
      assert ds == lines[SKIPPED_LINES..j] + lines[j..];
      CollectAppend(lines[SKIPPED_LINES..j], lines[j..], read);
    }
  }

  /**
   * A data line built from twelve or more comma-free fields gives a row
   * exactly when its temperature field is a number; the row carries the
   * formatted date of the first four fields and the temperature, and the
   * minimum and maximum fields, or the temperature where they are not
   * numbers. A line with fewer fields gives none.
   */
  lemma FieldsLine(fields: seq<string>, number: string -> Option<int>)
    requires |fields| >= 1 && forall i :: 0 <= i < |fields| ==> forall j :: 0 <= j < |fields[i]| ==> fields[i][j] != ','
    ensures var r := RowOf(Join(fields, ","), number);
      (|fields| < MIN_FIELDS ==> r.None?)
      && (|fields| >= MIN_FIELDS ==>
            (r.Some? <==> number(fields[9]).Some?)
            && (r.Some? ==>
                  r.value.when == FormatDateTime(fields[0], fields[1], fields[2], fields[3])
                  && r.value.temp == number(fields[9]).value
                  && r.value.min == (if number(fields[10]).Some? then number(fields[10]).value else r.value.temp)
                  && r.value.max == (if number(fields[11]).Some? then number(fields[11]).value else r.value.temp)))
  {
    forall i | 0 <= i < |fields| ensures !Contains(fields[i], ",") {
      MissingFirstChar(fields[i], ",");
    }
    OneCharHasNoBorder(",");
    SplitJoin(fields, ",");
  }
}
