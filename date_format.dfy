/**
 * `formatDate`, written out identically in compact_data.js and
 * refresh_data.js: the local calendar fields of a date as
 * `YYYY-MM-DD HH:mm:ss`, the month 1-based and every field after the year
 * padded to two digits.
 */
module DateFormat {
  import opened Wrappers
  import opened Text

  /**
   * What `getFullYear`, `getMonth` (0-based), `getDate`, `getHours`,
   * `getMinutes` and `getSeconds` return for a date.
   */
  datatype DateTime = DateTime(year: int, month: nat, day: nat, hours: nat, minutes: nat, seconds: nat)

  /** `String(n).padStart(2, '0')`. */
  function Two(n: nat): string {
    PadStart2(NatToString(n))
  }

  function DatePart(d: DateTime): string {
    IntToString(d.year) + "-" + Two(d.month + 1) + "-" + Two(d.day)
  }

  function TimePart(d: DateTime): string {
    Two(d.hours) + ":" + Two(d.minutes) + ":" + Two(d.seconds)
  }

  function FormatDate(d: DateTime): string {
    DatePart(d) + " " + TimePart(d)
  }

  /** Fields a calendar produces for a four-digit year. */
  predicate InRange(d: DateTime) {
    1000 <= d.year <= 9999 && d.month < 12 && 1 <= d.day <= 31
    && d.hours < 24 && d.minutes < 60 && d.seconds < 60
  }

  /** Reads back the layout `FormatDate` writes. */
  function ReadDate(s: string): (r: Option<DateTime>)
    ensures r.Some? ==> InRange(r.value)
  {
    if |s| == 19 && s[4] == '-' && s[7] == '-' && s[10] == ' ' && s[13] == ':' && s[16] == ':'
      && AllDigits(s[0..4]) && AllDigits(s[5..7]) && AllDigits(s[8..10])
      && AllDigits(s[11..13]) && AllDigits(s[14..16]) && AllDigits(s[17..19])
      && DigitsValue(s[5..7]) >= 1
    then
      var d := DateTime(DigitsValue(s[0..4]), DigitsValue(s[5..7]) - 1, DigitsValue(s[8..10]),
        DigitsValue(s[11..13]), DigitsValue(s[14..16]), DigitsValue(s[17..19]));
      if InRange(d) then Some(d) else None
    else None
  }

  // ---------------------------------------------------------------------
  // Digits.

  lemma {:induction false} NatToStringLength(n: nat)
    ensures 100 <= n < 1000 ==> |NatToString(n)| == 3
    ensures 1000 <= n < 10000 ==> |NatToString(n)| == 4
  {
    if n >= 100 {
      NatToStringLength(n / 10);
    }
  }

  /** Two digits that string `Two(n)` is, for `n < 100`. */
  lemma TwoDigits(n: nat)
    requires n < 100
    ensures |Two(n)| == 2 && AllDigits(Two(n)) && DigitsValue(Two(n)) == n
  {
    var t := NatToString(n);
    if n < 10 {
      assert Two(n) == "0" + t;
      assert ("0" + t)[..1] == "0";
      assert DigitsValue("0") == 0 by { assert "0"[..0] == []; }
    }
  }

  lemma {:induction false} LeadingDigitPositive(t: string)
    requires |t| >= 1 && AllDigits(t) && t[0] != '0'
    ensures DigitsValue(t) >= 1
    decreases |t|
  {
    if |t| > 1 {
      var p := t[..|t| - 1];
      assert p[0] == t[0];
      LeadingDigitPositive(p);
    } else {
      assert t[..0] == [];
    }
  }

  function Pow10(n: nat): nat {
    if n == 0 then 1 else 10 * Pow10(n - 1)
  }

  /** `n` digits stay below `10^n`, and below `10^(n-1)` after a leading zero. */
  lemma {:induction false} DigitsBound(t: string)
    requires AllDigits(t)
    ensures DigitsValue(t) < Pow10(|t|)
    ensures t != [] && t[0] == '0' ==> DigitsValue(t) < Pow10(|t| - 1)
    decreases |t|
  {
    if t != [] {
      var p := t[..|t| - 1];
      DigitsBound(p);
      if p != [] {
        assert p[0] == t[0];
      }
    }
  }

  /** A digit string without a leading zero is `String` of its value. */
  lemma {:induction false} DigitsRoundTrip(t: string)
    requires |t| >= 1 && AllDigits(t) && (|t| == 1 || t[0] != '0')
    ensures NatToString(DigitsValue(t)) == t
    decreases |t|
  {
    var v := DigitsValue(t);
    if |t| == 1 {
      assert t[..0] == [];
      assert DigitsValue(t[..0]) == 0;
      assert v == DigitValue(t[0]);
      assert NatToString(v) == [DigitChar(v)];
    } else {
      var p := t[..|t| - 1];
      assert p[0] == t[0];
      LeadingDigitPositive(p);
      DigitsRoundTrip(p);
      var last := DigitValue(t[|t| - 1]);
      assert v == DigitsValue(p) * 10 + last;
      assert v / 10 == DigitsValue(p) && v % 10 == last;
      assert NatToString(v) == NatToString(v / 10) + [DigitChar(v % 10)];
      assert t == p + [t[|t| - 1]];
    }
  }

  /** Two digits read and padded again give the same two digits. */
  lemma TwoRoundTrip(t: string)
    requires |t| == 2 && AllDigits(t)
    ensures Two(DigitsValue(t)) == t
  {
    var v := DigitsValue(t);
    if t[0] != '0' {
      DigitsRoundTrip(t);
    } else {
      var u := t[1..];
      assert t[..1] == "0";
      assert DigitsValue(t[..1]) == 0 by { assert t[..1][..0] == []; }
      assert v == DigitValue(t[1]);
      assert u[..0] == [];
      assert DigitsValue(u) == v;
      DigitsRoundTrip(u);
      assert t == "0" + u;
    }
  }

  // ---------------------------------------------------------------------
  // The layout.

  /** The nineteen characters of a date-time, cut at its six separators. */
  lemma Glue(s: string)
    requires |s| == 19
    ensures s == s[0..4] + [s[4]] + s[5..7] + [s[7]] + s[8..10] + [s[10]]
               + s[11..13] + [s[13]] + s[14..16] + [s[16]] + s[17..19]
  {
    var t := s[0..4] + [s[4]] + s[5..7] + [s[7]] + s[8..10] + [s[10]]
           + s[11..13] + [s[13]] + s[14..16] + [s[16]] + s[17..19];
    assert |t| == 19;
    forall i | 0 <= i < 19 ensures t[i] == s[i] {
    }
  }

  /** Two strings of three fields each, joined by a third separator, are one string of six fields. */
  lemma Regroup(a: string, b: string, c: string, e: string, f: string, g: string,
                x: char, y: char, z: char, u: char, v: char)
    ensures (a + [x] + b + [y] + c) + [z] + (e + [u] + f + [v] + g)
         == a + [x] + b + [y] + c + [z] + e + [u] + f + [v] + g
  {
  }

  /** `FormatDate` glues the padded fields with the six separators. */
  lemma Pieces6(d: DateTime)
    ensures FormatDate(d) == IntToString(d.year) + ['-'] + Two(d.month + 1) + ['-'] + Two(d.day) + [' ']
                           + Two(d.hours) + [':'] + Two(d.minutes) + [':'] + Two(d.seconds)
  {
    Regroup(IntToString(d.year), Two(d.month + 1), Two(d.day), Two(d.hours), Two(d.minutes), Two(d.seconds),
            '-', '-', ' ', ':', ':');
  }

  /** Six comma-free fields joined by separators other than a comma hold no comma. */
  lemma NoCommaIn(a: string, b: string, c: string, e: string, f: string, g: string,
                  x: char, y: char, z: char, u: char, v: char)
    requires ',' !in a && ',' !in b && ',' !in c && ',' !in e && ',' !in f && ',' !in g
    requires x != ',' && y != ',' && z != ',' && u != ',' && v != ','
    ensures ',' !in a + [x] + b + [y] + c + [z] + e + [u] + f + [v] + g
  {
  }

  /** Where the pieces of `a x b y c … ` sit when the fields have their lengths in range. */
  lemma Slices(y: string, mo: string, da: string, h: string, mi: string, se: string)
    requires |y| == 4 && |mo| == 2 && |da| == 2 && |h| == 2 && |mi| == 2 && |se| == 2
    ensures var s := y + ['-'] + mo + ['-'] + da + [' '] + h + [':'] + mi + [':'] + se;
      |s| == 19 && s[4] == '-' && s[7] == '-' && s[10] == ' ' && s[13] == ':' && s[16] == ':'
      && s[0..4] == y && s[5..7] == mo && s[8..10] == da
      && s[11..13] == h && s[14..16] == mi && s[17..19] == se
  {
    var s := y + ['-'] + mo + ['-'] + da + [' '] + h + [':'] + mi + [':'] + se;
    assert s[0..4] == y by { assert forall i | 0 <= i < 4 :: s[i] == y[i]; }
    assert s[5..7] == mo by { assert forall i | 0 <= i < 2 :: s[5 + i] == mo[i]; }
    assert s[8..10] == da by { assert forall i | 0 <= i < 2 :: s[8 + i] == da[i]; }
    assert s[11..13] == h by { assert forall i | 0 <= i < 2 :: s[11 + i] == h[i]; }
    assert s[14..16] == mi by { assert forall i | 0 <= i < 2 :: s[14 + i] == mi[i]; }
    assert s[17..19] == se by { assert forall i | 0 <= i < 2 :: s[17 + i] == se[i]; }
  }

  /**
   * For fields in range, the date is 19 characters: the slices between
   * the separators are the padded fields.
   */
  lemma Layout(d: DateTime)
    requires InRange(d)
    ensures var s := FormatDate(d);
      |s| == 19 && s[4] == '-' && s[7] == '-' && s[10] == ' ' && s[13] == ':' && s[16] == ':'
      && s[0..4] == NatToString(d.year) && s[5..7] == Two(d.month + 1) && s[8..10] == Two(d.day)
      && s[11..13] == Two(d.hours) && s[14..16] == Two(d.minutes) && s[17..19] == Two(d.seconds)
  {
    NatToStringLength(d.year);
    TwoDigits(d.month + 1);
    TwoDigits(d.day);
    TwoDigits(d.hours);
    TwoDigits(d.minutes);
    TwoDigits(d.seconds);
    Pieces6(d);
    Slices(IntToString(d.year), Two(d.month + 1), Two(d.day), Two(d.hours), Two(d.minutes), Two(d.seconds));
  }

  /** A string with the layout of a date is the date of its fields. */
  lemma Assemble(s: string, d: DateTime)
    requires |s| == 19 && s[4] == '-' && s[7] == '-' && s[10] == ' ' && s[13] == ':' && s[16] == ':'
    requires s[0..4] == IntToString(d.year) && s[5..7] == Two(d.month + 1) && s[8..10] == Two(d.day)
    requires s[11..13] == Two(d.hours) && s[14..16] == Two(d.minutes) && s[17..19] == Two(d.seconds)
    ensures s == FormatDate(d)
  {
    Glue(s);
    Pieces6(d);
  }

  /** Every date with fields in range reads back to its fields. */
  lemma FormatDateReadsBack(d: DateTime)
    requires InRange(d)
    ensures ReadDate(FormatDate(d)) == Some(d)
  {
    Layout(d);
    TwoDigits(d.month + 1);
    TwoDigits(d.day);
    TwoDigits(d.hours);
    TwoDigits(d.minutes);
    TwoDigits(d.seconds);
  }

  /** What `ReadDate` takes from each slice. */
  lemma ReadFields(s: string)
    requires ReadDate(s).Some?
    ensures var d := ReadDate(s).value;
      |s| == 19 && s[4] == '-' && s[7] == '-' && s[10] == ' ' && s[13] == ':' && s[16] == ':'
      && AllDigits(s[0..4]) && d.year == DigitsValue(s[0..4])
      && AllDigits(s[5..7]) && d.month + 1 == DigitsValue(s[5..7])
      && AllDigits(s[8..10]) && d.day == DigitsValue(s[8..10])
      && AllDigits(s[11..13]) && d.hours == DigitsValue(s[11..13])
      && AllDigits(s[14..16]) && d.minutes == DigitsValue(s[14..16])
      && AllDigits(s[17..19]) && d.seconds == DigitsValue(s[17..19])
  {
  }

  /** Only a string `FormatDate` writes is read as a date. */
  lemma ReadDateIsFormatted(s: string)
    requires ReadDate(s).Some?
    ensures s == FormatDate(ReadDate(s).value)
  {
    var d := ReadDate(s).value;
    ReadFields(s);
    var y := s[0..4];
    DigitsBound(y);
    assert Pow10(3) == 1000;
    DigitsRoundTrip(y);
    assert IntToString(d.year) == y;
    TwoRoundTrip(s[5..7]);
    TwoRoundTrip(s[8..10]);
    TwoRoundTrip(s[11..13]);
    TwoRoundTrip(s[14..16]);
    TwoRoundTrip(s[17..19]);
    Assemble(s, d);
  }

  /**
   * `ReadDate` accepts exactly the strings `FormatDate` writes for fields
   * in range, and gives back those fields.
   */
  lemma ReadDateIff(s: string, d: DateTime)
    ensures ReadDate(s) == Some(d) <==> InRange(d) && s == FormatDate(d)
  {
    if InRange(d) && s == FormatDate(d) {
      FormatDateReadsBack(d);
    }
    if ReadDate(s) == Some(d) {
      ReadDateIsFormatted(s);
    }
  }

  /** A formatted date has no comma, so it sits in one CSV field. */
  lemma NoComma(d: DateTime)
    requires InRange(d)
    ensures forall i :: 0 <= i < |FormatDate(d)| ==> FormatDate(d)[i] != ','
  {
    TwoDigits(d.month + 1);
    TwoDigits(d.day);
    TwoDigits(d.hours);
    TwoDigits(d.minutes);
    TwoDigits(d.seconds);
    DigitsHaveNoComma(IntToString(d.year));
    DigitsHaveNoComma(Two(d.month + 1));
    DigitsHaveNoComma(Two(d.day));
    DigitsHaveNoComma(Two(d.hours));
    DigitsHaveNoComma(Two(d.minutes));
    DigitsHaveNoComma(Two(d.seconds));
    NoCommaIn(IntToString(d.year), Two(d.month + 1), Two(d.day), Two(d.hours), Two(d.minutes), Two(d.seconds),
              '-', '-', ' ', ':', ':');
    Pieces6(d);
  }

  lemma DigitsHaveNoComma(t: string)
    requires AllDigits(t)
    ensures ',' !in t
  {
  }

}
