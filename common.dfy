/**
 * common.js: `formatDuration`, the short "Np Nh Nm" duration text of the
 * viewers (`p` for days, `h` for hours, `m` for minutes).
 */
module Common {
  import opened Text
  import opened JsNumber

  const DAY_MS: int := 86_400_000
  const HOUR_MS: int := 3_600_000
  const MINUTE_MS: int := 60_000

  datatype Dhm = Dhm(days: int, hours: int, minutes: int)

  /**
   * `days = floor(ms / day)`, `hours = floor((ms % day) / hour)`,
   * `minutes = floor((ms % hour) / minute)`, with JavaScript's `%`.
   */
  function Breakdown(ms: int): (b: Dhm)
    ensures ms >= 0 ==> (b.days == ms / DAY_MS && 0 <= b.hours < 24 && 0 <= b.minutes < 60
                         && Whole(b) <= ms < Whole(b) + MINUTE_MS)
    ensures ms < MINUTE_MS ==> b.days <= 0 && b.hours <= 0 && b.minutes <= 0
    ensures ms >= MINUTE_MS ==> b.days > 0 || b.hours > 0 || b.minutes > 0
  {
    var b := Dhm(ms / DAY_MS, JsRem(ms, DAY_MS) / HOUR_MS, JsRem(ms, HOUR_MS) / MINUTE_MS);
    DecomposeMs(ms);
    b
  }

  /** The milliseconds the components stand for. */
  function Whole(b: Dhm): int {
    b.days * DAY_MS + b.hours * HOUR_MS + b.minutes * MINUTE_MS
  }

  lemma DecomposeMs(ms: int)
    ensures ms >= 0 ==>
      var d, h, m := ms / DAY_MS, (ms % DAY_MS) / HOUR_MS, (ms % HOUR_MS) / MINUTE_MS;
      0 <= h < 24 && 0 <= m < 60
      && d * DAY_MS + h * HOUR_MS + m * MINUTE_MS <= ms < d * DAY_MS + h * HOUR_MS + m * MINUTE_MS + MINUTE_MS
  {
    if ms >= 0 {
      var d, r := ms / DAY_MS, ms % DAY_MS;
      var h, r2 := r / HOUR_MS, r % HOUR_MS;
      HourOfDay(r);
      HourRemainder(ms, d * 24 + h, r2);
      MinuteOfHour(r2);
    }
  }

  lemma HourOfDay(r: int)
    requires 0 <= r < DAY_MS
    ensures 0 <= r / HOUR_MS < 24 && r == r / HOUR_MS * HOUR_MS + r % HOUR_MS
  {
  }

  lemma HourRemainder(x: int, q: int, r: int)
    requires x == q * HOUR_MS + r && 0 <= r < HOUR_MS
    ensures x % HOUR_MS == r
  {
  }

  lemma MinuteOfHour(r: int)
    requires 0 <= r < HOUR_MS
    ensures 0 <= r / MINUTE_MS < 60 && r / MINUTE_MS * MINUTE_MS <= r < r / MINUTE_MS * MINUTE_MS + MINUTE_MS
  {
  }

  /** `n + unit`. */
  function Token(n: nat, unit: char): string {
    NatToString(n) + [unit]
  }

  function OptionalToken(n: int, unit: char): seq<string> {
    if n > 0 then [Token(n, unit)] else []
  }

  /** The non-zero components as tokens, in the order days, hours, minutes. */
  function Tokens(b: Dhm): seq<string> {
    OptionalToken(b.days, 'p') + OptionalToken(b.hours, 'h') + OptionalToken(b.minutes, 'm')
  }

  /** The string `res` before `trim()`: `days + 'p '`, `hours + 'h '`, `minutes + 'm'`, each only when positive. */
  function Assembled(b: Dhm): string {
    (if b.days > 0 then Token(b.days, 'p') + " " else "")
    + (if b.hours > 0 then Token(b.hours, 'h') + " " else "")
    + (if b.minutes > 0 then Token(b.minutes, 'm') else "")
  }

  /** `res.trim() || '0m'` for given components. */
  function Shown(b: Dhm): string {
    var t := Trim(Assembled(b));
    if t == "" then "0m" else t
  }

  /** `formatDuration(ms)`. */
  function FormatDuration(ms: int): string {
    Shown(Breakdown(ms))
  }

  // Reading a short duration back.

  function UnitMinutes(c: char): int {
    if c == 'p' then 1440 else if c == 'h' then 60 else if c == 'm' then 1 else 0
  }

  function TokenMinutes(t: string): int {
    if |t| >= 1 && AllDigits(t[..|t| - 1]) then DigitsValue(t[..|t| - 1]) * UnitMinutes(t[|t| - 1]) else 0
  }

  function ReadTokens(ts: seq<string>): int
    decreases |ts|
  {
    if ts == [] then 0 else TokenMinutes(ts[0]) + ReadTokens(ts[1..])
  }

  /** The minutes a short duration denotes. */
  function ReadDuration(s: string): int {
    ReadTokens(Split(s, " "))
  }

  lemma {:induction false} ReadTokensAppend(a: seq<string>, b: seq<string>)
    ensures ReadTokens(a + b) == ReadTokens(a) + ReadTokens(b)
    decreases |a|
  {
    if a != [] {
      assert (a + b)[1..] == a[1..] + b;
      ReadTokensAppend(a[1..], b);
    } else {
      assert a + b == a + b;
      assert a + b == b;
    }
  }

  /** A token starts with a digit, ends with its unit, holds no space and reads back as its value. */
  lemma TokenFacts(n: nat, unit: char)
    requires unit == 'p' || unit == 'h' || unit == 'm'
    ensures var t := Token(n, unit);
      |t| >= 2 && IsDigit(t[0]) && t[|t| - 1] == unit
      && !Contains(t, " ")
      && TokenMinutes(t) == n * UnitMinutes(unit)
  {
    var d := NatToString(n);
    var t := Token(n, unit);
    assert t[..|t| - 1] == d;
    assert forall i :: 0 <= i < |d| ==> IsDigit(d[i]);
    forall i | 0 <= i < |t| ensures t[i] != ' ' {
      if i < |d| {
        assert t[i] == d[i];
      }
    }
    MissingFirstChar(t, " ");
  }

  lemma OptionalTokenFacts(n: int, unit: char)
    requires n >= 0 && (unit == 'p' || unit == 'h' || unit == 'm')
    ensures ReadTokens(OptionalToken(n, unit)) == n * UnitMinutes(unit)
    ensures forall i :: 0 <= i < |OptionalToken(n, unit)| ==> !Contains(OptionalToken(n, unit)[i], " ")
  {
    if n > 0 {
      TokenFacts(n, unit);
      assert OptionalToken(n, unit)[1..] == [];
    }
  }

  predicate Unpadded(t: string) {
    t != [] && !IsWhitespace(t[0]) && !IsWhitespace(t[|t| - 1])
  }

  function Pick(on: bool, t: string): seq<string> {
    if on then [t] else []
  }

  lemma TokenUnpadded(n: nat, unit: char)
    requires unit == 'p' || unit == 'h' || unit == 'm'
    ensures Unpadded(Token(n, unit))
  {
    TokenFacts(n, unit);
  }

  /** With the minutes token present, `res` is exactly the tokens joined by spaces. */
  lemma AssembledWithMinutes(tp: string, th: string, tm: string, p: bool, h: bool)
    requires Unpadded(tp) && Unpadded(th) && Unpadded(tm)
    ensures var a := (if p then tp + " " else "") + (if h then th + " " else "") + tm;
      Trim(a) == Join(Pick(p, tp) + Pick(h, th) + [tm], " ")
  {
    var a := (if p then tp + " " else "") + (if h then th + " " else "") + tm;
    var ts := Pick(p, tp) + Pick(h, th) + [tm];
    var first := if p then tp[0] else if h then th[0] else tm[0];
    assert a[0] == first;
    assert a[|a| - 1] == tm[|tm| - 1];
    if p && h {
      assert ts == [tp, th, tm];
      JoinThree(tp, th, tm, " ");
    } else if p {
      assert ts == [tp, tm];
      JoinTwo(tp, tm, " ");
    } else if h {
      assert ts == [th, tm];
      JoinTwo(th, tm, " ");
    } else {
      assert ts == [tm];
    }
    assert a == Join(ts, " ");
    TrimUnpadded(a);
  }

  /** Without it, `res` carries one trailing space that `trim()` removes. */
  lemma AssembledWithoutMinutes(tp: string, th: string, p: bool, h: bool)
    requires Unpadded(tp) && Unpadded(th) && (p || h)
    ensures var a := (if p then tp + " " else "") + (if h then th + " " else "");
      Trim(a) == Join(Pick(p, tp) + Pick(h, th), " ")
  {
    var j := if p && h then tp + " " + th else if p then tp else th;
    var ts := Pick(p, tp) + Pick(h, th);
    if p && h {
      assert ts == [tp, th];
      JoinTwo(tp, th, " ");
    } else if p {
      assert ts == [tp];
    } else {
      assert ts == [th];
    }
    assert j == Join(ts, " ");
    assert j[0] == (if p then tp[0] else th[0]);
    assert j[|j| - 1] == (if h then th[|th| - 1] else tp[|tp| - 1]);
    assert (if p then tp + " " else "") + (if h then th + " " else "") == j + " ";
    TrimTrailingSpace(j);
  }

  function Present(n: int, unit: char): string {
    if n > 0 then Token(n, unit) else "0"
  }

  lemma PresentUnpadded(n: int, unit: char)
    requires unit == 'p' || unit == 'h' || unit == 'm'
    ensures Unpadded(Present(n, unit)) && OptionalToken(n, unit) == Pick(n > 0, Present(n, unit))
  {
    if n > 0 {
      TokenUnpadded(n, unit);
    }
  }

  lemma TrimmedWithMinutes(b: Dhm)
    requires b.minutes > 0
    ensures Trim(Assembled(b)) == Join(Tokens(b), " ")
  {
    var tp, th, tm := Present(b.days, 'p'), Present(b.hours, 'h'), Present(b.minutes, 'm');
    PresentUnpadded(b.days, 'p');
    PresentUnpadded(b.hours, 'h');
    PresentUnpadded(b.minutes, 'm');
    assert Assembled(b) == (if b.days > 0 then tp + " " else "") + (if b.hours > 0 then th + " " else "") + tm;
    AssembledWithMinutes(tp, th, tm, b.days > 0, b.hours > 0);
  }

  lemma TrimmedWithoutMinutes(b: Dhm)
    requires b.minutes <= 0 && (b.days > 0 || b.hours > 0)
    ensures Trim(Assembled(b)) == Join(Tokens(b), " ")
  {
    var tp, th := Present(b.days, 'p'), Present(b.hours, 'h');
    PresentUnpadded(b.days, 'p');
    PresentUnpadded(b.hours, 'h');
    assert Assembled(b) == (if b.days > 0 then tp + " " else "") + (if b.hours > 0 then th + " " else "");
    assert Tokens(b) == Pick(b.days > 0, tp) + Pick(b.hours > 0, th);
    AssembledWithoutMinutes(tp, th, b.days > 0, b.hours > 0);
  }

  /** After trimming, the text is the tokens joined by single spaces. */
  lemma TrimmedIsJoin(b: Dhm)
    ensures Tokens(b) == [] ==> Assembled(b) == ""
    ensures Tokens(b) != [] ==> Trim(Assembled(b)) == Join(Tokens(b), " ")
  {
    if b.minutes > 0 {
      TrimmedWithMinutes(b);
    } else if b.days > 0 || b.hours > 0 {
      TrimmedWithoutMinutes(b);
    }
  }

  lemma ReadTokensOfBreakdown(b: Dhm)
    requires b.days >= 0 && b.hours >= 0 && b.minutes >= 0
    ensures ReadTokens(Tokens(b)) == b.days * 1440 + b.hours * 60 + b.minutes
    ensures forall i :: 0 <= i < |Tokens(b)| ==> !Contains(Tokens(b)[i], " ")
  {
    var tp, th, tm := OptionalToken(b.days, 'p'), OptionalToken(b.hours, 'h'), OptionalToken(b.minutes, 'm');
    OptionalTokenFacts(b.days, 'p');
    OptionalTokenFacts(b.hours, 'h');
    OptionalTokenFacts(b.minutes, 'm');
    ReadTokensAppend(tp, th);
    ReadTokensAppend(tp + th, tm);
  }

  lemma SingleSpaceHasNoBorder()
    ensures NoBorder(" ")
  {
  }

  lemma WholeMinutes(ms: int, q: int)
    requires q * MINUTE_MS <= ms < q * MINUTE_MS + MINUTE_MS
    ensures ms / MINUTE_MS == q
  {
  }

  /** The minutes components stand for. */
  function Minutes(b: Dhm): int {
    b.days * 1440 + b.hours * 60 + b.minutes
  }

  /** No token is printed exactly when no component is positive. */
  lemma NoTokens(b: Dhm)
    ensures Tokens(b) == [] <==> b.days <= 0 && b.hours <= 0 && b.minutes <= 0
  {
  }

  /** For non-negative components the text splits into the tokens and reads back as their minutes. */
  lemma ShownReadsBack(b: Dhm)
    requires b.days >= 0 && b.hours >= 0 && b.minutes >= 0
    ensures Tokens(b) != [] ==> Split(Shown(b), " ") == Tokens(b)
    ensures ReadDuration(Shown(b)) == Minutes(b)
  {
    var ts := Tokens(b);
    TrimmedIsJoin(b);
    ReadTokensOfBreakdown(b);
    if ts == [] {
      ZeroText();
    } else {
      assert Join(ts, " ")[0] == ts[0][0];
      SingleSpaceHasNoBorder();
      SplitJoin(ts, " ");
    }
  }

  /** `'0m'` reads back as no minutes. */
  lemma ZeroText()
    ensures Trim("") == "" && Split("0m", " ") == ["0m"] && ReadTokens(["0m"]) == 0
  {
    TokenFacts(0, 'm');
    assert Token(0, 'm') == "0m";
    SplitWithout("0m", " ");
    assert ReadTokens(["0m"]) == TokenMinutes("0m") + ReadTokens([]);
  }

  /**
   * For a non-negative duration the text splits on single spaces into the
   * non-zero tokens, days before hours before minutes, and reading it back
   * gives `floor(ms / 60000)`.
   */
  lemma FormatDurationReadsBack(ms: int)
    requires ms >= 0
    ensures ms >= MINUTE_MS ==> Split(FormatDuration(ms), " ") == Tokens(Breakdown(ms))
    ensures ReadDuration(FormatDuration(ms)) == ms / MINUTE_MS
  {
    var b := Breakdown(ms);
    NoTokens(b);
    ShownReadsBack(b);
    BreakdownMinutes(ms);
  }

  /** Non-negative durations break down into the whole minutes they hold. */
  lemma BreakdownMinutes(ms: int)
    requires ms >= 0
    ensures var b := Breakdown(ms);
      b.days >= 0 && b.hours >= 0 && b.minutes >= 0 && Minutes(b) == ms / MINUTE_MS
  {
    var b := Breakdown(ms);
    assert Whole(b) == Minutes(b) * MINUTE_MS;
    WholeMinutes(ms, Minutes(b));
  }

  /** The first token a non-empty breakdown prints, and where its text starts. */
  lemma FirstToken(b: Dhm)
    requires Tokens(b) != []
    ensures var n := if b.days > 0 then b.days else if b.hours > 0 then b.hours else b.minutes;
      n > 0 && Tokens(b)[0] == Token(n, if b.days > 0 then 'p' else if b.hours > 0 then 'h' else 'm')
      && Unpadded(Tokens(b)[0]) && Tokens(b)[0][0] == NatToString(n)[0]
  {
    var n := if b.days > 0 then b.days else if b.hours > 0 then b.hours else b.minutes;
    var u := if b.days > 0 then 'p' else if b.hours > 0 then 'h' else 'm';
    TokenUnpadded(n, u);
  }

  /** The text is `'0m'` exactly when no token is printed. */
  lemma ShownZero(b: Dhm)
    ensures Shown(b) == "0m" <==> Tokens(b) == []
  {
    var ts := Tokens(b);
    TrimmedIsJoin(b);
    if ts != [] {
      FirstToken(b);
      JoinFirst(ts, " ");
    } else {
      assert Trim("") == "";
    }
  }

  /** The text never starts or ends with whitespace. */
  lemma ShownUnpadded(b: Dhm)
    ensures Unpadded(Shown(b))
  {
    var ts := Tokens(b);
    TrimmedIsJoin(b);
    if ts != [] {
      FirstToken(b);
      JoinFirst(ts, " ");
    } else {
      assert Trim("") == "";
    }
  }

  /**
   * The text is `'0m'` exactly when the duration is under one minute,
   * negative durations included, and it never starts or ends with whitespace.
   */
  lemma ZeroMinutesIff(ms: int)
    ensures FormatDuration(ms) == "0m" <==> ms < MINUTE_MS
    ensures var r := FormatDuration(ms); r != [] && !IsWhitespace(r[0]) && !IsWhitespace(r[|r| - 1])
  {
    var b := Breakdown(ms);
    NoTokens(b);
    ShownZero(b);
    ShownUnpadded(b);
  }
}
