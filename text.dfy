/**
 * The string operations of JavaScript that the scripts rely on:
 * `split`, `join`, `trim`, `startsWith`, `padStart(2, '0')` and
 * number-to-string conversion of integers.
 */
module Text {

  /** `sep` occurs in `s` starting at index `j`. */
  predicate OccursAt(s: string, sep: string, j: nat) {
    j + |sep| <= |s| && s[j..j + |sep|] == sep
  }

  predicate Contains(s: string, sep: string) {
    exists j: nat | j <= |s| :: OccursAt(s, sep, j)
  }

  /** Index of the first occurrence of `sep` in `s`, as `indexOf` finds it. */
  function FirstIndex(s: string, sep: string): (k: int)
    requires |sep| > 0
    ensures k == -1 || 0 <= k <= |s| - |sep|
    ensures k == -1 <==> !Contains(s, sep)
    ensures k >= 0 ==> OccursAt(s, sep, k) && forall j: nat :: j < k ==> !OccursAt(s, sep, j)
    decreases |s|
  {
    if |s| < |sep| then
      assert forall j: nat :: !OccursAt(s, sep, j);
      -1
    else if s[..|sep|] == sep then
      assert OccursAt(s, sep, 0);
      0
    else
      var k := FirstIndex(s[1..], sep);
      ShiftOccurs(s, sep);
      assert !OccursAt(s, sep, 0);
      if k == -1 then -1
      else
        assert OccursAt(s, sep, k + 1);
        k + 1
  }

  /** An occurrence past the first character is an occurrence in the rest. */
  lemma ShiftOccurs(s: string, sep: string)
    requires |s| > 0
    ensures forall j: nat :: j > 0 ==> (OccursAt(s, sep, j) <==> OccursAt(s[1..], sep, j - 1))
  {
    forall j: nat | j > 0 ensures OccursAt(s, sep, j) <==> OccursAt(s[1..], sep, j - 1) {
      if j + |sep| <= |s| {
        assert s[1..][j - 1..j - 1 + |sep|] == s[j..j + |sep|];
      }
    }
  }

  /** A string without the separator's first character holds no occurrence of it. */
  lemma MissingFirstChar(s: string, sep: string)
    requires |sep| > 0 && forall i :: 0 <= i < |s| ==> s[i] != sep[0]
    ensures !Contains(s, sep)
  {
    forall j: nat | j <= |s| ensures !OccursAt(s, sep, j) {
      if j + |sep| <= |s| {
        assert s[j..j + |sep|][0] == s[j];
      }
    }
  }

  /** Trimming leaves a string alone when it neither starts nor ends with whitespace. */
  lemma TrimUnpadded(s: string)
    requires s != [] && !IsWhitespace(s[0]) && !IsWhitespace(s[|s| - 1])
    ensures Trim(s) == s
  {
  }

  /** Trimming drops a single trailing space from a string that is otherwise unpadded. */
  lemma TrimTrailingSpace(s: string)
    requires s != [] && !IsWhitespace(s[0]) && !IsWhitespace(s[|s| - 1])
    ensures Trim(s + " ") == s
  {
    assert (s + " ")[..|s|] == s;
  }

  /** The separator first occurs right after a prefix that cannot hold its first character. */
  lemma FirstIndexAfter(p: string, sep: string, rest: string)
    requires |sep| > 0 && forall i :: 0 <= i < |p| ==> p[i] != sep[0]
    ensures FirstIndex(p + sep + rest, sep) == |p|
  {
    var s := p + sep + rest;
    assert s[|p|..|p| + |sep|] == sep;
    assert OccursAt(s, sep, |p|);
    assert Contains(s, sep);
    var k := FirstIndex(s, sep);
    assert k >= 0 ==> s[k] == s[k..k + |sep|][0] == sep[0];
  }

  /** `parts.join(sep)`. */
  function Join(parts: seq<string>, sep: string): string
    decreases |parts|
  {
    if |parts| == 0 then ""
    else if |parts| == 1 then parts[0]
    else parts[0] + sep + Join(parts[1..], sep)
  }

  /** A join starts where its first part does. */
  lemma JoinFirst(parts: seq<string>, sep: string)
    requires parts != [] && parts[0] != []
    ensures Join(parts, sep) != [] && Join(parts, sep)[0] == parts[0][0]
  {
  }

  lemma JoinTwo(a: string, b: string, sep: string)
    ensures Join([a, b], sep) == a + sep + b
  {
    assert [a, b][1..] == [b];
  }

  lemma JoinThree(a: string, b: string, c: string, sep: string)
    ensures Join([a, b, c], sep) == a + sep + b + sep + c
  {
    assert [a, b, c][1..] == [b, c];
    JoinTwo(b, c, sep);
  }

  /**
   * `s.split(sep)` for a non-empty separator: the pieces between the
   * non-overlapping occurrences of `sep`, scanned from the left. Joining the
   * pieces with `sep` gives `s` back, and no piece contains `sep`.
   */
  function Split(s: string, sep: string): (parts: seq<string>)
    requires |sep| > 0
    ensures |parts| >= 1
    ensures Join(parts, sep) == s
    ensures forall i :: 0 <= i < |parts| ==> !Contains(parts[i], sep)
    decreases |s|
  {
    var k := FirstIndex(s, sep);
    if k == -1 then [s]
    else
      var head, rest := s[..k], Split(s[k + |sep|..], sep);
      assert !Contains(head, sep) by {
        forall j: nat ensures !OccursAt(head, sep, j) {
          if OccursAt(head, sep, j) {
            assert s[j..j + |sep|] == head[j..j + |sep|];
            assert OccursAt(s, sep, j);
          }
        }
      }
      assert s == head + sep + s[k + |sep|..];
      [head] + rest
  }

  /** No proper suffix of `sep` is also a prefix of it (true of ", ", "," and ":"). */
  predicate NoBorder(sep: string) {
    forall m :: 0 < m < |sep| ==> sep[m..] != sep[..|sep| - m]
  }

  lemma FirstIndexAfterPiece(p: string, sep: string, rest: string)
    requires |sep| > 0 && NoBorder(sep) && !Contains(p, sep)
    ensures FirstIndex(p + sep + rest, sep) == |p|
  {
    var s := p + sep + rest;
    assert s[|p|..|p| + |sep|] == sep;
    assert OccursAt(s, sep, |p|);
    forall j: nat | j < |p| ensures !OccursAt(s, sep, j) {
      if j + |sep| <= |p| {
        assert s[j..j + |sep|] == p[j..j + |sep|];
        assert !OccursAt(p, sep, j);
      } else {
        // An occurrence here would make a proper suffix of `sep` a prefix of it.
        var m := |p| - j;
        assert s[j..j + |sep|][m..] == sep[..|sep| - m];
        assert sep[m..] != sep[..|sep| - m];
      }
    }
  }

  /** A string holding the separator splits into at least two pieces. */
  lemma SplitWith(s: string, sep: string)
    requires |sep| > 0
    ensures Contains(s, sep) ==> |Split(s, sep)| >= 2
  {
    var parts := Split(s, sep);
    if |parts| == 1 {
      assert Join(parts, sep) == parts[0];
    }
  }

  /** Every one-character separator cannot overlap itself. */
  lemma OneCharHasNoBorder(sep: string)
    requires |sep| == 1
    ensures NoBorder(sep)
  {
  }

  /** A string without the separator splits into itself alone. */
  lemma SplitWithout(s: string, sep: string)
    requires |sep| > 0 && !Contains(s, sep)
    ensures Split(s, sep) == [s]
  {
  }

  /**
   * Splitting a joined list gives the list back, when no piece contains the
   * separator and the separator cannot overlap itself.
   */
  lemma {:induction false} SplitJoin(parts: seq<string>, sep: string)
    requires |sep| > 0 && NoBorder(sep) && |parts| >= 1
    requires forall i :: 0 <= i < |parts| ==> !Contains(parts[i], sep)
    ensures Split(Join(parts, sep), sep) == parts
    decreases |parts|
  {
    if |parts| > 1 {
      var rest := Join(parts[1..], sep);
      FirstIndexAfterPiece(parts[0], sep, rest);
      var s := parts[0] + sep + rest;
      assert s[|parts[0]| + |sep|..] == rest;
      SplitJoin(parts[1..], sep);
      assert parts == [parts[0]] + parts[1..];
    }
  }

  lemma CommaSpaceHasNoBorder()
    ensures NoBorder(", ")
  {
    forall m | 0 < m < 2 ensures ", "[m..] != ", "[..2 - m] {
      assert ", "[1..] == " " && ", "[..1] == ",";
    }
  }

  /** The characters `String.prototype.trim` removes: WhiteSpace and LineTerminator of ECMAScript. */
  predicate IsWhitespace(c: char) {
    c == ' ' || c == '\t' || c == '\n' || c == '\r' || c == '\U{000B}' || c == '\U{000C}'
    || c == '\U{00A0}' || c == '\U{1680}' || ('\U{2000}' <= c <= '\U{200A}')
    || c == '\U{2028}' || c == '\U{2029}' || c == '\U{202F}' || c == '\U{205F}'
    || c == '\U{3000}' || c == '\U{FEFF}'
  }

  function TrimStart(s: string): (r: string)
    ensures |r| <= |s| && r == s[|s| - |r|..]
    ensures r == [] || !IsWhitespace(r[0])
    ensures forall i :: 0 <= i < |s| - |r| ==> IsWhitespace(s[i])
    decreases |s|
  {
    if |s| > 0 && IsWhitespace(s[0]) then TrimStart(s[1..]) else s
  }

  function TrimEnd(s: string): (r: string)
    ensures |r| <= |s| && r == s[..|r|]
    ensures r == [] || !IsWhitespace(r[|r| - 1])
    ensures forall i :: |r| <= i < |s| ==> IsWhitespace(s[i])
    decreases |s|
  {
    if |s| > 0 && IsWhitespace(s[|s| - 1]) then TrimEnd(s[..|s| - 1]) else s
  }

  /**
   * `s.trim()`: `s` with leading and trailing whitespace removed. The
   * result neither starts nor ends with whitespace; `TrimIsSlice` shows it
   * is the middle of `s` with only whitespace cut away.
   */
  function Trim(s: string): (r: string)
    ensures |r| <= |s|
    ensures r == [] || (!IsWhitespace(r[0]) && !IsWhitespace(r[|r| - 1]))
  {
    var e := TrimEnd(s);
    var r := TrimStart(e);
    assert r != [] ==> r[|r| - 1] == e[|e| - 1];
    r
  }

  /** What `trim` cuts away is whitespace at both ends, and what it keeps is a contiguous slice. */
  lemma TrimIsSlice(s: string)
    ensures exists i, j :: (0 <= i <= j <= |s| && Trim(s) == s[i..j]
      && (forall k :: 0 <= k < i ==> IsWhitespace(s[k]))
      && (forall k :: j <= k < |s| ==> IsWhitespace(s[k])))
  {
    var e := TrimEnd(s);
    var r := TrimStart(e);
    assert e == s[..|e|];
    assert r == e[|e| - |r|..];
    assert forall k :: 0 <= k < |e| - |r| ==> e[k] == s[k];
    assert r == s[|e| - |r|..|e|];
  }

  /** `s.startsWith(p)`. */
  predicate StartsWith(s: string, p: string) {
    |p| <= |s| && s[..|p|] == p
  }

  predicate IsDigit(c: char) { '0' <= c <= '9' }

  predicate AllDigits(s: string) { forall i :: 0 <= i < |s| ==> IsDigit(s[i]) }

  function DigitChar(d: nat): (c: char)
    requires d < 10
    ensures IsDigit(c)
  {
    "0123456789"[d]
  }

  function DigitValue(c: char): (d: nat)
    requires IsDigit(c)
    ensures d < 10 && DigitChar(d) == c
  {
    (c as int - '0' as int)
  }

  /** The decimal value of a string of digits. */
  function DigitsValue(s: string): nat
    requires AllDigits(s)
    decreases |s|
  {
    if s == [] then 0 else DigitsValue(s[..|s| - 1]) * 10 + DigitValue(s[|s| - 1])
  }

  /** `String(n)` for a non-negative integer: its decimal digits, without leading zeros. */
  function NatToString(n: nat): (s: string)
    ensures |s| >= 1 && AllDigits(s) && DigitsValue(s) == n
    ensures s[0] == '0' ==> n == 0 && s == "0"
    ensures n < 10 <==> |s| == 1
    ensures 10 <= n < 100 <==> |s| == 2
    decreases n
  {
    if n < 10 then [DigitChar(n)]
    else
      var s := NatToString(n / 10) + [DigitChar(n % 10)];
      assert s[..|s| - 1] == NatToString(n / 10);
      s
  }

  /** `String(i)` for an integer. */
  function IntToString(i: int): string {
    if i < 0 then "-" + NatToString(-i) else NatToString(i)
  }

  /**
   * `String(i)` reads back: a minus sign exactly when `i` is negative, then
   * the decimal digits of its size, without leading zeros.
   */
  lemma IntToStringReadsBack(i: int)
    ensures var s := IntToString(i);
      |s| >= 1 && (s[0] == '-' <==> i < 0)
      && (i >= 0 ==> AllDigits(s) && DigitsValue(s) == i && (s[0] == '0' ==> s == "0"))
      && (i < 0 ==> |s| >= 2 && AllDigits(s[1..]) && DigitsValue(s[1..]) == -i && s[1] != '0')
  {
    if i < 0 {
      assert IntToString(i)[1..] == NatToString(-i);
    }
  }

  /** `s.padStart(2, '0')`. */
  function PadStart2(s: string): (r: string)
    ensures |r| == if |s| >= 2 then |s| else 2
    ensures r[|r| - |s|..] == s
    ensures forall i :: 0 <= i < |r| - |s| ==> r[i] == '0'
  {
    if |s| >= 2 then s else if |s| == 1 then "0" + s else "00"
  }
}
