/** The few Python `str` operations the core relies on: `strip()`, `upper()`,
    `split(sep, maxsplit=1)` and `str()` of an integer. */
module Strings {

  /** The ASCII characters for which Python's `str.isspace` holds: space, tab, line feed,
      vertical tab, form feed, carriage return and the four separators 0x1C to 0x1F. */
  predicate IsSpace(c: char) {
    || c == ' ' || c == '\t' || c == '\n' || c == '\r' || c == '\U{B}' || c == '\U{C}'
    || c == '\U{1C}' || c == '\U{1D}' || c == '\U{1E}' || c == '\U{1F}'
  }

  /** `s.lstrip()`: drop the leading whitespace. */
  function StripLeft(s: string): string {
    if |s| > 0 && IsSpace(s[0]) then StripLeft(s[1..]) else s
  }

  /** What `lstrip` leaves is a suffix that does not start with whitespace, and all it
      drops is whitespace. */
  lemma {:induction false} StripLeftFacts(s: string)
    ensures var r := StripLeft(s);
      && |r| <= |s| && r == s[|s| - |r|..]
      && (r == [] || !IsSpace(r[0]))
      && forall i :: 0 <= i < |s| - |r| ==> IsSpace(s[i])
  {
    if |s| > 0 && IsSpace(s[0]) {
      StripLeftFacts(s[1..]);
    }
  }

  /** `s.rstrip()`: drop the trailing whitespace. */
  function StripRight(s: string): string {
    if |s| > 0 && IsSpace(s[|s| - 1]) then StripRight(s[..|s| - 1]) else s
  }

  /** What `rstrip` leaves is a prefix that does not end with whitespace, and all it
      drops is whitespace. */
  lemma {:induction false} StripRightFacts(s: string)
    ensures var r := StripRight(s);
      && |r| <= |s| && r == s[..|r|]
      && (r == [] || !IsSpace(r[|r| - 1]))
      && forall i :: |r| <= i < |s| ==> IsSpace(s[i])
  {
    if |s| > 0 && IsSpace(s[|s| - 1]) {
      StripRightFacts(s[..|s| - 1]);
    }
  }

  /** `s.strip()`. */
  function Strip(s: string): string {
    StripRight(StripLeft(s))
  }

  /** The stripped text neither starts nor ends with whitespace, is no longer than the
      text, and is empty exactly when the text is all whitespace. */
  lemma StripFacts(s: string)
    ensures var r := Strip(s);
      && (r == [] || (!IsSpace(r[0]) && !IsSpace(r[|r| - 1])))
      && |r| <= |s|
      && (r == [] <==> forall i :: 0 <= i < |s| ==> IsSpace(s[i]))
  {
    var left := StripLeft(s);
    StripLeftFacts(s);
    StripRightFacts(left);
    var r := StripRight(left);
    if r != [] {
      assert r[0] == left[0];
    }
  }

  /** `c.upper()` for ASCII letters; every other character is left as it is. */
  function UpperChar(c: char): (r: char)
    ensures 'a' <= c <= 'z' ==> 'A' <= r <= 'Z' && r as int == c as int - 32
    ensures !('a' <= c <= 'z') ==> r == c
  {
    if 'a' <= c <= 'z' then (c as int - 32) as char else c
  }

  /** `s.upper()`, character by character. */
  function Upper(s: string): string {
    if s == [] then [] else [UpperChar(s[0])] + Upper(s[1..])
  }

  /** Upper-casing keeps the length and maps every character by `UpperChar`. */
  lemma {:induction false} UpperFacts(s: string)
    ensures |Upper(s)| == |s| && forall i :: 0 <= i < |s| ==> Upper(s)[i] == UpperChar(s[i])
  {
    if s != [] {
      UpperFacts(s[1..]);
    }
  }

  /** `s[:1].upper() + s[1:]`: only the first character is upper-cased. */
  function UpperFirst(s: string): (r: string)
    ensures |r| == |s|
    ensures |s| > 0 ==> r[0] == UpperChar(s[0]) && r[1..] == s[1..]
  {
    if |s| == 0 then "" else [UpperChar(s[0])] + s[1..]
  }

  /** `text.split(sep, maxsplit=1)`: one piece when `sep` does not occur, otherwise the
      part before its first occurrence and everything after it. */
  function SplitOnce(text: string, sep: char): (r: seq<string>)
    ensures sep !in text <==> r == [text]
    ensures sep in text ==> |r| == 2 && r[0] + [sep] + r[1] == text && sep !in r[0]
    decreases |text|
  {
    if |text| == 0 then [text]
    else if text[0] == sep then ["", text[1..]]
    else
      var rest := SplitOnce(text[1..], sep);
      assert text == [text[0]] + text[1..];
      if |rest| == 1 then [text] else [[text[0]] + rest[0], rest[1]]
  }

  /** The decimal digit for `d`. */
  function DigitChar(d: nat): (c: char)
    requires d < 10
    ensures '0' <= c <= '9' && c as int - '0' as int == d
  {
    ('0' as int + d) as char
  }

  /** `str(n)` for a natural number: its decimal digits, without leading zeros. */
  function NatToString(n: nat): (r: string)
    ensures |r| > 0 && forall i :: 0 <= i < |r| ==> '0' <= r[i] <= '9'
    ensures n > 0 ==> r[0] != '0'
  {
    if n < 10 then [DigitChar(n)] else NatToString(n / 10) + [DigitChar(n % 10)]
  }

  /** `str(i)` for an integer: a minus sign before the digits when negative. */
  function IntToString(i: int): (r: string)
    ensures i >= 0 ==> r == NatToString(i)
    ensures i < 0 ==> r == "-" + NatToString(-i)
  {
    if i < 0 then "-" + NatToString(-i) else NatToString(i)
  }

  /** The decimal rendering of a natural number determines it. */
  lemma {:induction false} NatToStringInjective(i: nat, j: nat)
    requires NatToString(i) == NatToString(j)
    ensures i == j
  {
    var s := NatToString(i);
    if i < 10 && j < 10 {
      assert DigitChar(i) == s[0] == DigitChar(j);
    } else {
      assert i >= 10 && j >= 10;
      var a, b := NatToString(i / 10), NatToString(j / 10);
      assert s == a + [DigitChar(i % 10)] && s == b + [DigitChar(j % 10)];
      assert a == s[..|s| - 1] == b;
      NatToStringInjective(i / 10, j / 10);
      assert DigitChar(i % 10) == s[|s| - 1] == DigitChar(j % 10);
      assert i == i / 10 * 10 + i % 10 && j == j / 10 * 10 + j % 10;
    }
  }
}
