/** Python's int() on text, for ASCII digits, and hexadecimal digits. */
module Numerals {
  import opened Text

  predicate IsDigit(c: char) {
    '0' <= c <= '9'
  }

  function Digit(c: char): (d: nat)
    requires IsDigit(c)
    ensures d < 10
  {
    c as int - '0' as int
  }

  predicate IsHexDigit(c: char) {
    '0' <= c <= '9' || 'a' <= LowerChar(c) <= 'f'
  }

  function HexValue(c: char): (v: nat)
    requires IsHexDigit(c)
    ensures v < 16
  {
    if '0' <= c <= '9' then c as int - '0' as int else LowerChar(c) as int - 'a' as int + 10
  }

  function HexDigit(d: nat): (c: char)
    requires d < 16
    ensures IsHexDigit(c) && HexValue(c) == d
    ensures '0' <= c <= '9' || 'a' <= c <= 'f'
  {
    if d < 10 then ('0' as int + d) as char else ('a' as int + d - 10) as char
  }

  /** Digits with single underscores between them. */
  function DigitRun(s: string, value: nat, afterDigit: bool): Option<nat> {
    if s == "" then (if afterDigit then Some(value) else None)
    else if IsDigit(s[0]) then DigitRun(s[1..], value * 10 + Digit(s[0]), true)
    else if s[0] == '_' && afterDigit then DigitRun(s[1..], value, false)
    else None
  }

  function ParseInt(text: string): Option<int> {
    var t := Strip(text, WHITESPACE);
    var negative := t != "" && t[0] == '-';
    var digits := if negative || (t != "" && t[0] == '+') then t[1..] else t;
    match DigitRun(digits, 0, false)
    case None => None
    case Some(n) =>
      var value: int := n;
      Some(if negative then -value else value)
  }

  function DigitText(n: nat): string
    requires n < 10
  {
    [('0' as int + n) as char]
  }

  lemma DigitRoundTrip(n: nat)
    requires n < 10
    ensures ParseInt(DigitText(n)) == Some(n)
  {
    hide Strip, DigitRun;
    var t := DigitText(n);
    DigitsAreStripped(t);
    OneDigit(t);
  }

  lemma OneDigit(t: string)
    requires |t| == 1 && IsDigit(t[0])
    ensures DigitRun(t, 0, false) == Some(Digit(t[0]))
  {
    assert t[1..] == "";
  }

  lemma DigitsAreStripped(t: string)
    requires t != "" && IsDigit(t[0]) && IsDigit(t[|t| - 1])
    ensures Strip(t, WHITESPACE) == t
  {
    assert t[0] !in WHITESPACE && t[|t| - 1] !in WHITESPACE;
  }
}
