/** Characters and strings as the reader sees them: the "C" locale
    classification used by `>>` and `std::isalnum`, the decimal rendering of
    `std::to_string` for the line counter, and the line split of
    `std::getline`. */
module Text {

  /** `std::isspace` in the "C" locale: the separators `>>` skips. */
  predicate IsSpace(c: char)
  {
    c == ' ' || c == '\t' || c == '\n' || c == '\U{0B}' || c == '\U{0C}' || c == '\r'
  }

  predicate IsDigit(c: char)
  {
    '0' <= c <= '9'
  }

  /** `std::isalnum` in the "C" locale. */
  predicate IsAlnum(c: char)
  {
    IsDigit(c) || 'a' <= c <= 'z' || 'A' <= c <= 'Z'
  }

  predicate AllDigits(s: string)
  {
    forall i :: 0 <= i < |s| ==> IsDigit(s[i])
  }

  function DigitChar(d: nat): (c: char)
    requires d < 10
    ensures IsDigit(c)
  {
    (d + '0' as int) as char
  }

  function DigitValue(c: char): (d: nat)
    requires IsDigit(c)
    ensures d < 10
  {
    c as int - '0' as int
  }

  /** The number a string of decimal digits denotes (most significant first). */
  function DigitsValue(s: string): nat
    requires AllDigits(s)
  {
    if s == [] then 0 else 10 * DigitsValue(s[..|s| - 1]) + DigitValue(s[|s| - 1])
  }

  /** `std::to_string` of an unsigned counter: decimal digits, no leading zero. */
  function NatToString(n: nat): (s: string)
    ensures s != [] && AllDigits(s)
    ensures s[0] == '0' ==> s == "0"
    decreases n
  {
    if n < 10 then [DigitChar(n)] else NatToString(n / 10) + [DigitChar(n % 10)]
  }

  /** Reading the decimal rendering back gives the number again, so the line
      number in a message is exactly the counter. */
  lemma {:induction false} NatToStringRoundTrip(n: nat)
    ensures DigitsValue(NatToString(n)) == n
    decreases n
  {
    if n >= 10 {
      var s := NatToString(n);
      assert s[..|s| - 1] == NatToString(n / 10);
      NatToStringRoundTrip(n / 10);
    }
  }

  /** Distinct counters render as distinct strings. */
  lemma NatToStringInjective(m: nat, n: nat)
    ensures NatToString(m) == NatToString(n) <==> m == n
  {
    NatToStringRoundTrip(m);
    NatToStringRoundTrip(n);
  }

  /** A line taken off the front of a text, and what remains after it. */
  datatype Split = Split(line: string, rest: string)

  /** `std::getline(file, temp)`: the text up to the first newline; the newline
      itself is consumed and belongs to neither part. */
  function TakeLine(text: string): (r: Split)
    ensures text != [] ==> |r.rest| < |text|
  {
    if text == [] then Split([], [])
    else if text[0] == '\n' then Split([], text[1..])
    else
      var r := TakeLine(text[1..]);
      Split([text[0]] + r.line, r.rest)
  }

  /** The line holds no newline; the text is the line, the newline and the
      rest when it has a newline, and is all line otherwise. */
  lemma {:induction false} TakeLineSplits(text: string)
    ensures var r := TakeLine(text);
      '\n' !in r.line
      && ('\n' in text ==> text == r.line + "\n" + r.rest)
      && ('\n' !in text ==> text == r.line && r.rest == [])
  {
    if text != [] && text[0] != '\n' {
      TakeLineSplits(text[1..]);
      var r := TakeLine(text[1..]);
      assert text == [text[0]] + text[1..];
      assert '\n' in text <==> '\n' in text[1..];
      if '\n' in text {
        assert [text[0]] + (r.line + "\n" + r.rest) == ([text[0]] + r.line) + "\n" + r.rest;
      }
    } else if text != [] {
      assert text == "\n" + text[1..];
    }
  }
}
