/** Zero-padded decimal fields, as `String(format: "%02d", n)` prints them,
    together with the decoder that reads such a field back. */
module Formatting {

  predicate IsDigit(c: char) {
    '0' <= c <= '9'
  }

  /** The numeric value of a decimal digit character. */
  function DigitValue(c: char): int {
    c as int - '0' as int
  }

  function DigitChar(d: nat): (c: char)
    requires d < 10
    ensures IsDigit(c) && DigitValue(c) == d
  {
    ('0' as int + d) as char
  }

  /** Reads a two-character decimal field. */
  function ParseTwoDigits(s: string): int
    requires |s| == 2
  {
    10 * DigitValue(s[0]) + DigitValue(s[1])
  }

  /** Reads a decimal numeral, most significant digit first. */
  function ParseDecimal(s: string): int {
    if s == [] then 0 else 10 * ParseDecimal(s[..|s| - 1]) + DigitValue(s[|s| - 1])
  }

  predicate AllDigits(s: string) {
    forall i :: 0 <= i < |s| ==> IsDigit(s[i])
  }

  /** `%d` of a non-negative value: the shortest decimal numeral, which reads
      back as `n` and has no leading zero; one digit below 10, two below 100. */
  function Decimal(n: nat): (r: string)
    ensures |r| >= 1 && AllDigits(r)
    ensures n >= 1 ==> r[0] != '0'
    ensures ParseDecimal(r) == n
    ensures |r| == 1 <==> n < 10
    ensures n < 100 ==> |r| <= 2
    decreases n
  {
    if n < 10 then [DigitChar(n)]
    else
      var prefix, digit := Decimal(n / 10), DigitChar(n % 10);
      assert (prefix + [digit])[..|prefix|] == prefix;
      prefix + [digit]
  }

  /** `%02d` of a non-negative value: its decimal numeral, padded with a
      leading zero to at least two digits. */
  function ZeroPad2(n: nat): (r: string)
    ensures |r| >= 2 && AllDigits(r)
    ensures ParseDecimal(r) == n
    ensures n < 100 ==> |r| == 2 && ParseTwoDigits(r) == n
  {
    var digits := Decimal(n);
    if n < 10 then
      var padded := ['0'] + digits;
      assert padded[..1] == ['0'] && padded[1] == digits[0];
      assert ParseDecimal(['0']) == 0;
      padded
    else
      digits
  }

  /** `s` has the shape `DD:DD`. */
  predicate IsHHMM(s: string) {
    |s| == 5 && IsDigit(s[0]) && IsDigit(s[1]) && s[2] == ':' && IsDigit(s[3]) && IsDigit(s[4])
  }

  /** `s` has the shape `DD:DD:DD`. */
  predicate IsHHMMSS(s: string) {
    |s| == 8 && IsHHMM(s[..5]) && s[5] == ':' && IsDigit(s[6]) && IsDigit(s[7])
  }

  /** Decodes a `DD:DD` text into its two fields. */
  function ParseHHMM(s: string): (int, int)
    requires |s| >= 5
  {
    (ParseTwoDigits(s[..2]), ParseTwoDigits(s[3..5]))
  }

  /** Decodes a `DD:DD:DD` text into its three fields. */
  function ParseHHMMSS(s: string): (int, int, int)
    requires |s| == 8
  {
    (ParseTwoDigits(s[..2]), ParseTwoDigits(s[3..5]), ParseTwoDigits(s[6..]))
  }

  /** `String(format: "%02d:%02d", h, m)` for fields below 100. */
  function FormatHHMM(h: nat, m: nat): (r: string)
    requires h < 100 && m < 100
    ensures IsHHMM(r)
    ensures ParseHHMM(r) == (h, m)
  {
    var hh, mm := ZeroPad2(h), ZeroPad2(m);
    assert (hh + ":" + mm)[..2] == hh && (hh + ":" + mm)[3..5] == mm;
    hh + ":" + mm
  }

  /** `HH:mm:ss` of a wall-clock reading, each field zero-padded to two digits. */
  function FormatHHMMSS(h: nat, m: nat, s: nat): (r: string)
    requires h < 100 && m < 100 && s < 100
    ensures IsHHMMSS(r)
    ensures ParseHHMMSS(r) == (h, m, s)
  {
    var hhmm, ss := FormatHHMM(h, m), ZeroPad2(s);
    assert (hhmm + ":" + ss)[..5] == hhmm && (hhmm + ":" + ss)[6..] == ss;
    assert hhmm[..2] == (hhmm + ":" + ss)[..2] && hhmm[3..5] == (hhmm + ":" + ss)[3..5];
    hhmm + ":" + ss
  }

  /** Different fields never print the same text. */
  lemma FormatHHMMInjective(h1: nat, m1: nat, h2: nat, m2: nat)
    requires h1 < 100 && m1 < 100 && h2 < 100 && m2 < 100
    requires FormatHHMM(h1, m1) == FormatHHMM(h2, m2)
    ensures h1 == h2 && m1 == m2
  {
  }

  /** The two display examples: 09:30 and 16:00. */
  lemma FormatHHMMExamples()
    ensures FormatHHMM(9, 30) == "09:30"
    ensures FormatHHMM(16, 0) == "16:00"
  {
  }
}
