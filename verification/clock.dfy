/**
 The timer's `MM:SS` display text (script.js, updateTimerDisplay).

 The minutes are `Math.floor(timeLeft / 60)` and the seconds `timeLeft % 60`; each is turned into
 its decimal numeral (`Number.prototype.toString`) and left-padded with '0' to at least two
 characters (`String.prototype.padStart(2, '0')`); the two fields are joined by ':'.
 The display only ever sees a non-negative `timeLeft` (see the Countdown module), so the numbers
 here are `nat`, where JavaScript's `Math.floor` and `%` agree with Dafny's `/` and `%`.

 `ParseClock` reads such a text back; it is the partner that the round-trip lemma ties to `Format`.
 */
module Clock {
  import opened Optional

  predicate IsDigit(c: char) {
    '0' <= c <= '9'
  }

  /** Every character of `s` is a decimal digit. */
  predicate IsNumeral(s: string) {
    forall i :: 0 <= i < |s| ==> IsDigit(s[i])
  }

  function DigitValue(c: char): (d: nat)
    requires IsDigit(c)
    ensures d < 10
  {
    c as int - '0' as int
  }

  function DigitChar(d: nat): (c: char)
    requires d < 10
    ensures IsDigit(c) && DigitValue(c) == d
  {
    ('0' as int + d) as char
  }

  /** `n.toString()` for a non-negative integer: its decimal numeral, without leading zeros. */
  function Decimal(n: nat): (s: string)
    ensures IsNumeral(s) && |s| >= 1
  {
    if n < 10 then [DigitChar(n)] else Decimal(n / 10) + [DigitChar(n % 10)]
  }

  /** The number a numeral denotes, most significant digit first; the empty numeral denotes 0. */
  function Value(s: string): nat
    requires IsNumeral(s)
  {
    if s == [] then 0 else Value(s[..|s| - 1]) * 10 + DigitValue(s[|s| - 1])
  }

  /** `s.padStart(width, fill)` for a one-character fill string. */
  function PadStart(s: string, width: nat, fill: char): (r: string)
    ensures |r| == if |s| < width then width else |s|
    ensures r[|r| - |s|..] == s
    ensures forall i :: 0 <= i < |r| - |s| ==> r[i] == fill
  {
    if |s| < width then seq(width - |s|, _ => fill) + s else s
  }

  /** One field of the display: a number as at least two digits. */
  function Field(n: nat): string {
    PadStart(Decimal(n), 2, '0')
  }

  /** The text updateTimerDisplay writes for `timeLeft` seconds. */
  function Format(timeLeft: nat): string {
    Field(timeLeft / 60) + ":" + Field(timeLeft % 60)
  }

  /** Reads a display text back into seconds: at least two minute digits, ':', exactly two second digits below 60. */
  function ParseClock(s: string): Option<nat> {
    if |s| < 5 || s[|s| - 3] != ':' then None
    else
      var minutes, seconds := s[..|s| - 3], s[|s| - 2..];
      if IsNumeral(minutes) && IsNumeral(seconds) && Value(seconds) < 60
      then Some(Value(minutes) * 60 + Value(seconds))
      else None
  }

  /** The decimal numeral of `n` denotes `n`. */
  lemma {:induction false} ValueOfDecimal(n: nat)
    ensures Value(Decimal(n)) == n
  {
    if n >= 10 {
      var s := Decimal(n);
      assert s[..|s| - 1] == Decimal(n / 10);
      ValueOfDecimal(n / 10);
    }
  }

  /** The numeral of `n` has one digit exactly below 10, and at most two exactly below 100. */
  lemma DecimalLength(n: nat)
    ensures |Decimal(n)| == 1 <==> n < 10
    ensures |Decimal(n)| <= 2 <==> n < 100
  {
  }

  /** `toString` never produces a leading zero, except for 0 itself. */
  lemma {:induction false} DecimalNoLeadingZero(n: nat)
    ensures Decimal(n)[0] == '0' <==> n == 0
  {
    if n >= 10 {
      DecimalNoLeadingZero(n / 10);
    }
  }

  /** A numeral of zeros denotes 0. */
  lemma {:induction false} ValueOfZeros(k: nat)
    ensures IsNumeral(seq(k, _ => '0')) && Value(seq(k, _ => '0')) == 0
  {
    if k > 0 {
      assert seq(k, _ => '0')[..k - 1] == seq(k - 1, _ => '0');
      ValueOfZeros(k - 1);
    }
  }

  /** Leading zeros do not change the value of a numeral. */
  lemma {:induction false} ValueLeadingZeros(k: nat, s: string)
    requires IsNumeral(s)
    ensures IsNumeral(seq(k, _ => '0') + s) && Value(seq(k, _ => '0') + s) == Value(s)
  {
    var z := seq(k, _ => '0');
    if s == [] {
      assert z + s == z;
      ValueOfZeros(k);
    } else {
      var t := z + s;
      assert t[..|t| - 1] == z + s[..|s| - 1];
      ValueLeadingZeros(k, s[..|s| - 1]);
    }
  }

  /** A display field is a numeral that denotes the number it shows, and has exactly two digits below 100. */
  lemma FieldValue(n: nat)
    ensures IsNumeral(Field(n)) && Value(Field(n)) == n
    ensures |Field(n)| >= 2
    ensures |Field(n)| == 2 <==> n < 100
  {
    var d := Decimal(n);
    DecimalLength(n);
    ValueOfDecimal(n);
    if |d| < 2 {
      assert Field(n) == seq(2 - |d|, _ => '0') + d;
      ValueLeadingZeros(2 - |d|, d);
    }
  }

  /** Below 100, a field is the tens digit followed by the units digit. */
  lemma FieldTwoDigits(n: nat)
    requires n < 100
    ensures Field(n) == [DigitChar(n / 10), DigitChar(n % 10)]
  {
    if n >= 10 {
      assert Decimal(n / 10) == [DigitChar(n / 10)];
    }
  }

  /**
   The shape of the display text: a minutes field of at least two digits denoting `timeLeft / 60`,
   ':' in the third position from the end, and a seconds field of exactly two digits denoting
   `timeLeft % 60`.
   */
  lemma FormatFields(timeLeft: nat)
    ensures var r := Format(timeLeft);
      && |r| >= 5 && r[|r| - 3] == ':'
      && IsNumeral(r[..|r| - 3]) && Value(r[..|r| - 3]) == timeLeft / 60 && |r[..|r| - 3]| >= 2
      && IsNumeral(r[|r| - 2..]) && Value(r[|r| - 2..]) == timeLeft % 60
  {
    FieldValue(timeLeft / 60);
    FieldValue(timeLeft % 60);
    Split(Field(timeLeft / 60), Field(timeLeft % 60));
  }

  /** Where the two fields sit in `m + ":" + s` when the seconds field has two characters. */
  lemma Split(m: string, s: string)
    requires |s| == 2
    ensures var r := m + ":" + s;
      |r| == |m| + 3 && r[|r| - 3] == ':' && r[..|r| - 3] == m && r[|r| - 2..] == s
  {
  }

  /** Parsing the display text gives back the number of seconds it was made from. */
  lemma FormatRoundTrip(timeLeft: nat)
    ensures ParseClock(Format(timeLeft)) == Some(timeLeft)
  {
    FormatFields(timeLeft);
  }

  /** Distinct times are displayed differently. */
  lemma FormatInjective(a: nat, b: nat)
    requires a != b
    ensures Format(a) != Format(b)
  {
    FormatRoundTrip(a);
    FormatRoundTrip(b);
  }

  /** The display is exactly five characters long precisely when the time is under 100 minutes. */
  lemma FormatLength(timeLeft: nat)
    ensures |Format(timeLeft)| == 5 <==> timeLeft < 6000
  {
    FieldValue(timeLeft / 60);
    FieldValue(timeLeft % 60);
  }

  /** Under 100 minutes the display is the fixed-width text `MM:SS`, digit by digit. */
  lemma FormatFixedWidth(timeLeft: nat)
    requires timeLeft < 6000
    ensures var m, s := timeLeft / 60, timeLeft % 60;
      Format(timeLeft) == [DigitChar(m / 10), DigitChar(m % 10), ':', DigitChar(s / 10), DigitChar(s % 10)]
  {
    FieldTwoDigits(timeLeft / 60);
    FieldTwoDigits(timeLeft % 60);
  }
}
