/**
 * Wall-clock minutes as the bot writes and reads them: the sweep formats the
 * current local time as `HH:mm` (main.js:50), and the reminder commands read
 * back hour and minute with `time.split(':').map(Number)` (main.js:90, 127).
 */
module Clock {

  datatype HourMinute = HourMinute(hour: nat, minute: nat)

  predicate IsDigit(c: char)
  {
    '0' <= c <= '9'
  }

  /** A string matched by `\d{2}:\d{2}`, the time argument of `/remind` and `/editremind` (main.js:81, 123). */
  predicate IsTimeArg(s: string)
  {
    |s| == 5 && IsDigit(s[0]) && IsDigit(s[1]) && s[2] == ':' && IsDigit(s[3]) && IsDigit(s[4])
  }

  function DigitValue(c: char): (d: nat)
    requires IsDigit(c)
    ensures d < 10
  {
    c as int - '0' as int
  }

  function DigitChar(d: nat): (c: char)
    requires d < 10
    ensures IsDigit(c) && DigitValue(c) == d
  {
    (d + '0' as int) as char
  }

  /** Two decimal digits with a leading zero, as moment prints the `HH` and `mm` tokens. */
  function Pad2(n: nat): (s: string)
    requires n < 100
    ensures |s| == 2 && IsDigit(s[0]) && IsDigit(s[1])
    ensures DigitValue(s[0]) * 10 + DigitValue(s[1]) == n
  {
    [DigitChar(n / 10), DigitChar(n % 10)]
  }

  /** The two numbers of `time.split(':').map(Number)` for a time argument. */
  function ParseTime(s: string): (t: HourMinute)
    requires IsTimeArg(s)
    ensures t.hour < 100 && t.minute < 100
  {
    HourMinute(DigitValue(s[0]) * 10 + DigitValue(s[1]), DigitValue(s[3]) * 10 + DigitValue(s[4]))
  }

  /** The sweep's tick `moment().format('HH:mm')` for a local time of day (main.js:50). */
  function FormatTick(hour: nat, minute: nat): (s: string)
    requires hour < 24 && minute < 60
    ensures IsTimeArg(s)
    ensures ParseTime(s) == HourMinute(hour, minute)
  {
    Pad2(hour) + ":" + Pad2(minute)
  }

  /** Two digits are determined by the number they spell. */
  lemma TwoDigitsDetermined(a: char, b: char, c: char, d: char)
    requires IsDigit(a) && IsDigit(b) && IsDigit(c) && IsDigit(d)
    requires DigitValue(a) * 10 + DigitValue(b) == DigitValue(c) * 10 + DigitValue(d)
    ensures a == c && b == d
  {
    assert DigitValue(a) == DigitValue(c);
  }

  /** Formatting the parsed numbers of an in-range time argument gives the argument back. */
  lemma FormatParse(s: string)
    requires IsTimeArg(s)
    requires ParseTime(s).hour < 24 && ParseTime(s).minute < 60
    ensures FormatTick(ParseTime(s).hour, ParseTime(s).minute) == s
  {
    var t := ParseTime(s);
    var f := FormatTick(t.hour, t.minute);
    TwoDigitsDetermined(f[0], f[1], s[0], s[1]);
    TwoDigitsDetermined(f[3], f[4], s[3], s[4]);
  }

  /** A tick equals a time argument exactly when the argument reads back as that hour and minute. */
  lemma TickMatchesIff(s: string, hour: nat, minute: nat)
    requires IsTimeArg(s) && hour < 24 && minute < 60
    ensures FormatTick(hour, minute) == s <==> ParseTime(s) == HourMinute(hour, minute)
  {
    if ParseTime(s) == HourMinute(hour, minute) {
      FormatParse(s);
    }
  }

  /** Distinct minutes of the day give distinct ticks. */
  lemma FormatTickInjective(h1: nat, m1: nat, h2: nat, m2: nat)
    requires h1 < 24 && m1 < 60 && h2 < 24 && m2 < 60
    requires FormatTick(h1, m1) == FormatTick(h2, m2)
    ensures h1 == h2 && m1 == m2
  {
  }

  /** A time argument such as `25:00` or `09:75` that the command pattern accepts never equals a tick. */
  lemma OutOfRangeNeverTicks(s: string)
    requires IsTimeArg(s)
    requires ParseTime(s).hour >= 24 || ParseTime(s).minute >= 60
    ensures forall h: nat, m: nat :: h < 24 && m < 60 ==> FormatTick(h, m) != s
  {
  }
}
