/**
 * Instants are integer seconds since the Unix epoch in UTC (Laravel's default
 * application time zone); a calendar date is the number of the day that
 * contains the instant.
 */
module Calendar {
  import opened Wrappers
  import opened Decimal

  const SecondsPerDay: int := 86400

  /** The day containing t, as whereDate and date('Y-m-d') see it. */
  function DateOf(t: int): (d: int)
    ensures d * SecondsPerDay <= t < d * SecondsPerDay + SecondsPerDay
  {
    t / SecondsPerDay
  }

  /** Seconds since the midnight that starts t's day. */
  function TimeOfDay(t: int): (s: int)
    ensures 0 <= s < SecondsPerDay
    ensures DateOf(t) * SecondsPerDay + s == t
  {
    t % SecondsPerDay
  }

  /** Midnight at the start of day d, as strtotime("Y-m-d") gives it. */
  function StartOfDay(d: int): (t: int)
    ensures DateOf(t) == d && TimeOfDay(t) == 0
  {
    d * SecondsPerDay
  }

  /** A time of day on the minute, as a time column stores it. */
  predicate IsClockTime(t: int) { 0 <= t < SecondsPerDay && t % 60 == 0 }

  /** date_format:H:i: two-digit hours 00-23, ':', two-digit minutes 00-59. */
  function ParseClock(s: string): (r: Option<int>)
    ensures r.Some? ==> IsClockTime(r.value)
  {
    if |s| == 5 && s[2] == ':' && AllDigits(s[..2]) && AllDigits(s[3..])
       && DigitsToNat(s[..2]) < 24 && DigitsToNat(s[3..]) < 60
    then Some(DigitsToNat(s[..2]) * 3600 + DigitsToNat(s[3..]) * 60)
    else None
  }

  /** The H:i rendering of a time of day. */
  function FormatClock(t: int): (s: string)
    requires IsClockTime(t)
    ensures |s| == 5 && s[2] == ':'
  {
    TwoDigits(t / 3600) + ":" + TwoDigits(t % 3600 / 60)
  }

  lemma ParseFormatClock(t: int)
    requires IsClockTime(t)
    ensures ParseClock(FormatClock(t)) == Some(t)
  {
    var s := FormatClock(t);
    assert s[..2] == TwoDigits(t / 3600);
    assert s[3..] == TwoDigits(t % 3600 / 60);
  }

  /** Every accepted H:i string is the rendering of its own value. */
  lemma FormatParseClock(s: string)
    requires ParseClock(s).Some?
    ensures FormatClock(ParseClock(s).value) == s
  {
    var h, m := DigitsToNat(s[..2]), DigitsToNat(s[3..]);
    var t := h * 3600 + m * 60;
    assert t / 3600 == h && t % 3600 / 60 == m;
    TwoDigitsOfDigits(s[..2]);
    TwoDigitsOfDigits(s[3..]);
    assert s == s[..2] + ":" + s[3..];
  }

  /** Two accepted H:i strings denote the same time exactly when they are equal. */
  lemma ParseClockInjective(s: string, u: string)
    requires ParseClock(s).Some? && ParseClock(s) == ParseClock(u)
    ensures s == u
  {
    FormatParseClock(s);
    FormatParseClock(u);
  }
}
