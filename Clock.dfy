/**
 * Times of day and the overlap of two time windows (calculateOverlap in
 * matchAndEmail.js).
 *
 * The matcher reads each time through `new Date("1970-01-01T" + t + "Z")`.
 * Here a time is its number of seconds since midnight, and a string that
 * does not parse is `None`, the model of JavaScript's invalid date (NaN).
 */
module Clock {
  import opened Wrappers

  const SecondsPerMinute: int := 60
  const SecondsPerHour: int := 3600
  const SecondsPerDay: int := 86400

  function Min(a: int, b: int): int { if a <= b then a else b }
  function Max(a: int, b: int): int { if a <= b then b else a }

  predicate IsDigit(c: char) { '0' <= c <= '9' }

  function DigitValue(c: char): (d: nat)
    requires IsDigit(c)
    ensures d < 10
  {
    (c as int) - ('0' as int)
  }

  function DigitChar(d: nat): (c: char)
    requires d < 10
    ensures IsDigit(c) && DigitValue(c) == d
  {
    (('0' as int) + d) as char
  }

  function TwoDigits(hi: char, lo: char): (n: nat)
    requires IsDigit(hi) && IsDigit(lo)
    ensures n < 100
  {
    10 * DigitValue(hi) + DigitValue(lo)
  }

  /**
   * A time of day written "HH:MM" or "HH:MM:SS", as seconds since midnight;
   * `None` for anything else, including out-of-range fields.
   */
  function ParseClock(s: string): (r: Option<int>)
    ensures r.Some? ==> 0 <= r.value < SecondsPerDay
    ensures r.Some? ==> |s| == 5 || |s| == 8
  {
    if (|s| == 5 || |s| == 8) && IsDigit(s[0]) && IsDigit(s[1]) && s[2] == ':'
       && IsDigit(s[3]) && IsDigit(s[4]) then
      var h := TwoDigits(s[0], s[1]);
      var m := TwoDigits(s[3], s[4]);
      if h > 23 || m > 59 then None
      else if |s| == 5 then Some(h * SecondsPerHour + m * SecondsPerMinute)
      else if s[5] == ':' && IsDigit(s[6]) && IsDigit(s[7]) && TwoDigits(s[6], s[7]) <= 59 then
        Some(h * SecondsPerHour + m * SecondsPerMinute + TwoDigits(s[6], s[7]))
      else None
    else None
  }

  /** The "HH:MM" text of a minute of the day, as a browser time input yields it. */
  function FormatClock(minutes: nat): (s: string)
    requires minutes < 24 * 60
    ensures |s| == 5 && s[2] == ':'
  {
    var h := minutes / 60;
    var m := minutes % 60;
    [DigitChar(h / 10), DigitChar(h % 10), ':', DigitChar(m / 10), DigitChar(m % 10)]
  }

  lemma DigitRoundTrip(c: char)
    requires IsDigit(c)
    ensures DigitChar(DigitValue(c)) == c
  {
  }

  /** Formatting a minute of the day and parsing it back gives that minute, in seconds. */
  lemma ParseFormatClock(minutes: nat)
    requires minutes < 24 * 60
    ensures ParseClock(FormatClock(minutes)) == Some(minutes * SecondsPerMinute)
  {
    var h := minutes / 60;
    var m := minutes % 60;
    var s := FormatClock(minutes);
    assert TwoDigits(s[0], s[1]) == h;
    assert TwoDigits(s[3], s[4]) == m;
  }

  /** Every "HH:MM" string that parses is the formatting of its own minute. */
  lemma FormatParseClock(s: string)
    requires |s| == 5 && ParseClock(s).Some?
    ensures ParseClock(s).value % SecondsPerMinute == 0
    ensures FormatClock(ParseClock(s).value / SecondsPerMinute) == s
  {
    var h := TwoDigits(s[0], s[1]);
    var m := TwoDigits(s[3], s[4]);
    var minutes := h * 60 + m;
    assert ParseClock(s).value == minutes * 60;
    assert minutes / 60 == h && minutes % 60 == m;
    DigitRoundTrip(s[0]);
    DigitRoundTrip(s[1]);
    DigitRoundTrip(s[3]);
    DigitRoundTrip(s[4]);
    var f := FormatClock(minutes);
    assert f[0] == s[0] && f[1] == s[1] && f[2] == s[2] && f[3] == s[3] && f[4] == s[4];
  }

  /** The two-digit text of a number below 100, with a leading zero. */
  function TwoDigitText(n: nat): (t: string)
    requires n < 100
    ensures |t| == 2 && IsDigit(t[0]) && IsDigit(t[1]) && TwoDigits(t[0], t[1]) == n
  {
    [DigitChar(n / 10), DigitChar(n % 10)]
  }

  lemma TwoDigitTextOf(hi: char, lo: char)
    requires IsDigit(hi) && IsDigit(lo)
    ensures TwoDigitText(TwoDigits(hi, lo)) == [hi, lo]
  {
    var n := TwoDigits(hi, lo);
    assert n / 10 == DigitValue(hi) && n % 10 == DigitValue(lo);
    DigitRoundTrip(hi);
    DigitRoundTrip(lo);
  }

  /** A second of the day splits into hours, minutes and seconds. */
  lemma ClockSplit(secs: nat)
    requires secs < SecondsPerDay
    ensures secs / 3600 < 24 && secs / 60 % 60 < 60
    ensures secs / 3600 * 3600 + secs / 60 % 60 * 60 + secs % 60 == secs
  {
    var q := secs / 60;
    assert secs == 60 * q + secs % 60;
    assert q == 60 * (q / 60) + q % 60;
    assert secs == 3600 * (q / 60) + (60 * (q % 60) + secs % 60);
    assert secs / 3600 == q / 60;
  }

  /** Hours, minutes and seconds in range are recovered from their second of the day. */
  lemma ClockFields(h: nat, m: nat, sec: nat)
    requires h < 24 && m < 60 && sec < 60
    ensures var secs := h * 3600 + m * 60 + sec;
      secs < SecondsPerDay && secs / 3600 == h && secs / 60 % 60 == m && secs % 60 == sec
  {
    var secs := h * 3600 + m * 60 + sec;
    assert secs == 60 * (h * 60 + m) + sec;
    assert secs / 60 == h * 60 + m;
    assert (h * 60 + m) % 60 == m;
    assert secs == 3600 * h + (m * 60 + sec);
  }

  /** The "HH:MM:SS" text of a second of the day. */
  function FormatClockSeconds(secs: nat): (s: string)
    requires secs < SecondsPerDay
    ensures |s| == 8 && s[2] == ':' && s[5] == ':'
  {
    ClockSplit(secs);
    TwoDigitText(secs / 3600) + ":" + TwoDigitText(secs / 60 % 60) + ":" + TwoDigitText(secs % 60)
  }

  /** Formatting a second of the day as "HH:MM:SS" and parsing it back gives that second. */
  lemma ParseFormatClockSeconds(secs: nat)
    requires secs < SecondsPerDay
    ensures ParseClock(FormatClockSeconds(secs)) == Some(secs)
  {
    ClockSplit(secs);
    var hh, mm, ss := TwoDigitText(secs / 3600), TwoDigitText(secs / 60 % 60), TwoDigitText(secs % 60);
    var s := FormatClockSeconds(secs);
    assert s == hh + ":" + mm + ":" + ss;
    assert s[0] == hh[0] && s[1] == hh[1] && s[3] == mm[0] && s[4] == mm[1] && s[6] == ss[0] && s[7] == ss[1];
  }

  /** Every "HH:MM:SS" string that parses is the formatting of its own second. */
  lemma FormatParseClockSeconds(s: string)
    requires |s| == 8 && ParseClock(s).Some?
    ensures FormatClockSeconds(ParseClock(s).value) == s
  {
    var h, m, sec := TwoDigits(s[0], s[1]), TwoDigits(s[3], s[4]), TwoDigits(s[6], s[7]);
    ClockFields(h, m, sec);
    var secs := h * 3600 + m * 60 + sec;
    assert ParseClock(s).value == secs;
    TwoDigitTextOf(s[0], s[1]);
    TwoDigitTextOf(s[3], s[4]);
    TwoDigitTextOf(s[6], s[7]);
    assert s == s[..2] + ":" + s[3..5] + ":" + s[6..];
    assert s[..2] == [s[0], s[1]] && s[3..5] == [s[3], s[4]] && s[6..] == [s[6], s[7]];
  }

  /**
   * Length of the common part of two windows, never negative: the later
   * start is subtracted from the earlier end and a negative difference
   * becomes 0 (the `Math.max(0, ...)` of calculateOverlap).
   */
  function Overlap(start1: int, end1: int, start2: int, end2: int): (r: int)
    ensures r >= 0
    ensures r > 0 <==> start1 < end1 && start2 < end2 && start1 < end2 && start2 < end1
    ensures r <= Max(0, end1 - start1) && r <= Max(0, end2 - start2)
  {
    Max(0, Min(end1, end2) - Max(start1, start2))
  }

  /** Windows that do not meet have no overlap. */
  lemma DisjointWindows(start1: int, end1: int, start2: int, end2: int)
    requires end1 <= start2 || end2 <= start1
    ensures Overlap(start1, end1, start2, end2) == 0
  {
  }

  /** Swapping the two windows gives the same overlap. */
  lemma OverlapSymmetric(start1: int, end1: int, start2: int, end2: int)
    ensures Overlap(start1, end1, start2, end2) == Overlap(start2, end2, start1, end1)
  {
  }

  /** A window nested in another overlaps it by its own length. */
  lemma NestedWindow(start1: int, end1: int, start2: int, end2: int)
    requires start1 <= start2 <= end2 <= end1
    ensures Overlap(start1, end1, start2, end2) == end2 - start2
  {
  }

  /**
   * calculateOverlap on the four time strings: `None` when any of them is
   * malformed (the NaN of the source), otherwise the overlap in seconds.
   */
  function CalculateOverlap(start1: string, end1: string, start2: string, end2: string): (r: Option<int>)
    ensures r.Some? <==> ParseClock(start1).Some? && ParseClock(end1).Some?
                         && ParseClock(start2).Some? && ParseClock(end2).Some?
    ensures r.Some? ==> 0 <= r.value < SecondsPerDay
  {
    match (ParseClock(start1), ParseClock(end1), ParseClock(start2), ParseClock(end2))
    case (Some(s1), Some(e1), Some(s2), Some(e2)) => Some(Overlap(s1, e1, s2, e2))
    case _ => None
  }

  /**
   * The test `calculateOverlap(...) >= 1` (hours). The source divides a
   * whole number of milliseconds by 3600000 before comparing with 1, which
   * is exact in floating point, so it holds exactly when the overlap is at
   * least 3600 seconds; a NaN overlap fails it.
   */
  predicate OverlapsAtLeastOneHour(start1: string, end1: string, start2: string, end2: string)
  {
    match CalculateOverlap(start1, end1, start2, end2)
    case Some(o) => o >= SecondsPerHour
    case None => false
  }

  lemma CalculateOverlapSymmetric(start1: string, end1: string, start2: string, end2: string)
    ensures CalculateOverlap(start1, end1, start2, end2) == CalculateOverlap(start2, end2, start1, end1)
    ensures OverlapsAtLeastOneHour(start1, end1, start2, end2) == OverlapsAtLeastOneHour(start2, end2, start1, end1)
  {
    match (ParseClock(start1), ParseClock(end1), ParseClock(start2), ParseClock(end2))
    case (Some(s1), Some(e1), Some(s2), Some(e2)) => OverlapSymmetric(s1, e1, s2, e2);
    case _ =>
  }

  /** A malformed time on either side is never a one-hour overlap. */
  lemma MalformedNeverOverlaps(start1: string, end1: string, start2: string, end2: string)
    requires ParseClock(start1).None? || ParseClock(end1).None? || ParseClock(start2).None? || ParseClock(end2).None?
    ensures !OverlapsAtLeastOneHour(start1, end1, start2, end2)
  {
  }

  /**
   * For windows entered as "HH:MM" (minutes of the day), the one-hour test
   * holds exactly when the windows share at least 60 minutes: 60 qualifies,
   * 59 does not.
   */
  lemma OneHourInMinutes(start1: nat, end1: nat, start2: nat, end2: nat)
    requires start1 < 24 * 60 && end1 < 24 * 60 && start2 < 24 * 60 && end2 < 24 * 60
    ensures OverlapsAtLeastOneHour(FormatClock(start1), FormatClock(end1), FormatClock(start2), FormatClock(end2))
            <==> Overlap(start1, end1, start2, end2) >= 60
  {
    ParseFormatClock(start1);
    ParseFormatClock(end1);
    ParseFormatClock(start2);
    ParseFormatClock(end2);
    var o := Overlap(start1 * 60, end1 * 60, start2 * 60, end2 * 60);
    assert o == 60 * Overlap(start1, end1, start2, end2);
  }

  /**
   * For windows written "HH:MM:SS", the one-hour test holds exactly when
   * the windows share at least 3600 seconds: 3600 qualifies, 3599 does not.
   */
  lemma OneHourInSeconds(start1: nat, end1: nat, start2: nat, end2: nat)
    requires start1 < SecondsPerDay && end1 < SecondsPerDay && start2 < SecondsPerDay && end2 < SecondsPerDay
    ensures OverlapsAtLeastOneHour(FormatClockSeconds(start1), FormatClockSeconds(end1),
                                   FormatClockSeconds(start2), FormatClockSeconds(end2))
            <==> Overlap(start1, end1, start2, end2) >= SecondsPerHour
  {
    ParseFormatClockSeconds(start1);
    ParseFormatClockSeconds(end1);
    ParseFormatClockSeconds(start2);
    ParseFormatClockSeconds(end2);
  }
}
