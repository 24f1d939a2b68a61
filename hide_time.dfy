/** The auto-hide setting `autoHideNextDayAt`: `parseHideTime` turns "H:MM" or
    "HH:MM" into today's instant at that wall-clock time, and `scheduleAutoHide`
    rolls an instant that is not after `now` forward by one day. */
module HideTime {
  import opened Wrappers
  import opened Text
  import opened Time

  /** The two numbers captured by the pattern; neither is range-checked. */
  datatype Clock = Clock(hours: nat, minutes: nat)

  /** `s` matches /^(\d{1,2}):(\d{2})$/: one or two digits, a colon, two digits. */
  predicate ClockShape(s: string) {
    && (|s| == 4 || |s| == 5)
    && s[|s| - 3] == ':'
    && forall i :: 0 <= i < |s| && i != |s| - 3 ==> IsDigit(s[i])
  }

  predicate AllDigits(ds: string) {
    forall i :: 0 <= i < |ds| ==> IsDigit(ds[i])
  }

  function Pow10(k: nat): (p: nat)
    ensures p >= 1
  {
    if k == 0 then 1 else 10 * Pow10(k - 1)
  }

  /** `parseInt(ds, 10)` of a string of decimal digits. */
  function DigitsValue(ds: string): (n: nat)
    requires AllDigits(ds)
    ensures n < Pow10(|ds|)
  {
    if ds == [] then 0
    else 10 * DigitsValue(ds[..|ds| - 1]) + (ds[|ds| - 1] as int - '0' as int)
  }

  /** The match and the two `parseInt` calls of `parseHideTime`. */
  function ParseClock(s: string): (r: Option<Clock>)
    ensures r.None? <==> !ClockShape(s)
    ensures r.Some? ==> r.value.hours <= 99 && r.value.minutes <= 99
  {
    if !ClockShape(s) then None
    else
      assert AllDigits(s[..|s| - 3]) && AllDigits(s[|s| - 2..]);
      Some(Clock(DigitsValue(s[..|s| - 3]), DigitsValue(s[|s| - 2..])))
  }

  function DigitChar(d: nat): (ch: char)
    requires d <= 9
    ensures IsDigit(ch) && ch as int - '0' as int == d
  {
    ('0' as int + d) as char
  }

  /** `n` written with two digits, zero-padded. */
  function TwoDigits(n: nat): (s: string)
    requires n <= 99
  {
    [DigitChar(n / 10), DigitChar(n % 10)]
  }

  /** The zero-padded spelling "HH:MM". */
  function FormatClock(c: Clock): string
    requires c.hours <= 99 && c.minutes <= 99
  {
    TwoDigits(c.hours) + ":" + TwoDigits(c.minutes)
  }

  /** The one-digit-hour spelling "H:MM". */
  function FormatClockShort(c: Clock): string
    requires c.hours <= 9 && c.minutes <= 99
  {
    [DigitChar(c.hours)] + ":" + TwoDigits(c.minutes)
  }

  lemma TwoDigitsValue(n: nat)
    requires n <= 99
    ensures AllDigits(TwoDigits(n)) && DigitsValue(TwoDigits(n)) == n
  {
    var s := TwoDigits(n);
    assert s[..1] == [DigitChar(n / 10)];
    assert s[..1][..0] == [];
  }

  lemma DigitsOfTwoDigits(m: string)
    requires |m| == 2 && AllDigits(m)
    ensures DigitsValue(m) <= 99 && TwoDigits(DigitsValue(m)) == m
  {
    var d0, d1 := m[0] as int - '0' as int, m[1] as int - '0' as int;
    assert m[..1][..0] == [];
    assert DigitsValue(m) == 10 * d0 + d1;
    assert (10 * d0 + d1) / 10 == d0 && (10 * d0 + d1) % 10 == d1;
    assert DigitChar(d0) == m[0] && DigitChar(d1) == m[1];
  }

  /** Parsing reads back every clock up to 99:99 from both of its spellings. */
  lemma ParseFormatRoundTrip(c: Clock)
    requires c.hours <= 99 && c.minutes <= 99
    ensures ParseClock(FormatClock(c)) == Some(c)
    ensures c.hours <= 9 ==> ParseClock(FormatClockShort(c)) == Some(c)
  {
    TwoDigitsValue(c.hours);
    TwoDigitsValue(c.minutes);
    var s := FormatClock(c);
    assert s[..2] == TwoDigits(c.hours) && s[3..] == TwoDigits(c.minutes);
    if c.hours <= 9 {
      var t := FormatClockShort(c);
      assert t[..1] == [DigitChar(c.hours)] && t[2..] == TwoDigits(c.minutes);
      assert [DigitChar(c.hours)][..0] == [];
    }
  }

  /** Every accepted string is the spelling of the clock it parses to, so two
      accepted strings of the same length that parse alike are equal. */
  lemma ParseClockCanonical(s: string)
    requires ParseClock(s).Some?
    ensures var c := ParseClock(s).value;
      && (|s| == 5 ==> s == FormatClock(c))
      && (|s| == 4 ==> c.hours <= 9 && s == FormatClockShort(c))
  {
    var c := ParseClock(s).value;
    var m := s[|s| - 2..];
    DigitsOfTwoDigits(m);
    if |s| == 5 {
      var h := s[..2];
      DigitsOfTwoDigits(h);
      assert s == h + ":" + m;
    } else {
      var h := s[..1];
      assert h[..0] == [];
      assert [DigitChar(c.hours)] == h;
      assert s == h + ":" + m;
    }
  }

  /** Hours and minutes are not range-checked: "25:99" is accepted. */
  lemma OutOfRangeAccepted()
    ensures ParseClock("25:99") == Some(Clock(25, 99))
  {
    var s := "25:99";
    assert ClockShape(s);
    assert s[..2] == "25" && s[3..] == "99";
    assert "25"[..1] == "2" && "99"[..1] == "9";
  }

  /** Milliseconds after midnight of a clock; larger than a day when out of range. */
  function TimeOfDay(c: Clock): nat {
    c.hours * HourMs + c.minutes * MinuteMs
  }

  /** `parseHideTime(s)` evaluated at `now`: today at the parsed hours and
      minutes, seconds and milliseconds zero; nothing when `s` does not match. */
  function ParseHideTime(s: string, now: int): (r: Option<int>)
    ensures r.None? <==> !ClockShape(s)
    ensures r.Some? ==> DayStart(now) <= r.value
    ensures r.Some? && ParseClock(s).value.hours <= 23 && ParseClock(s).value.minutes <= 59 ==>
      DayStart(r.value) == DayStart(now) && r.value % DayMs == TimeOfDay(ParseClock(s).value)
  {
    match ParseClock(s)
    case None => None
    case Some(c) =>
      var t := DayStart(now) + TimeOfDay(c);
      assert c.hours <= 23 && c.minutes <= 59 ==> DayStart(t) == DayStart(now) && t % DayMs == TimeOfDay(c) by {
        if c.hours <= 23 && c.minutes <= 59 {
          DayDivMod(now / DayMs, TimeOfDay(c));
          DayDivMod(now / DayMs, 0);
        }
      }
      Some(t)
  }

  /** `scheduleAutoHide`'s instant: the parsed instant, moved one day on when it
      is not after `now`. The timer delay is this instant minus `now`. */
  function ScheduleHide(s: string, now: int): (deadline: Option<int>)
    ensures deadline.None? <==> !ClockShape(s)
    ensures deadline.Some? ==> now < deadline.value
  {
    match ParseHideTime(s, now)
    case None => None
    case Some(hideTime) => Some(if hideTime <= now then hideTime + DayMs else hideTime)
  }

  /** Euclidean division by a day of an instant `k` days plus `r` ms after the epoch. */
  lemma DayDivMod(k: int, r: int)
    requires 0 <= r < DayMs
    ensures (k * DayMs + r) / DayMs == k && (k * DayMs + r) % DayMs == r
  {
  }

  /** An instant after `now` at time of day `tod` is at least the first such
      instant of the day of `now`, or of the next day when that one is not after `now`. */
  lemma NoEarlierOccurrence(k: int, tod: int, now: int, t: int)
    requires 0 <= tod < DayMs
    requires k * DayMs <= now < (k + 1) * DayMs
    requires now < t && t % DayMs == tod
    ensures t >= (if k * DayMs + tod <= now then (k + 1) * DayMs + tod else k * DayMs + tod)
  {
    var j := t / DayMs;
    assert t == j * DayMs + tod;
    if k * DayMs + tod <= now {
      assert j * DayMs > k * DayMs;
      assert j > k;
    } else {
      assert j * DayMs > (k - 1) * DayMs;
      assert j > k - 1;
    }
  }

  /** For an in-range setting the hide instant is the next time after `now` at
      which the wall clock shows that time: at most one day ahead, at that time of
      day, and no later than any other such instant. */
  lemma HideIsNextOccurrence(s: string, now: int)
    requires ParseClock(s).Some?
    requires ParseClock(s).value.hours <= 23 && ParseClock(s).value.minutes <= 59
    ensures var d, tod := ScheduleHide(s, now).value, TimeOfDay(ParseClock(s).value);
      && now < d <= now + DayMs
      && d % DayMs == tod
      && forall t :: now < t && t % DayMs == tod ==> d <= t
  {
    var tod := TimeOfDay(ParseClock(s).value);
    assert tod < DayMs;
    var k := now / DayMs;
    assert DayStart(now) == k * DayMs;
    var d := ScheduleHide(s, now).value;
    if k * DayMs + tod <= now {
      assert d == (k + 1) * DayMs + tod;
      DayDivMod(k + 1, tod);
    } else {
      assert d == k * DayMs + tod;
      DayDivMod(k, tod);
    }
    forall t | now < t && t % DayMs == tod
      ensures d <= t
    {
      NoEarlierOccurrence(k, tod, now, t);
    }
  }

  /** A 10:00 setting hides at 10:00 the same day when set at 09:00, and at
      10:00 the next day when set at 11:00. */
  lemma HideExample(day: int)
    ensures ScheduleHide("10:00", day * DayMs + 9 * HourMs) == Some(day * DayMs + 10 * HourMs)
    ensures ScheduleHide("10:00", day * DayMs + 11 * HourMs) == Some((day + 1) * DayMs + 10 * HourMs)
  {
    var s := "10:00";
    assert ClockShape(s);
    assert s[..2] == "10" && s[3..] == "00";
    assert "10"[..1] == "1" && "00"[..1] == "0";
    assert ParseClock(s) == Some(Clock(10, 0));
    assert DayStart(day * DayMs + 9 * HourMs) == day * DayMs;
    assert DayStart(day * DayMs + 11 * HourMs) == day * DayMs;
  }
}
