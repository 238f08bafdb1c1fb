/** Times of day as the scheduling page handles them: the `time` values its
    widgets produce, their conversion to fractional hours, and the `HH:MM`
    text that is shown for every suggested slot. */
module Clock {

  /** An hour and a minute, the two fields of a `time` value that the page reads. */
  datatype HourMinute = HourMinute(hour: int, minute: int)

  /** A time picked with a time widget: hour 0..23, minute 0..59. */
  type TimeOfDay = t: HourMinute | 0 <= t.hour < 24 && 0 <= t.minute < 60 witness HourMinute(0, 0)

  /** Minutes since midnight. Every hour-valued quantity of the page is this
      number divided by 60, so the free-slot sweep works on it directly. */
  function Minutes(t: TimeOfDay): (m: int)
    ensures 0 <= m < 1440
  {
    t.hour * 60 + t.minute
  }

  /** The hour and the minute are recovered from the minute count. */
  lemma MinutesSplit(t: TimeOfDay)
    ensures Minutes(t) / 60 == t.hour && Minutes(t) % 60 == t.minute
  {
  }

  /** Python's `<` on `time` values: field by field, hour first. */
  predicate Before(a: TimeOfDay, b: TimeOfDay): (r: bool)
    ensures r <==> Minutes(a) < Minutes(b)
  {
    a.hour < b.hour || (a.hour == b.hour && a.minute < b.minute)
  }

  /** `time_to_float`: the hour plus the minute as a fraction of an hour, in
      exact arithmetic. */
  function TimeToFloat(t: TimeOfDay): (h: real)
    ensures h == Minutes(t) as real / 60.0
    ensures 0.0 <= h < 24.0
  {
    t.hour as real + t.minute as real / 60.0
  }

  /** Python's `int()` on a number: truncation toward zero. */
  function Trunc(x: real): (n: int)
    ensures x >= 0.0 ==> n as real <= x < n as real + 1.0
    ensures x < 0.0 ==> n as real - 1.0 < x <= n as real
  {
    if x >= 0.0 then x.Floor else -((-x).Floor)
  }

  /** The character of a decimal digit. */
  function DigitChar(d: int): (c: char)
    requires 0 <= d < 10
    ensures '0' <= c <= '9'
  {
    ('0' as int + d) as char
  }

  /** `str(n)` for a non-negative integer: its decimal digits, no leading zero. */
  function Decimal(n: nat): (s: string)
    ensures 1 <= |s| && (|s| == 1 <==> n < 10)
    ensures forall i :: 0 <= i < |s| ==> '0' <= s[i] <= '9'
    ensures n >= 10 ==> s[0] != '0'
    decreases n
  {
    if n < 10 then [DigitChar(n)] else Decimal(n / 10) + [DigitChar(n % 10)]
  }

  /** Python's `02d` format: at least two characters, padded with a leading zero;
      a negative number keeps its sign, which already makes two characters. */
  function Pad2(n: int): (s: string)
    ensures |s| >= 2
    ensures 0 <= n < 100 ==> s == [DigitChar(n / 10), DigitChar(n % 10)]
  {
    if n < 0 then "-" + Decimal(-n)
    else if n < 10 then "0" + Decimal(n)
    else
      assert n < 100 ==> Decimal(n) == Decimal(n / 10) + [DigitChar(n % 10)];
      Decimal(n)
  }

  /** `float_to_time`: the truncated hour and the truncated minute of a
      fractional hour, each formatted as two-digit, zero-padded decimals, joined by a colon. */
  function FloatToTime(h: real): (s: string)
    ensures |s| >= 5
    ensures 0.0 <= h < 100.0 ==> |s| == 5 && s[2] == ':'
  {
    var hour := Trunc(h);
    var minute := Trunc((h - hour as real) * 60.0);
    Pad2(hour) + ":" + Pad2(minute)
  }

  /** A whole number of minutes, written as fractional hours, is shown as its
      hour and its minute within the hour. This covers every slot bound the
      sweep produces, including ones past midnight. */
  lemma {:induction false} MinutesToText(m: int, h: real)
    requires m >= 0 && h == m as real / 60.0
    ensures FloatToTime(h) == Pad2(m / 60) + ":" + Pad2(m % 60)
  {
    var q, r := m / 60, m % 60;
    HoursSplit(m);
    assert Trunc(h) == q;
    assert Trunc((h - q as real) * 60.0) == r;
  }

  /** Fractional hours of a whole number of minutes: the whole hours, and
      the remaining minutes as a fraction of an hour. */
  lemma HoursSplit(m: int)
    requires m >= 0
    ensures var h := m as real / 60.0;
      && (m / 60) as real <= h < (m / 60) as real + 1.0
      && (h - (m / 60) as real) * 60.0 == (m % 60) as real
  {
    var q, r := m / 60, m % 60;
    assert m as real == q as real * 60.0 + r as real;
  }

  /** A time of day, converted to hours and back to text, is its hour and
      its minute, each padded. */
  lemma TimeText(t: TimeOfDay)
    ensures FloatToTime(TimeToFloat(t)) == Pad2(t.hour) + ":" + Pad2(t.minute)
  {
    MinutesSplit(t);
    MinutesToText(Minutes(t), TimeToFloat(t));
  }

  /** The round trip of the two helpers: a time of day comes back as its
      zero-padded `HH:MM`. */
  lemma {:induction false} TimeRoundTrip(t: TimeOfDay)
    ensures FloatToTime(TimeToFloat(t)) ==
      [DigitChar(t.hour / 10), DigitChar(t.hour % 10), ':', DigitChar(t.minute / 10), DigitChar(t.minute % 10)]
  {
    TimeText(t);
    var hh, mm := Pad2(t.hour), Pad2(t.minute);
    assert hh + ":" + mm == [hh[0], hh[1], ':', mm[0], mm[1]];
  }
}
