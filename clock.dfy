/** Wall-clock values as the two pollers see them: a time of day truncated to
    the minute, and an instant that adds the calendar date. */
module Clock {

  const MinutesPerDay: int := 24 * 60

  /** A `datetime.time` with seconds and microseconds zero. */
  datatype Time = Time(hour: int, minute: int)

  predicate ValidTime(t: Time) {
    0 <= t.hour < 24 && 0 <= t.minute < 60
  }

  predicate IsMidnight(t: Time) {
    t.hour == 0 && t.minute == 0
  }

  /** `hour * 60 + minute`, the value the background service keeps as its per-minute guard. */
  function MinuteOfDay(t: Time): (m: int)
    requires ValidTime(t)
    ensures 0 <= m < MinutesPerDay
    ensures m == 0 <==> IsMidnight(t)
  {
    t.hour * 60 + t.minute
  }

  /** The time of day that lies `m` minutes after midnight. */
  function FromMinuteOfDay(m: int): (t: Time)
    requires 0 <= m < MinutesPerDay
    ensures ValidTime(t) && MinuteOfDay(t) == m
  {
    Time(m / 60, m % 60)
  }

  /** Euclidean division by 60 has one answer. */
  lemma DivModSixty(x: int, q: int, r: int)
    requires x == q * 60 + r && 0 <= r < 60
    ensures x / 60 == q && x % 60 == r
  {
  }

  lemma FromMinuteOfDayInverts(t: Time)
    requires ValidTime(t)
    ensures FromMinuteOfDay(MinuteOfDay(t)) == t
  {
    DivModSixty(MinuteOfDay(t), t.hour, t.minute);
  }

  /** Distinct valid times are distinct minutes of the day. */
  lemma MinuteOfDayInjective(a: Time, b: Time)
    requires ValidTime(a) && ValidTime(b)
    ensures MinuteOfDay(a) == MinuteOfDay(b) ==> a == b
  {
    FromMinuteOfDayInverts(a);
    FromMinuteOfDayInverts(b);
  }

  /** `(datetime.combine(day, t) + timedelta(minutes=n)).time()`: the date part is
      dropped, so the clock wraps past midnight. */
  function AddMinutes(t: Time, n: nat): (r: Time)
    requires ValidTime(t)
    ensures ValidTime(r)
    ensures MinuteOfDay(r) == (MinuteOfDay(t) + n) % MinutesPerDay
  {
    FromMinuteOfDay((MinuteOfDay(t) + n) % MinutesPerDay)
  }

  /** Adding minutes that stay inside the hour only moves the minute hand. */
  lemma AddMinutesWithinHour(t: Time, n: nat)
    requires ValidTime(t) && t.minute + n < 60
    ensures AddMinutes(t, n) == Time(t.hour, t.minute + n)
  {
    var total := MinuteOfDay(t) + n;
    assert 0 <= total < MinutesPerDay;
    assert total % MinutesPerDay == total;
    DivModSixty(total, t.hour, t.minute + n);
  }

  /** Adding minutes that cross an hour boundary before midnight carries into the hour. */
  lemma AddMinutesCarry(t: Time, n: nat)
    requires ValidTime(t) && n < 60 && 60 <= t.minute + n && t.hour < 23
    ensures AddMinutes(t, n) == Time(t.hour + 1, t.minute + n - 60)
  {
    var total := MinuteOfDay(t) + n;
    assert 0 <= total < MinutesPerDay;
    assert total % MinutesPerDay == total;
    DivModSixty(total, t.hour + 1, t.minute + n - 60);
  }

  /** Adding minutes in the last hour of the day can wrap to the first hour of the next. */
  lemma AddMinutesWrap(t: Time, n: nat)
    requires ValidTime(t) && n < 60 && t.hour == 23 && 60 <= t.minute + n
    ensures AddMinutes(t, n) == Time(0, t.minute + n - 60)
  {
    var total := MinuteOfDay(t) + n;
    assert MinutesPerDay <= total < 2 * MinutesPerDay;
    assert total % MinutesPerDay == total - MinutesPerDay;
    DivModSixty(total - MinutesPerDay, 0, t.minute + n - 60);
  }

  /** A local instant truncated to the minute: `date` is the proleptic Gregorian
      ordinal of Python's `date.toordinal()` (1 January of year 1 is day 1). */
  datatype Instant = Instant(date: int, time: Time)

  predicate ValidInstant(now: Instant) {
    1 <= now.date && ValidTime(now.time)
  }

  /** `date.weekday()`: Monday is 0 and Sunday is 6; day 1 was a Monday. */
  function Weekday(date: int): (d: int)
    requires 1 <= date
    ensures 0 <= d < 7
    ensures date == 1 ==> d == 0
  {
    (date + 6) % 7
  }
}
