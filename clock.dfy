/**
 * The instant `t` the calendar types are built from, a `chrono::DateTime<Utc>`:
 * its Unix timestamp, with its Gregorian year, month and day as chrono
 * reports them. The hour and the weekday of a UTC instant follow from the
 * timestamp alone and are computed here.
 */
module Clock {

  const SECONDS_PER_DAY: int := 86400

  datatype DateTime = DateTime(timestamp: int, year: int, month: int, day: int)

  /** `t.hour()`: the hour of the UTC day. */
  function Hour(t: DateTime): (h: int)
    ensures 0 <= h <= 23
  {
    (t.timestamp % SECONDS_PER_DAY) / 3600
  }

  /** `t.weekday().num_days_from_sunday()`: 1970-01-01, day 0 of the Unix epoch, was a Thursday (4). */
  function WeekdayFromSunday(t: DateTime): (w: int)
    ensures 0 <= w <= 6
  {
    (t.timestamp / SECONDS_PER_DAY + 4) % 7
  }

  /** A day later is one weekday later, Saturday wrapping to Sunday. */
  lemma WeekdayNextDay(t: DateTime, u: DateTime)
    requires u.timestamp == t.timestamp + SECONDS_PER_DAY
    ensures WeekdayFromSunday(u) == (WeekdayFromSunday(t) + 1) % 7
  {
    assert u.timestamp / SECONDS_PER_DAY == t.timestamp / SECONDS_PER_DAY + 1;
  }

  /** An hour later within the same day is the next hour. */
  lemma HourNext(t: DateTime, u: DateTime)
    requires u.timestamp == t.timestamp + 3600 && Hour(t) < 23
    ensures Hour(u) == Hour(t) + 1
  {
    var s := t.timestamp % SECONDS_PER_DAY;
    assert t.timestamp == t.timestamp / SECONDS_PER_DAY * SECONDS_PER_DAY + s;
    assert s + 3600 < SECONDS_PER_DAY;
    assert u.timestamp % SECONDS_PER_DAY == s + 3600;
  }
}
