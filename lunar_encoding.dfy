/**
 * `to_solar_timestamp` of `lunar.rs`: a lunar date and a time of day back to
 * a Unix timestamp. It refuses (returns 0) dates outside the table, dates past
 * its two boundary dates and days past the month's length; otherwise it adds
 * up the days of the years and months before the date.
 */
module LunarEncoding {
  import opened Utils
  import opened LunarTable
  import opened LunarSlots
  import opened LunarDates
  import opened Lunar

  /** The boundary test of `to_solar_timestamp`, as written: lunar 2100/12 after day 1, and lunar 1900/1 before day 31. */
  predicate BeyondBoundary(year: int, month: int, day: int) {
    (year == 2100 && month == 12 && day > 1) || (year == 1900 && month == 1 && day < 31)
  }

  /** The boundary test without its 1900 clause, which no day of lunar 1900/1 can pass. */
  predicate BeyondBoundaryFixed(year: int, month: int, day: int) {
    year == 2100 && month == 12 && day > 1
  }

  /** The longest day the encoder accepts for `month`: the leap month's length when the leap flag survives. */
  function MaxDays(year: int, month: int, leapMonth: bool): (r: int)
    requires InTable(year)
    ensures leapMonth ==> r == LeapDays(year)
    ensures !leapMonth ==> r == LunarDays(year, month)
  {
    if leapMonth then LeapDays(year) else LunarDays(year, month)
  }

  /**
   * The days the encoder counts before day 1 of `month` of `year`: the
   * years before, the regular months before, the leap month once it lies
   * before, and regular month `month` itself when the leap month is meant.
   */
  function DaysBefore(year: int, month: int, leapMonth: bool): int
    requires InTable(year)
  {
    YearsBefore(year) + MonthsDays(year, if month > 1 then month - 1 else 0)
      + (if 0 < LeapMonth(year) <= month - 1 then LeapDays(year) else 0)
      + (if leapMonth then LunarDays(year, month) else 0)
  }

  /** The seconds of a time of day. */
  function Seconds(hour: int, minute: int, second: int): int {
    hour * 3600 + minute * 60 + second
  }

  /**
   * What `to_solar_timestamp` returns, with the boundary test `beyond`:
   * 0 for a refused date, otherwise day `day` counted from solar 1900-01-30
   * in seconds, plus the time of day.
   */
  function Encoded(year: int, month: int, day: int, hour: int, minute: int, second: int, isLeapMonth: bool, beyond: bool): int
    requires 1900 <= year <= 2100
  {
    var leapMonth := isLeapMonth && LeapMonth(year) == month;
    if beyond || day > MaxDays(year, month, leapMonth) then 0
    else (DaysBefore(year, month, leapMonth) + day) * SECONDS_PER_DAY + START_1900_01_30 + Seconds(hour, minute, second)
  }

  /** `to_solar_timestamp` as written. */
  function ToSolarAsWritten(year: int, month: int, day: int, hour: int, minute: int, second: int, isLeapMonth: bool): int {
    if year < 1900 || year > 2100 then 0
    else Encoded(year, month, day, hour, minute, second, isLeapMonth, BeyondBoundary(year, month, day))
  }

  /** `to_solar_timestamp` without the 1900 boundary clause. */
  function ToSolarFixed(year: int, month: int, day: int, hour: int, minute: int, second: int, isLeapMonth: bool): int {
    if year < 1900 || year > 2100 then 0
    else Encoded(year, month, day, hour, minute, second, isLeapMonth, BeyondBoundaryFixed(year, month, day))
  }

  /** The year loop of `to_solar_timestamp`: the days of every lunar year from 1900 up to `year`. */
  method SumYears(year: int) returns (offset: int)
    requires InTable(year)
    ensures offset == YearsBefore(year)
  {
    offset := 0;
    var i := 1900;
    while i < year
      invariant 1900 <= i <= year
      invariant offset == YearsBefore(i)
    {
      var days := DaysOfLunarYear(i);
      offset := offset + days;
      ghost var last := i;
      i := i + 1;
      YearsBeforeStep(last, i);
    }
  }

  /**
   * The month loop of `to_solar_timestamp`: regular months 1..month-1, and
   * the leap month's days once, on the first month at or past the leap month.
   */
  method SumMonths(year: int, month: int) returns (offset: int)
    requires InTable(year)
    ensures offset == MonthsDays(year, if month > 1 then month - 1 else 0)
      + (if 0 < LeapMonth(year) <= month - 1 then LeapDays(year) else 0)
  {
    offset := 0;
    var isAdd := false;
    var i := 1;
    ghost var done := 0;
    while i < month
      invariant 1 <= i <= (if month > 1 then month else 1) && done == i - 1
      invariant isAdd == (0 < LeapMonth(year) <= done)
      invariant offset == MonthsDays(year, done) + (if isAdd then LeapDays(year) else 0)
    {
      var leap := LeapMonth(year);
      if !isAdd {
        if leap <= i && leap > 0 {
          offset := offset + LeapDays(year);
          isAdd := true;
        }
      }
      MonthsDaysStep(year, done, i);
      offset := offset + LunarDays(year, i);
      done := i;
      i := i + 1;
    }
  }

  /** One more month: the sum up to month `next` adds that month's length. */
  lemma MonthsDaysStep(year: int, n: nat, next: int)
    requires InTable(year) && next == n + 1
    ensures MonthsDays(year, next) == MonthsDays(year, n) + LunarDays(year, next)
  {
  }

  /** `to_solar_timestamp`, as written. */
  method ToSolarTimestamp(year: int, month: int, day: int, hour: int, minute: int, second: int, isLeapMonth: bool) returns (ts: int)
    ensures ts == ToSolarAsWritten(year, month, day, hour, minute, second, isLeapMonth)
  {
    if year < 1900 || year > 2100 {
      return 0;
    }
    if (year == 2100 && month == 12 && day > 1) || (year == 1900 && month == 1 && day < 31) {
      return 0;
    }
    ts := EncodeChecked(year, month, day, hour, minute, second, isLeapMonth);
  }

  /** `to_solar_timestamp` with the boundary test reduced to its 2100 clause. */
  method ToSolarTimestampFixed(year: int, month: int, day: int, hour: int, minute: int, second: int, isLeapMonth: bool) returns (ts: int)
    ensures ts == ToSolarFixed(year, month, day, hour, minute, second, isLeapMonth)
  {
    if year < 1900 || year > 2100 {
      return 0;
    }
    if year == 2100 && month == 12 && day > 1 {
      return 0;
    }
    ts := EncodeChecked(year, month, day, hour, minute, second, isLeapMonth);
  }

  /** The rest of `to_solar_timestamp` once the year and the boundary are accepted: the day-length check and the two sums. */
  method EncodeChecked(year: int, month: int, day: int, hour: int, minute: int, second: int, isLeapMonth: bool) returns (ts: int)
    requires InTable(year)
    ensures ts == Encoded(year, month, day, hour, minute, second, isLeapMonth, false)
  {
    var m := LeapMonth(year);
    var leapMonth := isLeapMonth && m == month;
    var days := LunarDays(year, month);
    var maxDays := days;
    if leapMonth {
      maxDays := LeapDays(year);
    }
    assert maxDays == MaxDays(year, month, leapMonth);
    if day > maxDays {
      return 0;
    }
    var offset := SumYears(year);
    var months := SumMonths(year, month);
    offset := offset + months;
    if leapMonth {
      offset := offset + days;
    }
    assert offset == DaysBefore(year, month, leapMonth);
    ts := (offset + day) * SECONDS_PER_DAY + START_1900_01_30 + Seconds(hour, minute, second);
  }

  // ----- the encoder against the calendar -----

  /** For a valid date the encoder's sum, plus the days of the month before the date, is the date's day offset. */
  lemma DaysBeforeDate(x: Date)
    requires ValidDate(x)
    ensures DaysBefore(x.year, x.month, x.isLeap) + x.day - 1 == DateToDay(x)
  {
    var k := SlotIndex(LeapMonth(x.year), x.month, x.isLeap);
    DaysBeforeSlot(x.year, x.month, x.isLeap);
    assert YearDay(x) == SlotStart(x.year, k) + x.day - 1;
  }

  /** The encoder's sum for a month is the days of the years before plus the start of that month's slot. */
  lemma DaysBeforeSlot(y: int, month: int, isLeap: bool)
    requires InTable(y) && 1 <= month <= 12 && (isLeap ==> month == LeapMonth(y))
    ensures DaysBefore(y, month, isLeap) == YearsBefore(y) + SlotStart(y, SlotIndex(LeapMonth(y), month, isLeap))
  {
    var leap := LeapMonth(y);
    if isLeap {
      StartBeforeLeap(y, month);
      MonthsDaysStep(y, month - 1, month);
    } else if leap == 0 || month <= leap {
      StartBeforeLeap(y, month - 1);
    } else {
      StartAfterLeap(y, month);
    }
  }

  /**
   * Without its 1900 clause the encoder accepts every valid date short of the
   * 2100 boundary and returns the start of its day, counted from solar
   * 1900-01-31, plus the time of day.
   */
  lemma ToSolarFixedOfDate(x: Date, hour: int, minute: int, second: int)
    requires ValidDate(x) && !BeyondBoundaryFixed(x.year, x.month, x.day)
    ensures ToSolarFixed(x.year, x.month, x.day, hour, minute, second, x.isLeap)
      == START_1900_01_31 + DateToDay(x) * SECONDS_PER_DAY + Seconds(hour, minute, second)
  {
    DaysBeforeDate(x);
  }

  /** As written, the encoder agrees with the corrected one except on lunar 1900/1, every day of which it refuses. */
  lemma ToSolarAsWrittenOfDate(x: Date, hour: int, minute: int, second: int)
    requires ValidDate(x)
    ensures ToSolarAsWritten(x.year, x.month, x.day, hour, minute, second, x.isLeap)
      == if x.year == 1900 && x.month == 1 then 0 else ToSolarFixed(x.year, x.month, x.day, hour, minute, second, x.isLeap)
  {
  }

  /** Encoding a valid date with a time of day and decoding the result with the corrected decoder gives the date back. */
  lemma EncodeDecode(x: Date, secs: int)
    requires ValidDate(x) && !BeyondBoundaryFixed(x.year, x.month, x.day) && 0 <= secs < SECONDS_PER_DAY
    ensures InTableDays(DayOffset(ToSolarFixed(x.year, x.month, x.day, 0, 0, secs, x.isLeap)))
    ensures DayToDate(DayOffset(ToSolarFixed(x.year, x.month, x.day, 0, 0, secs, x.isLeap))) == x
  {
    var ts := ToSolarFixed(x.year, x.month, x.day, 0, 0, secs, x.isLeap);
    var d := DateToDay(x);
    ToSolarFixedOfDate(x, 0, 0, secs);
    assert Seconds(0, 0, secs) == secs;
    DayOffsetOf(d, secs);
    assert DayOffset(ts) == d;
    DateToDayToDate(x);
  }

  /** Decoding a day offset and encoding the date with a time of day gives back that instant. */
  lemma DecodeEncode(d: int, secs: int)
    requires InTableDays(d) && 0 <= secs < SECONDS_PER_DAY
    requires !BeyondBoundaryFixed(DayToDate(d).year, DayToDate(d).month, DayToDate(d).day)
    ensures ToSolarFixed(DayToDate(d).year, DayToDate(d).month, DayToDate(d).day, 0, 0, secs, DayToDate(d).isLeap)
      == START_1900_01_31 + d * SECONDS_PER_DAY + secs
  {
    ToSolarFixedOfDate(DayToDate(d), 0, 0, secs);
    DayToDateToDay(d);
  }

  /**
   * The decoder as written, fed what the encoder as written makes of a valid
   * date, returns the date, except that the first day of the leap month and
   * of the two months after it comes back as `AsWritten` moves it.
   */
  lemma EncodeDecodeAsWritten(x: Date, secs: int)
    requires ValidDate(x) && !BeyondBoundaryFixed(x.year, x.month, x.day) && 0 <= secs < SECONDS_PER_DAY
    requires !(x.year == 1900 && x.month == 1)
    ensures InTableDays(DayOffset(ToSolarAsWritten(x.year, x.month, x.day, 0, 0, secs, x.isLeap)))
    ensures DecodedAsWritten(DayOffset(ToSolarAsWritten(x.year, x.month, x.day, 0, 0, secs, x.isLeap)))
      == AsWritten(x, LeapMonth(x.year))
  {
    ToSolarAsWrittenOfDate(x, 0, 0, secs);
    EncodeDecode(x, secs);
  }

  /** A leap flag on a month that is not the year's leap month is dropped: the date encodes as the regular month. */
  lemma LeapFlagDropped(year: int, month: int, day: int, hour: int, minute: int, second: int)
    requires InTable(year) && LeapMonth(year) != month
    ensures ToSolarAsWritten(year, month, day, hour, minute, second, true)
      == ToSolarAsWritten(year, month, day, hour, minute, second, false)
  {
  }
}
