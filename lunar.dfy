/**
 * `lunar.rs`: the conversion between Unix timestamps and lunar dates, and the
 * `Lunar` value built from a timestamp.
 *
 * The decoder counts whole days from solar 1900-01-31 (lunar 1900-01-01),
 * walks the years and then the months of the table, and reads off the date;
 * the encoder adds up the days before a lunar date and turns them back into
 * seconds. Both loops are proved against the calendar of `LunarDates`.
 */
module Lunar {
  import opened Wrappers
  import opened Utils
  import opened LunarTable
  import opened LunarSlots
  import opened LunarDates

  /** Solar 1900-01-31 00:00 UTC, lunar 1900-01-01, as a Unix timestamp. */
  const START_1900_01_31: int := -2206425600
  /** Solar 1900-01-30 00:00 UTC, the day before, as a Unix timestamp. */
  const START_1900_01_30: int := -2206512000
  const SECONDS_PER_DAY: int := 86400

  /** The decoder's whole days since solar 1900-01-31: Rust's `/` truncates toward zero. */
  function DayOffset(ts: int): int {
    Quot(ts - START_1900_01_31, SECONDS_PER_DAY)
  }

  /** A whole number of days and a time of day past solar 1900-01-31 are that many days of offset. */
  lemma DayOffsetOf(n: int, secs: int)
    requires 0 <= n && 0 <= secs < SECONDS_PER_DAY
    ensures DayOffset(START_1900_01_31 + n * SECONDS_PER_DAY + secs) == n
  {
    var a := n * SECONDS_PER_DAY + secs;
    assert START_1900_01_31 + n * SECONDS_PER_DAY + secs - START_1900_01_31 == a;
    assert a / SECONDS_PER_DAY == n;
  }

  /** `struct Lunar`: the instant it was built from (its Unix timestamp) and the lunar date of that instant. */
  datatype Lunar = Lunar(t: int, year: int, month: int, day: int, monthIsLeap: bool)

  // ----- decoding -----

  /**
   * What the fix-ups after the month loop do to a date: when the day offset
   * lands exactly on the first day of the leap month or of the two months
   * after it, the loop stops one month early and the fix-up names month
   * `leap + 1`, leap or not, in its place. Every other date is left alone.
   */
  function AsWritten(x: Date, leap: int): (w: Date)
    ensures w.year == x.year && w.day == x.day
    ensures x.day != 1 || leap == 0 ==> w == x
  {
    if x.day == 1 && leap > 0 && x.isLeap then Date(x.year, leap + 1, 1, false)
    else if x.day == 1 && leap > 0 && !x.isLeap && (x.month == leap + 1 || x.month == leap + 2) then Date(x.year, leap + 1, 1, true)
    else x
  }

  /** Only a first day next to a leap month is moved. */
  lemma AsWrittenKeeps(x: Date, leap: int)
    requires x.day != 1 || (x.month == 1 && !x.isLeap)
    ensures AsWritten(x, leap) == x
  {
  }

  /** The date `from_solar_timestamp` returns for day offset d. */
  function DecodedAsWritten(d: int): (x: Date)
    requires InTableDays(d)
    ensures x.year == DayToDate(d).year
  {
    AsWritten(DayToDate(d), LeapMonth(DayToDate(d).year))
  }

  /**
   * The year loop of `from_solar_timestamp`: subtract whole years while the
   * offset stays positive, and step back one year when it went negative.
   * It leaves the year that holds day d and the day of that year.
   */
  method ScanYears(d: int) returns (year: int, offset: int)
    requires InTableDays(d)
    ensures InTable(year) && InYear(d, year)
    ensures d == YearsBefore(year) + offset && 0 <= offset < YearDays(year)
  {
    ghost var y :| 1900 <= y <= 2100 && InYear(d, y);
    YearsBeforeNext(y);
    offset := d;
    var i := 1900;
    var daysOfYear := 0;
    ghost var last := 1899;
    while i < 2101 && offset > 0
      invariant 1900 <= i <= y + 1 && last == i - 1
      invariant offset == d - YearsBefore(i)
      invariant i > 1900 ==> InTable(last) && daysOfYear == YearDays(last) && offset + daysOfYear == d - YearsBefore(last)
      invariant offset > 0 ==> i <= y
      decreases 2101 - i
    {
      if i == y {
        assert InYear(d, y);
      }
      daysOfYear := DaysOfLunarYear(i);
      offset := offset - daysOfYear;
      last := i;
      i := i + 1;
      YearsBeforeStep(last, i);
    }
    if offset < 0 {
      StartsPastHolder(d, y, i);
      offset := offset + daysOfYear;
      i := i - 1;
    } else {
      StartsHolder(d, y, i);
    }
    year := i;
  }

  /** The lengths and positions one pass of the month loop meets at slot k. */
  lemma MonthStep(y: int, k: int)
    requires InTable(y) && 0 <= k < SlotCount(LeapMonth(y))
    ensures SlotStart(y, k + 1) == SlotStart(y, k) + SlotLength(y, k)
    ensures SlotLeap(LeapMonth(y), k)
      <==> LeapMonth(y) > 0 && RegularBefore(LeapMonth(y), k) == LeapMonth(y) && !(k == LeapMonth(y) + 1)
    ensures SlotLeap(LeapMonth(y), k) ==> SlotLength(y, k) == LeapDays(y) && SlotMonth(LeapMonth(y), k) == LeapMonth(y)
    ensures !SlotLeap(LeapMonth(y), k) ==> SlotLength(y, k) == LunarDays(y, RegularBefore(LeapMonth(y), k) + 1)
    ensures !SlotLeap(LeapMonth(y), k) ==> SlotMonth(LeapMonth(y), k) == RegularBefore(LeapMonth(y), k) + 1
    ensures k + 1 < SlotCount(LeapMonth(y)) ==>
      RegularBefore(LeapMonth(y), k + 1) + 1 == SlotMonth(LeapMonth(y), k) + 1
    ensures LeapMonth(y) > 0 && k + 1 == LeapMonth(y) + 1 ==> RegularBefore(LeapMonth(y), k + 1) == LeapMonth(y)
  {
    SlotStep(y, k);
    SlotStartNext(y, k);
  }

  /** Slot `next`, the one after slot k, starts when slot k ends. */
  lemma SlotStartStep(y: int, k: int, next: int)
    requires InTable(y) && 0 <= k < SlotCount(LeapMonth(y)) && next == k + 1
    ensures SlotStart(y, next) == SlotStart(y, k) + SlotLength(y, k)
  {
    MonthStep(y, k);
  }

  /**
   * The start of one pass of the month loop at slot k: the slot after the
   * regular month `leap` is the leap month, shown with the counter stepped
   * back and the flag raised; the pass after it lowers the flag again.
   */
  method MonthPass(y: int, leap: int, monthCounter: int, isLeap: bool, ghost k: int)
    returns (counter: int, leapFlag: bool, daysOfMonth: int)
    requires InTable(y) && leap == LeapMonth(y) && 0 <= k < SlotCount(leap)
    requires monthCounter == RegularBefore(leap, k) + 1 && isLeap == (leap > 0 && k == leap + 1)
    ensures counter == SlotMonth(leap, k) && leapFlag == SlotLeap(leap, k)
    ensures daysOfMonth == SlotLength(y, k)
  {
    MonthStep(y, k);
    counter, leapFlag := monthCounter, isLeap;
    if leap > 0 && counter == leap + 1 && !leapFlag {
      counter := counter - 1;
      leapFlag := true;
      daysOfMonth := LeapDays(y);
    } else {
      daysOfMonth := LunarDays(y, counter);
    }
    if leapFlag && counter == leap + 1 {
      leapFlag := false;
    }
  }

  /**
   * The month loop of `from_solar_timestamp`, as written: it stops as soon as
   * the offset is no longer positive, at slot k, with `monthCounter` and
   * `isLeap` showing slot k. A negative `offset` means day r lies inside
   * slot k; an `offset` of 0 means day r is the first day of slot k + 1.
   */
  method ScanMonths(y: int, r: int) returns (monthCounter: int, isLeap: bool, offset: int, daysOfMonth: int, ghost k: int)
    requires InTable(y) && 0 <= r < YearDays(y)
    ensures 0 <= k < SlotCount(LeapMonth(y)) && offset <= 0
    ensures monthCounter == SlotMonth(LeapMonth(y), k) && isLeap == SlotLeap(LeapMonth(y), k)
    ensures offset < 0 ==> YearDate(y, r) == Date(y, monthCounter, offset + daysOfMonth + 1, isLeap)
    ensures offset < 0 ==> offset + daysOfMonth > 0 || (monthCounter == 1 && !isLeap)
    ensures offset == 0 ==> (k + 1 < SlotCount(LeapMonth(y))
      && YearDate(y, r) == Date(y, SlotMonth(LeapMonth(y), k + 1), 1, SlotLeap(LeapMonth(y), k + 1)))
  {
    var leap := LeapMonth(y);
    YearFill(y);
    isLeap := false;
    daysOfMonth := 0;
    monthCounter := 1;
    offset := r;
    k := 0;
    ghost var next := 1;
    while monthCounter <= 13
      invariant 0 <= k < SlotCount(leap)
      invariant offset == r - SlotStart(y, k)
      invariant k == 0 || offset > 0
      invariant monthCounter == RegularBefore(leap, k) + 1 && monthCounter <= 13
      invariant isLeap == (leap > 0 && k == leap + 1)
      decreases SlotCount(leap) - k
    {
      monthCounter, isLeap, daysOfMonth := MonthPass(y, leap, monthCounter, isLeap, k);
      next := k + 1;
      SlotStartStep(y, k, next);
      offset := offset - daysOfMonth;
      if offset <= 0 {
        break;
      }
      SlotStartOrder(y, next, SlotCount(leap));
      monthCounter := monthCounter + 1;
      k := next;
    }
    if offset < 0 {
      StopInsideSlot(y, r, k, next, offset, daysOfMonth);
    } else {
      StopAtSlotEnd(y, r, k, next);
    }
  }

  /** The month loop stopped with `rest` days left, negative, after slot k: day r lies inside slot k. */
  lemma StopInsideSlot(y: int, r: int, k: int, next: int, rest: int, daysOfMonth: int)
    requires InTable(y) && 0 <= k < SlotCount(LeapMonth(y)) && next == k + 1 && 0 <= r < YearDays(y)
    requires SlotStart(y, k) <= r && rest == r - SlotStart(y, next) && rest < 0
    requires daysOfMonth == SlotLength(y, k) && SlotStart(y, next) == SlotStart(y, k) + daysOfMonth
    ensures YearDate(y, r) == Date(y, SlotMonth(LeapMonth(y), k), rest + daysOfMonth + 1, SlotLeap(LeapMonth(y), k))
  {
    YearDateAt(y, r, k);
  }

  /** The month loop stopped exactly where slot k ends: day r is the first day of the next slot. */
  lemma StopAtSlotEnd(y: int, r: int, k: int, next: int)
    requires InTable(y) && 0 <= k < SlotCount(LeapMonth(y)) && next == k + 1 && 0 <= r < YearDays(y)
    requires r == SlotStart(y, next)
    ensures next < SlotCount(LeapMonth(y))
    ensures YearDate(y, r) == Date(y, SlotMonth(LeapMonth(y), next), 1, SlotLeap(LeapMonth(y), next))
  {
    YearFill(y);
    SlotStartOrder(y, next, SlotCount(LeapMonth(y)));
    MonthStep(y, next);
    YearDateAt(y, r, next);
  }

  /**
   * The fix-up after the month loop stopped exactly at the end of slot k: it
   * names month `leap + 1`, leap, when the loop stopped on month `leap + 1`,
   * and otherwise the month after the counter; either way, `AsWritten` of the
   * first day of slot k + 1.
   */
  lemma FixupAsWritten(y: int, leap: int, k: int)
    requires 0 <= leap <= 11 && 0 <= k && k + 1 < SlotCount(leap)
    ensures leap > 0 && SlotMonth(leap, k) == leap + 1 ==>
      !SlotLeap(leap, k) && AsWritten(Date(y, SlotMonth(leap, k + 1), 1, SlotLeap(leap, k + 1)), leap) == Date(y, leap + 1, 1, true)
    ensures !(leap > 0 && SlotMonth(leap, k) == leap + 1) ==>
      AsWritten(Date(y, SlotMonth(leap, k + 1), 1, SlotLeap(leap, k + 1)), leap) == Date(y, SlotMonth(leap, k) + 1, 1, SlotLeap(leap, k))
  {
  }

  /**
   * `from_solar_timestamp`: the lunar date of a Unix timestamp, as written.
   * It panics (indexes the table out of range) unless the timestamp falls in
   * a lunar year of the table, at or after solar 1900-01-31.
   */
  method FromSolarTimestamp(ts: int) returns (year: int, month: int, day: int, isLeap: bool)
    requires InTableDays(DayOffset(ts))
    ensures Date(year, month, day, isLeap) == DecodedAsWritten(DayOffset(ts))
  {
    var offset := DayOffset(ts);
    year, month, day, isLeap := DecodeDays(offset);
  }

  /** The body of `from_solar_timestamp` after the day offset is known: the year loop, then the months of that year. */
  method DecodeDays(offset: int) returns (year: int, month: int, day: int, isLeap: bool)
    requires InTableDays(offset)
    ensures Date(year, month, day, isLeap) == DecodedAsWritten(offset)
  {
    var r;
    year, r := ScanYears(offset);
    month, day, isLeap := DecodeMonths(year, r);
    DayToDateOf(offset, year, r);
  }

  /** The month loop of `from_solar_timestamp` and the fix-ups after it, for day r of year `y`. */
  method DecodeMonths(y: int, r: int) returns (month: int, day: int, isLeap: bool)
    requires InTable(y) && 0 <= r < YearDays(y)
    ensures Date(y, month, day, isLeap) == AsWritten(YearDate(y, r), LeapMonth(y))
  {
    var leap := LeapMonth(y);
    var monthCounter, leapFlag, rest, daysOfMonth, k := ScanMonths(y, r);
    if rest == 0 {
      FixupAsWritten(y, leap, k);
    }
    if rest == 0 && leap > 0 && monthCounter == leap + 1 {
      if leapFlag {
        leapFlag := false;
      } else {
        leapFlag := true;
        monthCounter := monthCounter - 1;
      }
    }
    if rest < 0 {
      AsWrittenKeeps(YearDate(y, r), leap);
      rest := rest + daysOfMonth;
      monthCounter := monthCounter - 1;
    }
    month, day, isLeap := monthCounter + 1, rest + 1, leapFlag;
  }

  /**
   * The month loop of `from_solar_timestamp` as evidently intended: it stops
   * only once the offset drops below zero, so a day that opens a month is
   * found inside that month and no fix-up is needed.
   */
  method DecodeMonthsFixed(y: int, r: int) returns (month: int, day: int, isLeap: bool)
    requires InTable(y) && 0 <= r < YearDays(y)
    ensures Date(y, month, day, isLeap) == YearDate(y, r)
  {
    var leap := LeapMonth(y);
    YearFill(y);
    isLeap := false;
    var daysOfMonth := 0;
    var monthCounter := 1;
    var offset := r;
    ghost var k := 0;
    ghost var next := 1;
    while monthCounter <= 13
      invariant 0 <= k < SlotCount(leap)
      invariant offset == r - SlotStart(y, k) && offset >= 0
      invariant monthCounter == RegularBefore(leap, k) + 1 && monthCounter <= 13
      invariant isLeap == (leap > 0 && k == leap + 1)
      decreases SlotCount(leap) - k
    {
      monthCounter, isLeap, daysOfMonth := MonthPass(y, leap, monthCounter, isLeap, k);
      next := k + 1;
      SlotStartStep(y, k, next);
      offset := offset - daysOfMonth;
      if offset < 0 {
        break;
      }
      SlotStartOrder(y, next, SlotCount(leap));
      monthCounter := monthCounter + 1;
      k := next;
    }
    StopInsideSlot(y, r, k, next, offset, daysOfMonth);
    offset := offset + daysOfMonth;
    monthCounter := monthCounter - 1;
    month, day := monthCounter + 1, offset + 1;
  }

  /** The corrected body of `from_solar_timestamp` after the day offset is known. */
  method DecodeDaysFixed(offset: int) returns (year: int, month: int, day: int, isLeap: bool)
    requires InTableDays(offset)
    ensures Date(year, month, day, isLeap) == DayToDate(offset)
  {
    var r;
    year, r := ScanYears(offset);
    month, day, isLeap := DecodeMonthsFixed(year, r);
    DayToDateOf(offset, year, r);
  }

  /** `from_solar_timestamp` with the month loop corrected: the lunar date of the day the timestamp falls on. */
  method FromSolarTimestampFixed(ts: int) returns (year: int, month: int, day: int, isLeap: bool)
    requires InTableDays(DayOffset(ts))
    ensures Date(year, month, day, isLeap) == DayToDate(DayOffset(ts))
  {
    var offset := DayOffset(ts);
    year, month, day, isLeap := DecodeDaysFixed(offset);
  }

  /** The lunar date a `Lunar` holds. */
  function DateOf(l: Lunar): Date {
    Date(l.year, l.month, l.day, l.monthIsLeap)
  }

  /** `Lunar::new`: the instant and the lunar date the decoder as written gives its day. */
  method New(t: int) returns (l: Lunar)
    requires InTableDays(DayOffset(t))
    ensures l.t == t && DateOf(l) == DecodedAsWritten(DayOffset(t))
  {
    var year, month, day, isLeap := FromSolarTimestamp(t);
    l := Lunar(t, year, month, day, isLeap);
  }

  /** `Lunar::new` with the corrected decoder: the instant and the lunar date of its day. */
  method NewFixed(t: int) returns (l: Lunar)
    requires InTableDays(DayOffset(t))
    ensures l.t == t && DateOf(l) == DayToDate(DayOffset(t))
  {
    var year, month, day, isLeap := FromSolarTimestampFixed(t);
    l := Lunar(t, year, month, day, isLeap);
  }

  // ----- what the decoder as written gets wrong -----

  /**
   * The fix-ups move a valid date exactly when it is the first day of the
   * leap month or of one of the two months after it.
   */
  lemma AsWrittenMoves(x: Date)
    requires ValidDate(x)
    ensures AsWritten(x, LeapMonth(x.year)) != x <==>
      x.day == 1 && LeapMonth(x.year) > 0 && (x.isLeap || x.month == LeapMonth(x.year) + 1 || x.month == LeapMonth(x.year) + 2)
  {
  }

  /** Whatever it misdates, the decoder as written still returns a year of the table, a month 1..12 and a day 1..30, leap only in a leap year. */
  lemma DecodedAsWrittenRanges(d: int)
    requires InTableDays(d)
    ensures InTable(DecodedAsWritten(d).year)
    ensures 1 <= DecodedAsWritten(d).month <= 12 && 1 <= DecodedAsWritten(d).day <= 30
    ensures DecodedAsWritten(d).isLeap ==> LeapMonth(DecodedAsWritten(d).year) > 0
  {
    var x := DayToDate(d);
    assert DecodedAsWritten(d) == AsWritten(x, LeapMonth(x.year));
  }

  /** Lunar 2017 has a leap sixth month; its first day decodes, as written, as the first day of regular month 7. */
  lemma DecodedAsWritten2017()
    ensures LeapMonth(2017) == 6 && ValidDate(Date(2017, 6, 1, true))
    ensures DecodedAsWritten(DateToDay(Date(2017, 6, 1, true))) == Date(2017, 7, 1, false)
  {
    EntryInDecade(11, 2017);
    DateToDayToDate(Date(2017, 6, 1, true));
  }

  // ----- Lunar::is_leap -----

  /**
   * `Lunar::is_leap` as written: `leap_month(self.month)` indexes the table
   * at `month - 1900`, a panic (None) unless the month number is itself a
   * year of the table.
   */
  function IsLeapAsWritten(l: Lunar): Option<bool> {
    if InTable(l.month) then Some(LeapMonth(l.month) != 0) else None
  }

  /** For every month a lunar date can have, `is_leap` as written panics. */
  lemma IsLeapAsWrittenPanics(l: Lunar)
    requires 1 <= l.month <= 12
    ensures IsLeapAsWritten(l) == None
  {
  }

  /** `is_leap` as evidently intended: whether the lunar year has a leap month. */
  function IsLeap(l: Lunar): bool
    requires InTable(l.year)
  {
    LeapMonth(l.year) != 0
  }

  /** A lunar year is leap exactly when it has thirteen months, and so at least 377 days. */
  lemma IsLeapYear(l: Lunar)
    requires InTable(l.year)
    ensures IsLeap(l) <==> SlotCount(LeapMonth(l.year)) == 13
    ensures IsLeap(l) <==> YearDays(l.year) >= 377
  {
  }
}
