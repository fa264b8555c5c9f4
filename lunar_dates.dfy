/**
 * The lunar calendar the table describes, as the reference the loops of
 * `lunar.rs` are proved against: where each month of a year starts, which
 * year and month hold a given day, and the correct conversion between day
 * offsets (counted from lunar 1900-01-01, solar 1900-01-31) and lunar dates,
 * in both directions.
 */
module LunarDates {
  import opened LunarTable
  import opened LunarSlots

  /** A lunar date: the tuple `(year, month, day, is_leap)` of `lunar.rs`. */
  datatype Date = Date(year: int, month: int, day: int, isLeap: bool)

  /** The days of month `month` of `y`, the leap one when `isLeap`. */
  function MonthLength(y: int, month: int, isLeap: bool): (r: int)
    requires InTable(y) && 1 <= month <= 12
    ensures isLeap ==> r == LeapDays(y)
    ensures !isLeap ==> r == LunarDays(y, month)
  {
    if isLeap then LeapDays(y) else LunarDays(y, month)
  }

  /** A date the table can express: a year of the table, a month 1..12, leap only for that year's leap month, a day within the month. */
  predicate ValidDate(x: Date) {
    InTable(x.year) && 1 <= x.month <= 12
    && (x.isLeap ==> x.month == LeapMonth(x.year))
    && 1 <= x.day <= MonthLength(x.year, x.month, x.isLeap)
  }

  /** The length of slot k of year `y`. */
  function SlotLength(y: int, k: int): (r: int)
    requires InTable(y) && 0 <= k < SlotCount(LeapMonth(y))
    ensures 29 <= r <= 30
  {
    MonthLength(y, SlotMonth(LeapMonth(y), k), SlotLeap(LeapMonth(y), k))
  }

  /** The lengths of the first n slots of year `y`, in order. */
  function SlotLengths(y: int, n: int): (lengths: seq<int>)
    requires InTable(y) && 0 <= n <= SlotCount(LeapMonth(y))
    ensures |lengths| == n && MonthLengths(lengths)
    ensures forall k :: 0 <= k < n ==> lengths[k] == SlotLength(y, k)
  {
    if n == 0 then [] else SlotLengths(y, n - 1) + [SlotLength(y, n - 1)]
  }

  /** The lengths of all slots of year `y`. */
  function YearSlots(y: int): (lengths: seq<int>)
    requires InTable(y)
    ensures |lengths| == SlotCount(LeapMonth(y)) && MonthLengths(lengths)
    ensures forall k :: 0 <= k < |lengths| ==> lengths[k] == SlotLength(y, k)
  {
    SlotLengths(y, SlotCount(LeapMonth(y)))
  }

  /** The day of year `y` (counting from 0) on which slot k starts. */
  function SlotStart(y: int, k: int): (r: int)
    requires InTable(y) && 0 <= k <= SlotCount(LeapMonth(y))
    ensures 29 * k <= r <= 30 * k
  {
    Start(YearSlots(y), k)
  }

  /** Slot k + 1 starts when slot k ends. */
  lemma SlotStartNext(y: int, k: int)
    requires InTable(y) && 0 <= k < SlotCount(LeapMonth(y))
    ensures SlotStart(y, k + 1) == SlotStart(y, k) + SlotLength(y, k)
  {
  }

  /** Later slots start later, by at least 29 days a slot. */
  lemma SlotStartGrows(y: int, j: int, k: int)
    requires InTable(y) && 0 <= j <= k <= SlotCount(LeapMonth(y))
    ensures SlotStart(y, j) + 29 * (k - j) <= SlotStart(y, k)
  {
    StartGrows(YearSlots(y), j, k);
  }

  /** Slot starts are ordered like the slots. */
  lemma SlotStartOrder(y: int, a: int, b: int)
    requires InTable(y) && 0 <= a <= SlotCount(LeapMonth(y)) && 0 <= b <= SlotCount(LeapMonth(y))
    requires SlotStart(y, a) < SlotStart(y, b)
    ensures a < b
  {
    StartOrder(YearSlots(y), a, b);
  }

  /** Day r of year `y` (counting from 0) lies in slot k. */
  predicate InSlot(y: int, r: int, k: int)
    requires InTable(y) && 0 <= k < SlotCount(LeapMonth(y))
  {
    SlotStart(y, k) <= r < SlotStart(y, k + 1)
  }

  /** One slot further: the leap slot adds the leap month, any other slot the next regular month. */
  lemma SlotStep(y: int, k: int)
    requires InTable(y) && 0 <= k < SlotCount(LeapMonth(y))
    ensures SlotLeap(LeapMonth(y), k) ==> RegularBefore(LeapMonth(y), k + 1) == RegularBefore(LeapMonth(y), k)
    ensures SlotLeap(LeapMonth(y), k) ==> SlotLength(y, k) == LeapDays(y)
    ensures !SlotLeap(LeapMonth(y), k) ==> RegularBefore(LeapMonth(y), k + 1) == RegularBefore(LeapMonth(y), k) + 1
    ensures !SlotLeap(LeapMonth(y), k) ==> SlotLength(y, k) == LunarDays(y, RegularBefore(LeapMonth(y), k) + 1)
  {
  }

  /** Slot k starts after the regular months before it and, past the leap slot, after the leap month. */
  lemma SlotStartRegular(y: int, k: int)
    requires InTable(y) && 0 <= k <= SlotCount(LeapMonth(y))
    ensures SlotStart(y, k)
      == MonthsDays(y, RegularBefore(LeapMonth(y), k)) + (if 0 < LeapMonth(y) < k then LeapDays(y) else 0)
  {
    if LeapMonth(y) == 0 || k <= LeapMonth(y) {
      StartBeforeLeap(y, k);
    } else {
      StartAfterLeap(y, k);
    }
  }

  /** Up to the leap slot, slot k starts after regular months 1..k. */
  lemma {:induction false} StartBeforeLeap(y: int, k: int)
    requires InTable(y) && 0 <= k <= SlotCount(LeapMonth(y)) && (LeapMonth(y) == 0 || k <= LeapMonth(y))
    ensures SlotStart(y, k) == MonthsDays(y, k)
  {
    if k > 0 {
      StartBeforeLeap(y, k - 1);
      BeforeLeapStep(y, k);
    }
  }

  /** Before the leap slot, slot k - 1 is regular month k, which both counts add next. */
  lemma BeforeLeapStep(y: int, k: int)
    requires InTable(y) && 0 < k <= SlotCount(LeapMonth(y)) && (LeapMonth(y) == 0 || k <= LeapMonth(y))
    ensures SlotStart(y, k) == SlotStart(y, k - 1) + LunarDays(y, k)
    ensures MonthsDays(y, k) == MonthsDays(y, k - 1) + LunarDays(y, k)
  {
    SlotStartNext(y, k - 1);
    RegularSlotLength(y, k - 1);
  }

  /** Before the leap slot, slot k holds regular month k + 1. */
  lemma RegularSlotLength(y: int, k: int)
    requires InTable(y) && 0 <= k < SlotCount(LeapMonth(y)) && (LeapMonth(y) == 0 || k < LeapMonth(y))
    ensures SlotLength(y, k) == LunarDays(y, k + 1)
  {
  }

  /** Past the leap slot, slot k starts after regular months 1..k-1 and the leap month. */
  lemma {:induction false} StartAfterLeap(y: int, k: int)
    requires InTable(y) && 0 < LeapMonth(y) < k <= SlotCount(LeapMonth(y))
    ensures SlotStart(y, k) == MonthsDays(y, k - 1) + LeapDays(y)
  {
    SlotStartNext(y, k - 1);
    SlotStep(y, k - 1);
    if k == LeapMonth(y) + 1 {
      StartBeforeLeap(y, k - 1);
    } else {
      StartAfterLeap(y, k - 1);
    }
  }

  /** The slots fill the year that `days_of_lunar_year` measures. */
  lemma YearFill(y: int)
    requires InTable(y)
    ensures SlotStart(y, SlotCount(LeapMonth(y))) == YearDays(y)
  {
    SlotStartRegular(y, SlotCount(LeapMonth(y)));
  }

  /** The slot, from k on, that holds day r of year `y`. */
  function SlotFrom(y: int, r: int, k: int): (s: int)
    requires InTable(y) && 0 <= k < SlotCount(LeapMonth(y))
    requires SlotStart(y, k) <= r < SlotStart(y, SlotCount(LeapMonth(y)))
    ensures k <= s < SlotCount(LeapMonth(y)) && InSlot(y, r, s)
  {
    SlotOf(YearSlots(y), r, k)
  }

  /** A day lies in one slot only. */
  lemma SlotUnique(y: int, r: int, j: int, k: int)
    requires InTable(y) && 0 <= j < SlotCount(LeapMonth(y)) && 0 <= k < SlotCount(LeapMonth(y))
    requires InSlot(y, r, j) && InSlot(y, r, k)
    ensures j == k
  {
    SlotOfUnique(YearSlots(y), r, j, k);
  }

  /** Day offset d (counted from lunar 1900-01-01) lies in year `y`. */
  predicate InYear(d: int, y: int)
    requires InTable(y)
  {
    YearsBefore(y) <= d < YearsBefore(y) + YearDays(y)
  }

  /** An earlier year ends before a later one starts. */
  lemma YearEndsBefore(y: int, z: int)
    requires InTable(y) && InTable(z) && y < z
    ensures YearsBefore(y) + YearDays(y) <= YearsBefore(z)
  {
    YearsBeforeStep(y, y + 1);
    YearsBeforeGrows(y + 1, z);
  }

  /** Day offset d falls in a year of the table. */
  predicate InTableDays(d: int) {
    exists y :: 1900 <= y <= 2100 && InYear(d, y)
  }

  /** A day lies in one year only. */
  lemma YearUnique(d: int, y: int, z: int)
    requires InTable(y) && InYear(d, y)
    requires InTable(z) && InYear(d, z)
    ensures y == z
  {
    if y < z {
      YearEndsBefore(y, z);
    } else if z < y {
      YearEndsBefore(z, y);
    }
  }

  /** A year that starts on day d is the year that holds d. */
  lemma StartsHolder(d: int, y: int, i: int)
    requires InTable(y) && InYear(d, y) && 1900 <= i <= y + 1 && d == YearsBefore(i)
    ensures i == y
  {
    YearsBeforeNext(y);
    if i < y {
      YearsBeforeGrows(i, y);
    }
  }

  /** A year, other than the first, that starts after day d comes after the year that holds d. */
  lemma StartsPastHolder(d: int, y: int, i: int)
    requires InTable(y) && InYear(d, y) && 1900 <= i <= y + 1 && d < YearsBefore(i)
    ensures i == y + 1
  {
    if i <= y {
      YearsBeforeGrows(i, y);
    }
  }

  /**
   * The search for the year of day d, stated over any `start` (the first day
   * of each year): from `y` on, the first year whose successor starts after d.
   * A year `z` that holds d bounds the search.
   */
  function YearFrom(start: int -> int, d: int, y: int, ghost z: int): (r: int)
    requires start(y) <= d && y <= z && start(z) <= d < start(z + 1)
    ensures y <= r <= z && start(r) <= d < start(r + 1)
    decreases z - y
  {
    if d < start(y + 1) then y else YearFrom(start, d, y + 1, z)
  }

  /** The first day of year y for the years 1900..2101, as a total function. */
  function YearStart(y: int): int {
    if 1900 <= y <= 2101 then YearsBefore(y) else 0
  }

  /** A year that holds day d starts by d and ends after it, as `YearStart` counts. */
  lemma HolderStarts(d: int, z: int)
    requires InTable(z) && InYear(d, z)
    ensures YearStart(1900) <= d && YearStart(z) <= d < YearStart(z + 1)
  {
    YearsBeforeGrows(1900, z);
    YearsBeforeNext(z);
  }

  /** A year that starts by day d and whose successor starts after it holds d. */
  lemma StartsHold(d: int, r: int)
    requires InTable(r) && YearStart(r) <= d < YearStart(r + 1)
    ensures InYear(d, r)
  {
    YearsBeforeNext(r);
  }

  /** The year that holds day d. */
  function YearOf(d: int): (r: int)
    requires InTableDays(d)
    ensures InTable(r) && InYear(d, r)
  {
    ghost var z :| 1900 <= z <= 2100 && InYear(d, z);
    HolderStarts(d, z);
    var r := YearFrom(YearStart, d, 1900, z);
    StartsHold(d, r);
    r
  }

  /** The date of day r (counting from 0) of year `y`. */
  function YearDate(y: int, r: int): (x: Date)
    requires InTable(y) && 0 <= r < YearDays(y)
    ensures x.year == y
  {
    YearFill(y);
    var k := SlotFrom(y, r, 0);
    Date(y, SlotMonth(LeapMonth(y), k), r - SlotStart(y, k) + 1, SlotLeap(LeapMonth(y), k))
  }

  /** The date of a day of the year is a valid date. */
  lemma YearDateValid(y: int, r: int)
    requires InTable(y) && 0 <= r < YearDays(y)
    ensures ValidDate(YearDate(y, r))
  {
    YearFill(y);
    SlotIndexOfSlot(LeapMonth(y), SlotFrom(y, r, 0));
  }

  /** The day of its year (counting from 0) on which a valid date falls. */
  function YearDay(x: Date): (r: int)
    requires ValidDate(x)
    ensures 0 <= r < YearDays(x.year)
  {
    YearFill(x.year);
    var k := SlotIndex(LeapMonth(x.year), x.month, x.isLeap);
    SlotStartGrows(x.year, k + 1, SlotCount(LeapMonth(x.year)));
    assert x.day <= SlotLength(x.year, k);
    assert SlotStart(x.year, k + 1) == SlotStart(x.year, k) + SlotLength(x.year, k);
    SlotStart(x.year, k) + x.day - 1
  }

  /** Within a year, a day in slot k is dated in that slot's month. */
  lemma YearDateAt(y: int, r: int, k: int)
    requires InTable(y) && 0 <= k < SlotCount(LeapMonth(y)) && InSlot(y, r, k)
    ensures 0 <= r < YearDays(y)
    ensures YearDate(y, r) == Date(y, SlotMonth(LeapMonth(y), k), r - SlotStart(y, k) + 1, SlotLeap(LeapMonth(y), k))
  {
    SlotStartGrows(y, 0, k);
    SlotStartGrows(y, k + 1, SlotCount(LeapMonth(y)));
    YearFill(y);
    SlotUnique(y, r, k, SlotFrom(y, r, 0));
  }

  /** Within a year, dating a day and counting the date's day give the day back. */
  lemma YearDateToDay(y: int, r: int)
    requires InTable(y) && 0 <= r < YearDays(y)
    ensures YearDay(YearDate(y, r)) == r
  {
    YearFill(y);
    YearDateValid(y, r);
    SlotIndexOfSlot(LeapMonth(y), SlotFrom(y, r, 0));
  }

  /** Within a year, counting a date's day and dating it give the date back. */
  lemma YearDayToDate(x: Date)
    requires ValidDate(x)
    ensures YearDate(x.year, YearDay(x)) == x
  {
    YearDateAt(x.year, YearDay(x), SlotIndex(LeapMonth(x.year), x.month, x.isLeap));
  }

  /** The day (counting from 0) of its year on which day offset d falls. */
  function DayOfYear(d: int): (r: int)
    requires InTableDays(d)
    ensures 0 <= r < YearDays(YearOf(d))
  {
    d - YearsBefore(YearOf(d))
  }

  /** The correct decoding: the date of day offset d. */
  function DayToDate(d: int): (x: Date)
    requires InTableDays(d)
    ensures ValidDate(x)
  {
    YearDateValid(YearOf(d), DayOfYear(d));
    YearDate(YearOf(d), DayOfYear(d))
  }

  /** Day r of year `y` is day offset d of the table. */
  lemma YearOffset(y: int, r: int, d: int)
    requires InTable(y) && 0 <= r < YearDays(y) && d == YearsBefore(y) + r
    ensures InYear(d, y) && InTableDays(d)
  {
    assert InYear(d, y);
  }

  /** The correct encoding: the day offset of a valid date, which falls in the date's year. */
  function DateToDay(x: Date): (d: int)
    requires ValidDate(x)
    ensures InYear(d, x.year)
  {
    var r := YearDay(x);
    YearOffset(x.year, r, YearsBefore(x.year) + r);
    YearsBefore(x.year) + r
  }

  /** The year that holds day d is the one year `y` whose days contain d. */
  lemma YearOfIs(d: int, y: int)
    requires InTable(y) && InYear(d, y)
    ensures InTableDays(d) && YearOf(d) == y
  {
    YearUnique(d, y, YearOf(d));
  }

  /** Decoding a day offset dates it within the year that holds it. */
  lemma DayToDateInYear(d: int)
    requires InTableDays(d)
    ensures DayToDate(d) == YearDate(YearOf(d), DayOfYear(d))
  {
  }

  /** Day offset d, day r of year `y`, decodes to its date within `y`. */
  lemma DayToDateOf(d: int, y: int, r: int)
    requires InTable(y) && 0 <= r < YearDays(y) && d == YearsBefore(y) + r
    ensures InTableDays(d)
    ensures DayToDate(d) == YearDate(y, r)
  {
    YearOffset(y, r, d);
    YearOfIs(d, y);
    assert DayOfYear(d) == r;
    DayToDateInYear(d);
  }

  /** Encoding a date dated within its year adds the days of the years before. */
  lemma DateToDayOfYearDate(y: int, r: int)
    requires InTable(y) && 0 <= r < YearDays(y)
    ensures DateToDay(YearDate(y, r)) == YearsBefore(y) + r
  {
    YearDateToDay(y, r);
  }

  /** Day offset d, day r of year `y`, which lies in slot k, decodes to that slot's month. */
  lemma DayToDateAt(d: int, y: int, r: int, k: int)
    requires InTable(y) && 0 <= k < SlotCount(LeapMonth(y)) && InSlot(y, r, k) && d == YearsBefore(y) + r
    ensures InTableDays(d)
    ensures DayToDate(d) == Date(y, SlotMonth(LeapMonth(y), k), r - SlotStart(y, k) + 1, SlotLeap(LeapMonth(y), k))
  {
    YearDateAt(y, r, k);
    DayToDateOf(d, y, r);
  }

  /** Encoding a decoded day offset gives it back. */
  lemma DayToDateToDay(d: int)
    requires InTableDays(d)
    ensures DateToDay(DayToDate(d)) == d
  {
    var y := YearOf(d);
    var r := DayOfYear(d);
    DayToDateInYear(d);
    DateToDayOfYearDate(y, r);
    assert DateToDay(DayToDate(d)) == YearsBefore(y) + r;
  }

  /** Decoding the day offset of a valid date gives the date back. */
  lemma DateToDayToDate(x: Date)
    requires ValidDate(x)
    ensures InTableDays(DateToDay(x)) && DayToDate(DateToDay(x)) == x
  {
    DayToDateOf(DateToDay(x), x.year, YearDay(x));
    YearDayToDate(x);
  }
}
