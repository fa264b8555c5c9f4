/**
 * The lunisolar calendar table of `lunar.rs` and the day counts decoded from it.
 *
 * One packed entry per lunar year 1900..2100. Bits 0-3 give the month after
 * which the year inserts its leap month (0 = no leap month); the bit picked by
 * the mask `0x10000 >> m` (bit 16 - m) is set when regular month m has 30 days
 * rather than 29; bit 16 is set when the leap month has 30 days.
 */
module LunarTable {
  import opened Bits

  // `LUNARS`, one decade per constant. The entries are non-negative (Rust
  // stores them as i64), so `&` and `>>` on them are `BitAnd` and `ShiftRight`.
  const YEARS_1900: seq<nat> := [0x04bd8, 0x04ae0, 0x0a570, 0x054d5, 0x0d260, 0x0d950, 0x16554, 0x056a0, 0x09ad0, 0x055d2]
  const YEARS_1910: seq<nat> := [0x04ae0, 0x0a5b6, 0x0a4d0, 0x0d250, 0x1d255, 0x0b540, 0x0d6a0, 0x0ada2, 0x095b0, 0x14977]
  const YEARS_1920: seq<nat> := [0x04970, 0x0a4b0, 0x0b4b5, 0x06a50, 0x06d40, 0x1ab54, 0x02b60, 0x09570, 0x052f2, 0x04970]
  const YEARS_1930: seq<nat> := [0x06566, 0x0d4a0, 0x0ea50, 0x06e95, 0x05ad0, 0x02b60, 0x186e3, 0x092e0, 0x1c8d7, 0x0c950]
  const YEARS_1940: seq<nat> := [0x0d4a0, 0x1d8a6, 0x0b550, 0x056a0, 0x1a5b4, 0x025d0, 0x092d0, 0x0d2b2, 0x0a950, 0x0b557]
  const YEARS_1950: seq<nat> := [0x06ca0, 0x0b550, 0x15355, 0x04da0, 0x0a5b0, 0x14573, 0x052b0, 0x0a9a8, 0x0e950, 0x06aa0]
  const YEARS_1960: seq<nat> := [0x0aea6, 0x0ab50, 0x04b60, 0x0aae4, 0x0a570, 0x05260, 0x0f263, 0x0d950, 0x05b57, 0x056a0]
  const YEARS_1970: seq<nat> := [0x096d0, 0x04dd5, 0x04ad0, 0x0a4d0, 0x0d4d4, 0x0d250, 0x0d558, 0x0b540, 0x0b6a0, 0x195a6]
  const YEARS_1980: seq<nat> := [0x095b0, 0x049b0, 0x0a974, 0x0a4b0, 0x0b27a, 0x06a50, 0x06d40, 0x0af46, 0x0ab60, 0x09570]
  const YEARS_1990: seq<nat> := [0x04af5, 0x04970, 0x064b0, 0x074a3, 0x0ea50, 0x06b58, 0x055c0, 0x0ab60, 0x096d5, 0x092e0]
  const YEARS_2000: seq<nat> := [0x0c960, 0x0d954, 0x0d4a0, 0x0da50, 0x07552, 0x056a0, 0x0abb7, 0x025d0, 0x092d0, 0x0cab5]
  const YEARS_2010: seq<nat> := [0x0a950, 0x0b4a0, 0x0baa4, 0x0ad50, 0x055d9, 0x04ba0, 0x0a5b0, 0x15176, 0x052b0, 0x0a930]
  const YEARS_2020: seq<nat> := [0x07954, 0x06aa0, 0x0ad50, 0x05b52, 0x04b60, 0x0a6e6, 0x0a4e0, 0x0d260, 0x0ea65, 0x0d530]
  const YEARS_2030: seq<nat> := [0x05aa0, 0x076a3, 0x096d0, 0x04afb, 0x04ad0, 0x0a4d0, 0x1d0b6, 0x0d250, 0x0d520, 0x0dd45]
  const YEARS_2040: seq<nat> := [0x0b5a0, 0x056d0, 0x055b2, 0x049b0, 0x0a577, 0x0a4b0, 0x0aa50, 0x1b255, 0x06d20, 0x0ada0]
  const YEARS_2050: seq<nat> := [0x14b63, 0x09370, 0x049f8, 0x04970, 0x064b0, 0x168a6, 0x0ea50, 0x06b20, 0x1a6c4, 0x0aae0]
  const YEARS_2060: seq<nat> := [0x0a2e0, 0x0d2e3, 0x0c960, 0x0d557, 0x0d4a0, 0x0da50, 0x05d55, 0x056a0, 0x0a6d0, 0x055d4]
  const YEARS_2070: seq<nat> := [0x052d0, 0x0a9b8, 0x0a950, 0x0b4a0, 0x0b6a6, 0x0ad50, 0x055a0, 0x0aba4, 0x0a5b0, 0x052b0]
  const YEARS_2080: seq<nat> := [0x0b273, 0x06930, 0x07337, 0x06aa0, 0x0ad50, 0x14b55, 0x04b60, 0x0a570, 0x054e4, 0x0d160]
  const YEARS_2090: seq<nat> := [0x0e968, 0x0d520, 0x0daa0, 0x16aa6, 0x056d0, 0x04ae0, 0x0a9d4, 0x0a2d0, 0x0d150, 0x0f252]
  const YEARS_2100: seq<nat> := [0x0d520]

  /** The years the table covers; `LUNARS` has 201 entries, indexed by `year - 1900`. */
  predicate InTable(year: int) {
    1900 <= year <= 2100
  }

  /** Row `d` of `LUNARS`: the decade starting in year 1900 + 10d; row 20 holds 2100 alone. */
  function Decade(d: int): (row: seq<nat>)
    requires 0 <= d <= 20
    ensures |row| == if d == 20 then 1 else 10
  {
    if d == 0 then YEARS_1900 else if d == 1 then YEARS_1910
    else if d == 2 then YEARS_1920 else if d == 3 then YEARS_1930
    else if d == 4 then YEARS_1940 else if d == 5 then YEARS_1950
    else if d == 6 then YEARS_1960 else if d == 7 then YEARS_1970
    else if d == 8 then YEARS_1980 else if d == 9 then YEARS_1990
    else if d == 10 then YEARS_2000 else if d == 11 then YEARS_2010
    else if d == 12 then YEARS_2020 else if d == 13 then YEARS_2030
    else if d == 14 then YEARS_2040 else if d == 15 then YEARS_2050
    else if d == 16 then YEARS_2060 else if d == 17 then YEARS_2070
    else if d == 18 then YEARS_2080 else if d == 19 then YEARS_2090
    else YEARS_2100
  }

  /** The entry of `year`, looked up row by row from decade row `d` down to the year's own row. */
  function EntryFrom(d: int, year: int): nat
    requires 0 <= d <= 20 && 1900 <= year <= 2100 && year < 1910 + 10 * d
    decreases d, year
  {
    if year >= 1900 + 10 * d then Decade(d)[year - 1900 - 10 * d]
    else EntryFrom(d - 1, year)
  }

  /** `LUNARS[(year - 1900) as usize]`: the packed entry of lunar year `year`. */
  function Entry(year: int): nat
    requires InTable(year)
  {
    EntryFrom(20, year)
  }

  /** Looking up from a later row skips down to the row of the year's own decade. */
  lemma {:induction false} EntryFromSkip(from: int, d: int, year: int)
    requires 0 <= d <= from <= 20 && 1900 + 10 * d <= year <= 2100 && year < 1910 + 10 * d
    ensures EntryFrom(from, year) == EntryFrom(d, year)
    decreases from - d
  {
    if d < from {
      EntryFromSkip(from - 1, d, year);
    }
  }

  /** The entry of a year of decade row d is that row's entry at the year's place in the decade. */
  lemma EntryInDecade(d: int, year: int)
    requires 0 <= d <= 20 && 1900 + 10 * d <= year <= 2100 && year < 1910 + 10 * d
    ensures InTable(year) && Entry(year) == Decade(d)[year - 1900 - 10 * d]
  {
    EntryFromSkip(20, d, year);
  }

  /** The leap nibble of every entry of `s` names a month that a regular month follows. */
  predicate LeapNibblesBelow12(s: seq<nat>) {
    forall j :: 0 <= j < |s| ==> s[j] % 16 <= 11
  }

  lemma LeapNibbles1900() ensures LeapNibblesBelow12(YEARS_1900) {}
  lemma LeapNibbles1910() ensures LeapNibblesBelow12(YEARS_1910) {}
  lemma LeapNibbles1920() ensures LeapNibblesBelow12(YEARS_1920) {}
  lemma LeapNibbles1930() ensures LeapNibblesBelow12(YEARS_1930) {}
  lemma LeapNibbles1940() ensures LeapNibblesBelow12(YEARS_1940) {}
  lemma LeapNibbles1950() ensures LeapNibblesBelow12(YEARS_1950) {}
  lemma LeapNibbles1960() ensures LeapNibblesBelow12(YEARS_1960) {}
  lemma LeapNibbles1970() ensures LeapNibblesBelow12(YEARS_1970) {}
  lemma LeapNibbles1980() ensures LeapNibblesBelow12(YEARS_1980) {}
  lemma LeapNibbles1990() ensures LeapNibblesBelow12(YEARS_1990) {}
  lemma LeapNibbles2000() ensures LeapNibblesBelow12(YEARS_2000) {}
  lemma LeapNibbles2010() ensures LeapNibblesBelow12(YEARS_2010) {}
  lemma LeapNibbles2020() ensures LeapNibblesBelow12(YEARS_2020) {}
  lemma LeapNibbles2030() ensures LeapNibblesBelow12(YEARS_2030) {}
  lemma LeapNibbles2040() ensures LeapNibblesBelow12(YEARS_2040) {}
  lemma LeapNibbles2050() ensures LeapNibblesBelow12(YEARS_2050) {}
  lemma LeapNibbles2060() ensures LeapNibblesBelow12(YEARS_2060) {}
  lemma LeapNibbles2070() ensures LeapNibblesBelow12(YEARS_2070) {}
  lemma LeapNibbles2080() ensures LeapNibblesBelow12(YEARS_2080) {}
  lemma LeapNibbles2090() ensures LeapNibblesBelow12(YEARS_2090) {}
  lemma LeapNibbles2100() ensures LeapNibblesBelow12(YEARS_2100) {}

  /** Every row of the table keeps its leap nibbles below 12. */
  lemma DecadeNibbles(d: int)
    requires 0 <= d <= 20
    ensures LeapNibblesBelow12(Decade(d))
  {
    LeapNibbles1900(); LeapNibbles1910(); LeapNibbles1920(); LeapNibbles1930(); LeapNibbles1940(); LeapNibbles1950(); LeapNibbles1960(); LeapNibbles1970(); LeapNibbles1980(); LeapNibbles1990(); LeapNibbles2000(); LeapNibbles2010(); LeapNibbles2020(); LeapNibbles2030(); LeapNibbles2040(); LeapNibbles2050(); LeapNibbles2060(); LeapNibbles2070(); LeapNibbles2080(); LeapNibbles2090(); LeapNibbles2100();
  }

  /** Looked up from any row, an entry keeps its leap nibble below 12. */
  lemma {:induction false} EntryFromNibble(d: int, year: int)
    requires 0 <= d <= 20 && 1900 <= year <= 2100 && year < 1910 + 10 * d
    ensures EntryFrom(d, year) % 16 <= 11
    decreases d
  {
    if year >= 1900 + 10 * d {
      DecadeNibbles(d);
    } else {
      EntryFromNibble(d - 1, year);
    }
  }

  /** No year of the table inserts its leap month after month 12. */
  lemma LeapNibblesInTable(year: int)
    requires InTable(year)
    ensures Entry(year) % 16 <= 11
  {
    EntryFromNibble(20, year);
  }

  /** `leap_month`: the month after which `year` inserts its leap month, or 0 when it has none. */
  function LeapMonth(year: int): (r: int)
    requires InTable(year)
    ensures 0 <= r <= 11
  {
    LeapNibblesInTable(year);
    LowBits4(Entry(year));
    BitAnd(Entry(year), 0xf)
  }

  /** `leap_days`: the length of the year's leap month, 0 when it has none. */
  function LeapDays(year: int): (r: int)
    requires InTable(year)
    ensures r == 0 <==> LeapMonth(year) == 0
    ensures r == 0 || r == 29 || r == 30
  {
    var leap := LeapMonth(year);
    if leap == 0 then 0
    else if BitAnd(Entry(year), 0x10000) != 0 then 30
    else 29
  }

  /** The mask `0x10000 >> m` that selects the flag of regular month m (13 gives 0x8, where the scan stops). */
  function MonthMask(m: int): nat
    requires 0 <= m <= 13
  {
    if m == 0 then 0x10000 else if m == 1 then 0x8000 else if m == 2 then 0x4000 else if m == 3 then 0x2000
    else if m == 4 then 0x1000 else if m == 5 then 0x800 else if m == 6 then 0x400 else if m == 7 then 0x200
    else if m == 8 then 0x100 else if m == 9 then 0x80 else if m == 10 then 0x40 else if m == 11 then 0x20
    else if m == 12 then 0x10 else 0x8
  }

  /** The masks are the shifts `0x10000 >> m`. */
  lemma {:induction false} MonthMaskShift(m: int)
    requires 0 <= m <= 13
    ensures MonthMask(m) == ShiftRight(0x10000, m)
    decreases m
  {
    if m > 0 {
      MonthMaskShift(m - 1);
      MaskStep(m - 1);
      ShiftRightStep(0x10000, m - 1);
    }
  }

  /** `lunar_days`: the length of regular month `month`; 0 for a month outside 1..12, which never reads the table. */
  function LunarDays(year: int, month: int): (r: int)
    requires 1 <= month <= 12 ==> InTable(year)
    ensures 1 <= month <= 12 ==> r == 29 || r == 30
    ensures !(1 <= month <= 12) ==> r == 0
  {
    if month > 12 || month < 1 then 0
    else if BitAnd(Entry(year), MonthMask(month)) != 0 then 30
    else 29
  }

  /** Halving the mask of month m gives the mask of month m + 1; the scan's guard `mask > 0x8` holds exactly up to month 12. */
  lemma MaskStep(m: int)
    requires 0 <= m <= 13
    ensures m <= 12 ==> MonthMask(m) / 2 == MonthMask(m + 1)
    ensures MonthMask(m) > 0x8 <==> m <= 12
  {
  }

  /** The days of regular months 1..n of `year` (months past 12 add nothing). */
  function MonthsDays(year: int, n: nat): (r: int)
    requires InTable(year)
    ensures 29 * Min(n, 12) <= r <= 30 * Min(n, 12)
  {
    if n == 0 then 0 else MonthsDays(year, n - 1) + LunarDays(year, n)
  }

  function Min(a: int, b: int): int {
    if a < b then a else b
  }

  /** The length of lunar year `year`: its twelve regular months and its leap month. */
  function YearDays(year: int): (r: int)
    requires InTable(year)
    ensures 348 <= r <= 390
    ensures LeapMonth(year) == 0 ==> r <= 360
    ensures LeapMonth(year) != 0 ==> 377 <= r
  {
    MonthsDays(year, 12) + LeapDays(year)
  }

  /**
   * One step of the mask scan: while the guard holds the scan is at a regular
   * month, whose bit under the mask decides whether it adds a day, and halving
   * the mask moves to the next month.
   */
  lemma ScanStep(year: int, month: int, mask: nat)
    requires InTable(year) && 1 <= month <= 13 && mask == MonthMask(month) && mask > 0x8
    ensures month <= 12 && mask / 2 == MonthMask(month + 1)
    ensures MonthsDays(year, month) == MonthsDays(year, month - 1) + (if BitAnd(Entry(year), mask) != 0 then 30 else 29)
  {
    MaskStep(month);
  }

  /**
   * `days_of_lunar_year`: start from twelve 29-day months, add a day for every
   * mask 0x8000, 0x4000, ..., 0x10 whose bit is set, then add the leap month.
   */
  method DaysOfLunarYear(year: int) returns (days: int)
    requires InTable(year)
    ensures days == YearDays(year)
  {
    var sum := 29 * 12;
    var mask: nat := 0x8000;
    ghost var month := 1;
    while mask > 0x8
      invariant 1 <= month <= 13
      invariant mask == MonthMask(month)
      invariant sum == 29 * 12 + MonthsDays(year, month - 1) - 29 * (month - 1)
      decreases 13 - month
    {
      ScanStep(year, month, mask);
      if BitAnd(Entry(year), mask) != 0 {
        sum := sum + 1;
      }
      mask := mask / 2;  // `mask >>= 1`
      month := month + 1;
    }
    MaskStep(month);
    days := sum + LeapDays(year);
  }

  /** The days of all lunar years from 1900 up to, not including, `year`. */
  function YearsBefore(year: int): (r: int)
    requires 1900 <= year <= 2101
    ensures 348 * (year - 1900) <= r <= 390 * (year - 1900)
  {
    if year == 1900 then 0 else YearsBefore(year - 1) + YearDays(year - 1)
  }

  /** The year after `year` starts when `year` ends. */
  lemma YearsBeforeNext(year: int)
    requires InTable(year)
    ensures YearsBefore(year + 1) == YearsBefore(year) + YearDays(year)
  {
  }

  /** The same, for the year `next` after `year`. */
  lemma YearsBeforeStep(year: int, next: int)
    requires InTable(year) && next == year + 1
    ensures YearsBefore(next) == YearsBefore(year) + YearDays(year)
  {
    YearsBeforeNext(year);
  }

  /** Later years start strictly later: each year in between contributes at least 348 days. */
  lemma {:induction false} YearsBeforeGrows(a: int, b: int)
    requires 1900 <= a <= b <= 2101
    ensures YearsBefore(b) - YearsBefore(a) >= 348 * (b - a)
    decreases b - a
  {
    if a < b {
      YearsBeforeGrows(a, b - 1);
      YearsBeforeStep(b - 1, b);
    }
  }
}
