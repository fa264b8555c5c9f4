# Chinese calendar core of ikigai, in Dafny

This project models the Chinese-calendar core of the `ikigai` date library
(`crates/core/src/date/chinese/`):

- the lunar calendar of `lunar.rs`: the packed table `LUNARS` of the lunar
  years 1900..2100, the month and year lengths it encodes, the decoder
  `from_solar_timestamp` (a Unix timestamp to a lunar year, month, day and
  leap flag) and the encoder `to_solar_timestamp` (back again);
- the sexagenary pillars of `gan_zhi.rs`: the stem (`Gan`) and branch
  (`Zhi`) of the year, month, day and hour of an instant, their order in the
  cycle of sixty, and the animal of the pillar year;
- the Gregorian view of `solar.rs`: the solar terms around an instant,
  re-centred on the term whose day the instant lies on, the leap-year rule,
  the weekday and the animal of the Gregorian year;
- the tables of `gan.rs`, `zhi.rs`, `animal.rs`, the sign table of
  `constellation.rs`, and `order_mod` of `utils.rs` (a remainder in 1..b
  instead of 0..b-1).

The integers of the source are `i64`. The model uses unbounded integers.
Rust's truncating `/` and `%` are written out as `Utils.Quot` and
`Utils.Rem`. Dafny's own Euclidean `/` and `%` are used where both operands
are non-negative, and in `Clock.Hour` and `Clock.WeekdayFromSunday`. There
the timestamp is negative before 1970, and chrono splits a timestamp into
days and seconds of the day by Euclidean division, so Dafny's operators are
the right ones.

The lunar code is imperative, so its loops are Dafny methods. Each method is
proved against a specification function:

- `LunarTable` holds `LUNARS` as one row of ten entries per decade, and
  `Entry(year)` is the lookup `LUNARS[year - 1900]`.
- `LunarDates` defines the calendar from the table alone. A lunar year is a
  run of 12 or 13 month "slots" (`LunarSlots`).
- `DayToDate` and `DateToDay` map between day offsets and dates, and are
  proved inverse to each other.
- The decoder and encoder methods are proved to compute these functions, or
  the as-written deviations from them listed under "## Findings".

The rest of the core is pure and is modelled as functions and lemmas.

The instant `t` (a `chrono::DateTime<Utc>`) is modelled in `Clock` as its
timestamp together with the Gregorian year, month and day that chrono
reports. The hour and the weekday are computed from the timestamp. The
solar-term module (`solarterm.rs`) is not part of this model. What it
answers for an instant is an input of `GanZhi.New` and `Solar.New`:

- Start of Spring of the year;
- the two terms around the instant;
- whether the instant lies on either term's day;
- the term range.

## Model

| member | source | states |
|---|---|---|
| Utils.Rem | crates/core/src/date/chinese/utils.rs:3 | Rust's `%`: the remainder has the sign of the dividend, is smaller than the divisor in magnitude, and differs from the dividend by a multiple of it |
| Utils.QuotRem | crates/core/src/date/chinese/utils.rs:3 | Rust's `/` and `%` recombine: `a == b * (a / b) + a % b` |
| Utils.OrderMod | crates/core/src/date/chinese/utils.rs:2-9 | `order_mod` is congruent to `a` modulo `b`, never 0, equals `b` exactly when `b` divides `a`, is the Rust remainder otherwise, and lies in 1..b for `a >= 0, b > 0` |
| Utils.OrderModNegative | crates/core/src/date/chinese/utils.rs:2-9 | a negative dividend that `b` does not divide gives a negative order, outside 1..b |
| Utils.OrderModUnique | crates/core/src/date/chinese/utils.rs:2-9 | for `a >= 0` the order is the one representative of `a` modulo `b` in 1..b |
| Utils.OrderModIdempotent | crates/core/src/date/chinese/utils.rs:2-9 | applying `order_mod` twice changes nothing |
| Utils.OrderModPeriodic | crates/core/src/date/chinese/utils.rs:2-9 | the order repeats with period `b` |
| Utils.OrderModOfMultiple | crates/core/src/date/chinese/utils.rs:2-9 | reducing modulo a multiple of `c` first does not change the order modulo `c` |
| Utils.OrderModParity | crates/core/src/date/chinese/utils.rs:2-9 | with an even modulus, the order keeps the parity of the dividend, for every sign |
| Utils.RemZeroExactlyWhenDivisible | crates/core/src/date/chinese/utils.rs:3-4 | Rust's remainder is 0 exactly when the divisor divides the dividend |
| Gan.New | crates/core/src/date/chinese/gan.rs:9-14 | `None` exactly for an order outside 1..10, otherwise a stem holding that order |
| Gan.Alias | crates/core/src/date/chinese/gan.rs:16-18 | the alias is an entry of `GAN_ALIAS`: the index never leaves the table |
| Gan.AliasInjective | crates/core/src/date/chinese/gan.rs:6 | distinct stems have distinct aliases |
| Gan.AliasRoundTrip | crates/core/src/date/chinese/gan.rs:6 | reading the stem back off its alias gives the stem's order |
| Gan.AliasExamples | crates/core/src/date/chinese/gan.rs:33-57 | 甲 and 癸 for orders 1 and 10; orders 0 and 11 are refused |
| Zhi.New | crates/core/src/date/chinese/zhi.rs:12-18 | `None` exactly for an order outside 1..12, otherwise a branch holding that order |
| Zhi.Alias | crates/core/src/date/chinese/zhi.rs:21-23 | the alias is an entry of `ZHI_ALIAS` |
| Zhi.AliasInjective | crates/core/src/date/chinese/zhi.rs:6-8 | distinct branches have distinct aliases |
| Zhi.AliasRoundTrip | crates/core/src/date/chinese/zhi.rs:6-8 | reading the branch back off its alias gives the branch's order |
| Zhi.AliasExamples | crates/core/src/date/chinese/zhi.rs:46-90 | 子 and 亥 for orders 1 and 12; orders 0 and 13 are refused |
| Animal.New | crates/core/src/date/chinese/animal.rs:11-16 | `None` exactly for an order outside 1..12, otherwise the animal of that order |
| Animal.Alias | crates/core/src/date/chinese/animal.rs:18-20 | the alias is an entry of `ANIMAL_ALIAS` |
| Animal.AliasInjective | crates/core/src/date/chinese/animal.rs:6-8 | distinct animals have distinct aliases |
| Animal.AliasRoundTrip | crates/core/src/date/chinese/animal.rs:6-8 | reading the animal back off its alias gives the animal's order |
| Animal.AliasExamples | crates/core/src/date/chinese/animal.rs:30-48 | 鼠 and 猪 for orders 1 and 12; orders 0 and 13 are refused |
| Clock.Hour | crates/core/src/date/chinese/gan_zhi.rs:56 | `t.hour()` of a UTC instant lies in 0..23 |
| Clock.WeekdayFromSunday | crates/core/src/date/chinese/solar.rs:46 | `num_days_from_sunday` lies in 0..6 |
| Clock.WeekdayNextDay | crates/core/src/date/chinese/solar.rs:46 | a day later is one weekday later, Saturday wrapping to Sunday |
| Clock.HourNext | crates/core/src/date/chinese/gan_zhi.rs:56 | an hour later within the same day is the next hour |
| LunarTable.EntryInDecade | crates/core/src/date/chinese/lunar.rs:9-51 | `LUNARS[year - 1900]`: the entry of year `1900 + 10k + j` is entry j of decade row k of the table |
| LunarTable.LeapNibblesInTable | crates/core/src/date/chinese/lunar.rs:9-51 | the leap nibble of every entry is at most 11 |
| Bits.LowBits4 | crates/core/src/date/chinese/lunar.rs:228 | `& 0xf` keeps the lowest four bits: it is the remainder modulo 16 |
| LunarTable.LeapMonth | crates/core/src/date/chinese/lunar.rs:227-229 | `leap_month` lies in 0..11 for every year of the table |
| LunarTable.LeapDays | crates/core/src/date/chinese/lunar.rs:231-240 | `leap_days` is 0 exactly when the year has no leap month, otherwise 29 or 30 |
| LunarTable.LunarDays | crates/core/src/date/chinese/lunar.rs:242-250 | `lunar_days` is 29 or 30 for a month 1..12, and 0 for any other month |
| LunarTable.MaskStep | crates/core/src/date/chinese/lunar.rs:217-222 | `mask >>= 1` moves from the flag of month m to that of month m + 1; `mask > 0x8` holds exactly for months 1..12 |
| LunarTable.MonthMaskShift | crates/core/src/date/chinese/lunar.rs:245 | the mask of month m is `0x10000 >> m`, the same mask the scan of `days_of_lunar_year` reaches by halving |
| LunarTable.MonthsDays | crates/core/src/date/chinese/lunar.rs:171-182 | months 1..n take between 29n and 30n days |
| LunarTable.YearDays | crates/core/src/date/chinese/lunar.rs:215-225 | a lunar year has 348..390 days: at most 360 without a leap month, at least 377 with one |
| LunarTable.ScanStep | crates/core/src/date/chinese/lunar.rs:218-223 | one pass of the `days_of_lunar_year` loop adds 30 or 29 days for the month whose flag the mask selects |
| LunarTable.DaysOfLunarYear | crates/core/src/date/chinese/lunar.rs:215-225 | the loop returns the year's length: its twelve regular months and its leap month |
| LunarTable.YearsBefore | crates/core/src/date/chinese/lunar.rs:167-169 | the years from 1900 up to `year` take between 348 and 390 days each |
| LunarTable.YearsBeforeGrows | crates/core/src/date/chinese/lunar.rs:167-169 | later years start strictly later |
| LunarSlots.SlotMonth | crates/core/src/date/chinese/lunar.rs:92-103 | every slot of a year shows a month 1..12 |
| LunarSlots.SlotIndex | crates/core/src/date/chinese/lunar.rs:145-146 | a month, leap only when it is the leap month, names the one slot that shows it |
| LunarSlots.SlotIndexOfSlot | crates/core/src/date/chinese/lunar.rs:145-146 | a slot's month and leap flag give that slot back |
| LunarSlots.Start | crates/core/src/date/chinese/lunar.rs:88-104 | the start of slot k is the sum of the lengths of the slots before it, between 29k and 30k days |
| LunarSlots.StartGrows | crates/core/src/date/chinese/lunar.rs:88-104 | a later slot starts at least 29 days a slot later |
| LunarSlots.SlotOf | crates/core/src/date/chinese/lunar.rs:88-109 | a day of the year lies in a slot: the slot found starts by the day and ends after it |
| LunarSlots.SlotOfUnique | crates/core/src/date/chinese/lunar.rs:88-109 | a day of the year lies in one slot only |
| LunarDates.SlotStartRegular | crates/core/src/date/chinese/lunar.rs:171-187 | slot k starts after the regular months before it and, past the leap slot, after the leap month |
| LunarDates.StartBeforeLeap | crates/core/src/date/chinese/lunar.rs:171-182 | up to the leap slot, slot k starts after regular months 1..k |
| LunarDates.StartAfterLeap | crates/core/src/date/chinese/lunar.rs:171-187 | past the leap slot, slot k starts after regular months 1..k-1 and the leap month |
| LunarDates.YearFill | crates/core/src/date/chinese/lunar.rs:215-225 | the slots fill exactly the year that `days_of_lunar_year` measures |
| LunarDates.SlotUnique | crates/core/src/date/chinese/lunar.rs:88-109 | a day of the year lies in one slot only |
| LunarDates.YearUnique | crates/core/src/date/chinese/lunar.rs:75-86 | a day offset lies in one lunar year only |
| LunarDates.YearEndsBefore | crates/core/src/date/chinese/lunar.rs:75-86 | an earlier year ends before a later one starts |
| LunarDates.StartsHolder | crates/core/src/date/chinese/lunar.rs:75-86 | a year that starts exactly on the day offset is the year that holds it: the year loop may stop on an offset of 0 |
| LunarDates.StartsPastHolder | crates/core/src/date/chinese/lunar.rs:75-86 | the first year that starts after the day offset is the one after the year that holds it: the year loop steps back one year |
| LunarDates.YearFrom | crates/core/src/date/chinese/lunar.rs:75-86 | searching upward from a year that starts by day d finds a year that starts by d and whose successor starts after d |
| LunarDates.YearOf | crates/core/src/date/chinese/lunar.rs:75-86 | every day offset of the table lies in a year of the table |
| LunarDates.YearDateValid | crates/core/src/date/chinese/lunar.rs:88-126 | the date of every day of a year is valid: a month 1..12, leap only for the leap month, a day within the month |
| LunarDates.YearDateToDay | crates/core/src/date/chinese/lunar.rs:88-126 | within a year, dating a day and counting that date's day gives the day back |
| LunarDates.YearDayToDate | crates/core/src/date/chinese/lunar.rs:171-192 | within a year, counting a valid date's day and dating that day gives the date back |
| LunarDates.DayToDate | crates/core/src/date/chinese/lunar.rs:65-127 | every day offset of the table decodes to a valid date: a year of the table, a month 1..12, leap only for the leap month, a day within the month |
| LunarDates.DateToDay | crates/core/src/date/chinese/lunar.rs:129-193 | a valid date encodes to a day offset inside the date's year |
| LunarDates.DayToDateToDay | crates/core/src/date/chinese/lunar.rs:65-193 | encoding a decoded day offset gives the offset back |
| LunarDates.DateToDayToDate | crates/core/src/date/chinese/lunar.rs:65-193 | decoding the day offset of a valid date gives the date back |
| Lunar.DayOffsetOf | crates/core/src/date/chinese/lunar.rs:72-73 | n whole days and a time of day past solar 1900-01-31 decode as day offset n |
| Lunar.AsWritten | crates/core/src/date/chinese/lunar.rs:110-121 | the fix-ups keep the year and the day, and leave every date that is not a first day alone |
| Lunar.AsWrittenMoves | crates/core/src/date/chinese/lunar.rs:105-121 | the as-written decoder misdates a valid date exactly when it is the first day of the leap month or of one of the two months after it |
| Lunar.ScanYears | crates/core/src/date/chinese/lunar.rs:75-86 | the year loop stops at the year that holds the day offset, with the day of that year left over |
| Lunar.MonthPass | crates/core/src/date/chinese/lunar.rs:93-103 | one pass of the month loop shows the month number and leap flag of the current slot and reads its length |
| Lunar.MonthStep | crates/core/src/date/chinese/lunar.rs:93-103 | one slot further, the month number, the leap flag and the day count move as the loop moves them |
| Lunar.StopInsideSlot | crates/core/src/date/chinese/lunar.rs:105-108 | with days left negative after slot k, the day lies inside slot k, and adding the month back gives its day |
| Lunar.StopAtSlotEnd | crates/core/src/date/chinese/lunar.rs:88-109 | with exactly 0 days left after slot k, the day is the first day of the slot after k |
| Lunar.ScanMonths | crates/core/src/date/chinese/lunar.rs:88-109 | the month loop stops at slot k. With days left negative the day lies inside slot k. With exactly 0 left it is the first day of slot k + 1 |
| Lunar.FixupAsWritten | crates/core/src/date/chinese/lunar.rs:110-123 | after a stop on exactly 0, the fix-ups name the date that `AsWritten` gives for the first day of the next slot |
| Lunar.FromSolarTimestamp | crates/core/src/date/chinese/lunar.rs:65-127 | `from_solar_timestamp` as written returns `DecodedAsWritten` of the timestamp's day offset |
| Lunar.DecodeDays | crates/core/src/date/chinese/lunar.rs:74-126 | the year loop followed by the month loop returns `DecodedAsWritten` of the day offset |
| Lunar.DecodeMonths | crates/core/src/date/chinese/lunar.rs:88-126 | the month loop and fix-ups as written return the `AsWritten` form of the day's true date |
| Lunar.DecodeMonthsFixed | crates/core/src/date/chinese/lunar.rs:88-126 | with the loop stopping only below zero, the date of day r of the year is exact |
| Lunar.FromSolarTimestampFixed | crates/core/src/date/chinese/lunar.rs:65-127 | the corrected decoder returns `DayToDate` of the timestamp's day offset |
| Lunar.DecodeDaysFixed | crates/core/src/date/chinese/lunar.rs:74-126 | with the corrected month loop, the two loops return `DayToDate` of the day offset |
| Lunar.New | crates/core/src/date/chinese/lunar.rs:54-63 | `Lunar::new` keeps the instant and holds the date the decoder as written gives its day offset, `DecodedAsWritten` |
| Lunar.NewFixed | crates/core/src/date/chinese/lunar.rs:54-63 | with the corrected decoder, the constructor holds the lunar date of the instant's day, `DayToDate` |
| Lunar.DecodedAsWrittenRanges | crates/core/src/date/chinese/lunar.rs:65-127 | even where it misdates, the as-written decoder returns a year of the table, a month 1..12, a day 1..30, and a leap flag only in a leap year |
| Lunar.DecodedAsWritten2017 | crates/core/src/date/chinese/lunar.rs:105-122 | the first day of leap month 6 of 2017 decodes, as written, as the first day of regular month 7 |
| Lunar.IsLeapAsWrittenPanics | crates/core/src/date/chinese/lunar.rs:195-197 | `is_leap` looks up the table with the month number as a year, which panics for every month 1..12 |
| Lunar.IsLeapYear | crates/core/src/date/chinese/lunar.rs:195-197 | `is_leap` as intended: the year has a leap month exactly when it has 13 months, and so at least 377 days |
| LunarEncoding.MaxDays | crates/core/src/date/chinese/lunar.rs:153-159 | the day limit is the leap month's length for the leap month, otherwise the regular month's length |
| LunarEncoding.SumYears | crates/core/src/date/chinese/lunar.rs:167-169 | the year loop sums the days of every year before `year` |
| LunarEncoding.SumMonths | crates/core/src/date/chinese/lunar.rs:171-182 | the month loop sums regular months 1..month-1, and adds the leap month once when it lies before `month` |
| LunarEncoding.ToSolarTimestamp | crates/core/src/date/chinese/lunar.rs:129-193 | `to_solar_timestamp` as written returns 0 outside 1900..2100, past either boundary, or for a day past the month's length; otherwise it returns the start of the day plus the time |
| LunarEncoding.ToSolarTimestampFixed | crates/core/src/date/chinese/lunar.rs:129-193 | the same, with only the 2100 boundary clause |
| LunarEncoding.EncodeChecked | crates/core/src/date/chinese/lunar.rs:153-192 | after the year and boundary checks: the day-length check, the two sums, and the leap month's own regular month |
| LunarEncoding.DaysBeforeDate | crates/core/src/date/chinese/lunar.rs:166-187 | for a valid date, the encoder's sum plus the days of the month before the date is the date's day offset |
| LunarEncoding.DaysBeforeSlot | crates/core/src/date/chinese/lunar.rs:166-187 | the encoder's sum for a month is the days of the years before plus the start of the slot that shows the month |
| LunarEncoding.ToSolarFixedOfDate | crates/core/src/date/chinese/lunar.rs:129-193 | without the 1900 clause, every valid date short of the 2100 boundary encodes as its day offset counted from solar 1900-01-31, plus the time of day |
| LunarEncoding.ToSolarAsWrittenOfDate | crates/core/src/date/chinese/lunar.rs:148-151 | as written, the encoder agrees with the corrected one except on lunar 1900/1, which it always refuses |
| LunarEncoding.EncodeDecode | crates/core/src/date/chinese/lunar.rs:65-193 | encoding a valid date and decoding the timestamp with the corrected decoder gives the date back |
| LunarEncoding.DecodeEncode | crates/core/src/date/chinese/lunar.rs:65-193 | decoding a day offset and encoding the date with a time of day gives that instant back |
| LunarEncoding.EncodeDecodeAsWritten | crates/core/src/date/chinese/lunar.rs:65-193 | the as-written round trip returns the date, except that it moves the first days next to the leap month as `AsWritten` says |
| LunarEncoding.LeapFlagDropped | crates/core/src/date/chinese/lunar.rs:145-146 | a leap flag on a month that is not the year's leap month is ignored |
| GanZhi.MonthIndex | crates/core/src/date/chinese/gan_zhi.rs:40-44 | for a non-negative term index, the month index lies in 1..12 |
| GanZhi.DayOrder | crates/core/src/date/chinese/gan_zhi.rs:49-51 | an instant at or after `begin` has a day order in 1..60 |
| GanZhi.HourBranch | crates/core/src/date/chinese/gan_zhi.rs:56 | every hour of the day falls in a branch 1..12 |
| GanZhi.YearPillar | crates/core/src/date/chinese/gan_zhi.rs:34-35 | from year 3 on the stem and branch of `year - 3` exist, and they have the same parity |
| GanZhi.MonthPillar | crates/core/src/date/chinese/gan_zhi.rs:46-47 | for a non-negative index and year stem the month pillar exists, and its stem and branch have the same parity |
| GanZhi.DayPillar | crates/core/src/date/chinese/gan_zhi.rs:53-54 | for a non-negative day order the day pillar exists, and its stem and branch have the same parity |
| GanZhi.HourPillar | crates/core/src/date/chinese/gan_zhi.rs:56-60 | for a valid hour and day stem the hour pillar exists, and its stem and branch have the same parity |
| GanZhi.New | crates/core/src/date/chinese/gan_zhi.rs:26-75 | every result has matched pillars, keeps the instant, lies in a supported year, and holds the two terms around the instant |
| GanZhi.NewSome | crates/core/src/date/chinese/gan_zhi.rs:26-75 | for well-formed inputs, `new` fails exactly for an unsupported year or a missing solar term |
| GanZhi.NewUnsupported | crates/core/src/date/chinese/gan_zhi.rs:28-30 | years outside the supported range have no pillars |
| GanZhi.GanzhiOrder | crates/core/src/date/chinese/gan_zhi.rs:126-128 | `ganzhi_order` lies in 1..60 |
| GanZhi.YearGanzhiOrder | crates/core/src/date/chinese/gan_zhi.rs:103-105 | the year pillar's place lies in 1..60, and for a matched pillar its residues modulo 10 and 12 give back the year stem and branch |
| GanZhi.MonthGanzhiOrder | crates/core/src/date/chinese/gan_zhi.rs:108-110 | the month pillar's place lies in 1..60, and for a matched pillar its residues modulo 10 and 12 give back the month stem and branch |
| GanZhi.DayGanzhiOrder | crates/core/src/date/chinese/gan_zhi.rs:113-115 | the day pillar's place lies in 1..60, and for a matched pillar its residues modulo 10 and 12 give back the day stem and branch |
| GanZhi.HourGanzhiOrder | crates/core/src/date/chinese/gan_zhi.rs:118-120 | the hour pillar's place lies in 1..60, and for a matched pillar its residues modulo 10 and 12 give back the hour stem and branch |
| GanZhi.PillarOrderInverse | crates/core/src/date/chinese/gan_zhi.rs:126-128 | a matched pillar is recovered from its cycle place by the residues modulo 10 and 12 |
| GanZhi.AnimalOf | crates/core/src/date/chinese/gan_zhi.rs:78-80 | `animal` has the order of the year branch, so its `unwrap` never panics |
| GanZhi.CycleOrder | crates/core/src/date/chinese/gan_zhi.rs:126-128 | the pair of residues of n modulo 10 and 12 has cycle order n modulo 60 |
| GanZhi.CycleOrderBelow60 | crates/core/src/date/chinese/gan_zhi.rs:126-128 | the pair of k, for k in 1..60, has cycle order k |
| GanZhi.GanzhiOrderMatched | crates/core/src/date/chinese/gan_zhi.rs:127 | for a matched pair, `ganzhi_order` in plain arithmetic |
| GanZhi.GanzhiOrderInverse | crates/core/src/date/chinese/gan_zhi.rs:126-128 | a matched pair's cycle order gives the stem back modulo 10 and the branch modulo 12 |
| GanZhi.YearPillarCycle | crates/core/src/date/chinese/gan_zhi.rs:34-35 | from year 4 on, the year pillar is pair `year - 3` of the cycle |
| GanZhi.DayPillarCycle | crates/core/src/date/chinese/gan_zhi.rs:51-54 | the day pillar of a day order is the pair with that cycle order |
| GanZhi.NewCycleOrders | crates/core/src/date/chinese/gan_zhi.rs:26-75 | through `new`, the year and day pillars have exactly the cycle orders of the pillar year and the day order |
| GanZhi.HourBranchPairs | crates/core/src/date/chinese/gan_zhi.rs:56 | hours pair up into two-hour branches, 23:00 to 00:59 being the first |
| GanZhi.MonthBranchOfTerm | crates/core/src/date/chinese/gan_zhi.rs:40-46 | the month branch is two past half the term index modulo 24 |
| GanZhi.MonthStemOfYearStem | crates/core/src/date/chinese/gan_zhi.rs:46-47 | year stems five apart give the same month pillars; the first month has branch 寅 and stem `2 * yearGan + 1` |
| GanZhi.HourStemOfDayStem | crates/core/src/date/chinese/gan_zhi.rs:56-60 | day stems five apart give the same hour pillars; the first hour's stem is `2 * dayGan - 1` |
| GanZhi.DayOrderNext | crates/core/src/date/chinese/gan_zhi.rs:49-51 | a day later, the day order is one further round the cycle |
| GanZhi.AnimalOfYear | crates/core/src/date/chinese/gan_zhi.rs:78-80 | the animal is that of `(year - 3)` modulo 12 |
| GanZhi.AnimalExamples | crates/core/src/date/chinese/gan_zhi.rs:78-80 | the Dog for the pillar year 2018, the Rooster for 2017 |
| GanZhi.ExampleOrders | crates/core/src/date/chinese/gan_zhi.rs:103-128 | the cycle orders of the pillars of the examples of the module's tests |
| GanZhi.NewNewYear2018 | crates/core/src/date/chinese/gan_zhi.rs:173-181 | 2018-01-01 00:00 UTC has the pillars 丁酉, 壬子, 癸巳 and 壬子 |
| GanZhi.NewAfterSpring2018 | crates/core/src/date/chinese/gan_zhi.rs:218-237 | 2018-02-05 00:00 UTC, after Start of Spring, has the pillars 戊戌, 甲寅, 戊辰 and 壬子, so its year branch is 戌, the Dog's |
| GanZhi.NewAroundSpring2018 | crates/core/src/date/chinese/gan_zhi.rs:174-184 | one second before Start of Spring and at Start of Spring itself, the year and month pillars turn over |
| Constellation.Alias | crates/core/src/date/chinese/constellation.rs:12-40 | a sign exactly for a month 1..12, and always one of the twelve signs |
| Constellation.AliasIsTable | crates/core/src/date/chinese/constellation.rs:13-38 | the guard chain is the table of cutoff days: a month starts in one sign and turns into the next after its cutoff |
| Constellation.OneChangePerMonth | crates/core/src/date/chinese/constellation.rs:13-38 | within a month the sign changes once, after the cutoff day, into another sign |
| Constellation.SignCarriesOver | crates/core/src/date/chinese/constellation.rs:13-38 | the sign a month ends in is the sign the next month starts in, December leading into January |
| Constellation.FirstDays | crates/core/src/date/chinese/constellation.rs:66-92 | the signs of the first day of every month, and of March 20 and 21 |
| Solar.PrevTerm | crates/core/src/date/chinese/solar.rs:22 | `prev` of a term is the term before it when the module knows that term, otherwise `None` |
| Solar.NextTerm | crates/core/src/date/chinese/solar.rs:27 | `next` of a term is the term after it when the module knows that term, otherwise `None` |
| Solar.New | crates/core/src/date/chinese/solar.rs:14-39 | `None` exactly when a term is missing or a `prev`/`next` it needs is unknown. Otherwise the instant is kept, the current term is the later term whose day the instant lies on, and its neighbours become prev and next |
| Solar.IsLeapYear | crates/core/src/date/chinese/solar.rs:40-43 | the Gregorian rule with Rust's remainder: divisible by 4 and not by 100, or by 400 |
| Solar.IsLeap | crates/core/src/date/chinese/solar.rs:40-43 | an instant is in a leap year exactly when its Gregorian year is divisible by 4 and not by 100, or by 400 |
| Solar.IsLeapYearPeriodic | crates/core/src/date/chinese/solar.rs:40-43 | the rule repeats every 400 years |
| Solar.IsLeapYearExamples | crates/core/src/date/chinese/solar.rs:141-155 | 2018 is common and 2020 is leap; 1900 and 2000 follow the century rule |
| Solar.WeekNumber | crates/core/src/date/chinese/solar.rs:45-47 | the weekday lies in 0..6, an index of the name table |
| Solar.WeekAlias | crates/core/src/date/chinese/solar.rs:49-52 | the name is an entry of the seven-entry table, which the index never leaves |
| Solar.WeekAliasInjective | crates/core/src/date/chinese/solar.rs:49-52 | the name tells the weekday |
| Solar.WeekExamples | crates/core/src/date/chinese/solar.rs:157-188 | 2018-03-21 00:00 UTC is a Wednesday (三), and 2018-03-25 00:01 UTC is a Sunday (日) |
| Solar.YearAnimal | crates/core/src/date/chinese/solar.rs:54-56 | an animal exactly for a year from 3 on, or when 12 divides `year - 3`, and it is the animal of `year - 3` modulo 12 |
| Solar.AnimalOf | crates/core/src/date/chinese/solar.rs:54-56 | an instant has an animal exactly when its year is from 3 on or 12 divides `year - 3`, and that animal's order is congruent to `year - 3` modulo 12 |
| Solar.YearAnimalPeriodic | crates/core/src/date/chinese/solar.rs:54-56 | the animals come round every twelve years |
| Solar.YearAnimalExamples | crates/core/src/date/chinese/solar.rs:190-205 | 2018 is the Dog's year and 2019 the Pig's |
| Solar.AnimalsOfPillarYear | crates/core/src/date/chinese/solar.rs:54-56 | the Gregorian animal is the pillar-year animal from Start of Spring on. Before that the pillar animal is the previous year's, a different one |

## Left out

- The solar-term module (`solarterm.rs`, with `calc_solarterm`, `spring_timestamp`, `is_in_day`, and the bounds `SOLARTERM_FROM_YEAR` and `SOLARTERM_TO_YEAR`) is not part of this model. Its answers are inputs (`GanZhi.Solarterms`, `Solar.Terms`).
- chrono is not modelled. The Gregorian year, month and day of an instant are fields of `Clock.DateTime`, taken as given. The hour and the weekday are computed from the UTC timestamp.
- `dd` of `utils.rs` works on floating point and is not part of this model.
- `i64` and `i32` overflow is not modelled: integers are unbounded.
- The getters and the string formatting of the aliases (`year_ganzhi_alias` and its siblings: a stem alias followed by a branch alias) are not modelled.
- `Constellation::new` only stores the instant, and `Solar::constellation` only builds one. Both are modelled without a contract.
- The test vectors of `test_from_solar_timestamp` are not stated as lemmas, because evaluating the table for one literal date is too costly for the verifier. The decoder is proved correct, or wrong in the stated way, for every day offset instead.
- Solar.New: the examples of `test_new_solar` are not stated, because they depend on the term times of the solar-term module, which are inputs here.
- GanZhi.New: the `prev`/`next` orders of the tests (1, 2, 3) are term positions inside the solar-term module. The model keeps absolute term indices, so the example lemmas state the indices.
- GanZhi.ExampleOrders: the cycle orders of the example pillars are stated on the pillars themselves, not through `new` on literal instants, because evaluating them through `new` is too costly.
- LunarEncoding.ToSolarTimestamp: the encoder does not check that `day >= 1` or that `month` lies in 1..12. A day 0 or a negative day gives a timestamp before the month, and a month outside 1..12 has length 0. This is modelled as written, and the round-trip lemmas are stated for valid dates.
- Lunar.FromSolarTimestamp requires the timestamp's day offset to fall in the table. Outside it, the source indexes `LUNARS` out of range and panics.

## Findings

| source | as written | input that shows it | evidently intended | confidence | as-written member | corrected member |
|---|---|---|---|---|---|---|
| crates/core/src/date/chinese/lunar.rs:105-121 | the month loop stops when the offset reaches exactly 0, one month early. The fix-ups then name month `leap + 1` in its place whenever the stop is next to the leap month | the first day of leap month 6 of lunar 2017 (solar 2017-07-23) decodes as 2017/7/1, not leap 6/1. The first days of regular months 7 and 8 of 2017 are misdated too | the date of the day: stop only when the offset drops below 0 | high (proved; not executed) | Lunar.DecodedAsWritten2017 | Lunar.FromSolarTimestampFixed |
| crates/core/src/date/chinese/lunar.rs:149 | the boundary test refuses `year == 1900 && month == 1 && day < 31`, and lunar 1900/1 has at most 30 days | every day of lunar 1900/1, e.g. (1900, 1, 1), encodes as 0 | unknown: the clause conflicts with the decoder on the table's first month, since the decoder dates solar 1900-01-31 as lunar 1900/1/1, which the encoder refuses; the 2100 clause has the same shape and refuses days of 2100/12 that the decoder produces. The corrected half drops the 1900 clause to restore the round trip; whether the clauses are meant as deliberate boundary exclusions is not settled by the code | medium (proved; not executed) | LunarEncoding.ToSolarAsWrittenOfDate | LunarEncoding.EncodeDecode |
| crates/core/src/date/chinese/lunar.rs:195-197 | `is_leap` calls `leap_month(self.month)`, which indexes the table at `month - 1900` | any `Lunar`, whose month is 1..12, panics | `leap_month(self.year) != 0` | high (proved; not executed) | Lunar.IsLeapAsWrittenPanics | Lunar.IsLeapYear |
