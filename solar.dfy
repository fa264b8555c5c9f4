/**
 * `solar.rs`: the Gregorian view of an instant. It records the solar terms
 * around the instant, re-centred on the term whose calendar day the instant
 * falls on, and answers the Gregorian leap-year rule, the weekday and the
 * zodiac animal of the Gregorian year.
 *
 * As in `GanZhi`, the solar-term module is not part of this model: what it
 * answers for the instant (the two terms around it, whether the instant lies
 * on either term's calendar day, and the range of term indices its `prev`
 * and `next` accept) is an input.
 */
module Solar {
  import opened Wrappers
  import opened Utils
  import opened Clock
  import Animal
  import GanZhi
  import Constellation

  /**
   * What the solar-term module answers for an instant: the indices of the
   * terms before and after it that `calc_solarterm` finds, whether the
   * instant lies on the calendar day of each (`is_in_day`), and the indices
   * `first..last` of the terms it knows, outside which `prev` and `next`
   * give `None`.
   */
  datatype Terms = Terms(prev: Option<int>, next: Option<int>,
    prevInDay: bool, nextInDay: bool, first: int, last: int)

  /** `struct Solar`: the instant, the term it lies on if any, and the terms before and after. */
  datatype Solar = Solar(t: DateTime, current: Option<int>, prev: int, next: int)

  predicate Known(terms: Terms, i: int) {
    terms.first <= i <= terms.last
  }

  /** `Solarterm::prev`: the term before, if the module knows it. */
  function PrevTerm(terms: Terms, i: int): (r: Option<int>)
    ensures r.Some? <==> Known(terms, i - 1)
    ensures r.Some? ==> r.value == i - 1
  {
    if Known(terms, i - 1) then Some(i - 1) else None
  }

  /** `Solarterm::next`: the term after, if the module knows it. */
  function NextTerm(terms: Terms, i: int): (r: Option<int>)
    ensures r.Some? <==> Known(terms, i + 1)
    ensures r.Some? ==> r.value == i + 1
  {
    if Known(terms, i + 1) then Some(i + 1) else None
  }

  /** The two terms around the instant follow each other, as they do unless the instant lies on one of them. */
  predicate Adjacent(terms: Terms)
    requires terms.prev.Some? && terms.next.Some?
  {
    terms.next.value - terms.prev.value == 1
  }

  /**
   * `Solar::new`. When the two terms around the instant follow each other
   * and the instant lies on the calendar day of one of them, that term
   * becomes the current one and the previous and next terms are taken
   * around it; the later term wins when the instant lies on both days.
   * A term the module does not know aborts with `None`, as `?` does.
   */
  method New(t: DateTime, terms: Terms) returns (r: Option<Solar>)
    ensures r.None? <==> (terms.prev.None? || terms.next.None?
      || (Adjacent(terms) && terms.prevInDay && !Known(terms, terms.prev.value - 1))
      || (Adjacent(terms) && terms.nextInDay
          && (!Known(terms, terms.next.value - 1) || !Known(terms, terms.next.value + 1))))
    ensures r.Some? ==> r.value.t == t
    ensures terms.prev.Some? && terms.next.Some? && (!Adjacent(terms) || (!terms.prevInDay && !terms.nextInDay))
      ==> r == Some(Solar(t, None, terms.prev.value, terms.next.value))
    ensures r.Some? && r.value.current.Some? ==>
      r.value.prev == r.value.current.value - 1 && r.value.next == r.value.current.value + 1
    ensures r.Some? && Adjacent(terms) && terms.nextInDay ==> r.value.current == terms.next
    ensures r.Some? && Adjacent(terms) && terms.prevInDay && !terms.nextInDay ==> r.value.current == terms.prev
  {
    if terms.prev.None? || terms.next.None? {
      return None;
    }
    var p := terms.prev.value;
    var n := terms.next.value;
    var c: Option<int> := None;
    if n - p == 1 {
      if terms.prevInDay {
        c := Some(p);
        var before := PrevTerm(terms, p);
        if before.None? {
          return None;
        }
        p := before.value;
      }
      if terms.nextInDay {
        c := Some(n);
        var before := PrevTerm(terms, c.value);
        if before.None? {
          return None;
        }
        p := before.value;
        var after := NextTerm(terms, c.value);
        if after.None? {
          return None;
        }
        n := after.value;
      }
    }
    r := Some(Solar(t, c, p, n));
  }

  // ----- the Gregorian year -----

  /** `is_leap` on a year, with Rust's remainder: divisible by 4 and not by 100, or by 400. The sign of the year does not matter. */
  function IsLeapYear(year: int): (r: bool)
    ensures r <==> (year % 4 == 0 && year % 100 != 0) || year % 400 == 0
  {
    RemZeroExactlyWhenDivisible(year, 4);
    RemZeroExactlyWhenDivisible(year, 100);
    RemZeroExactlyWhenDivisible(year, 400);
    (Rem(year, 4) == 0 && Rem(year, 100) != 0) || Rem(year, 400) == 0
  }

  /** `Solar::is_leap`: the rule applied to the instant's Gregorian year. */
  function IsLeap(s: Solar): (r: bool)
    ensures r <==> (s.t.year % 4 == 0 && s.t.year % 100 != 0) || s.t.year % 400 == 0
  {
    IsLeapYear(s.t.year)
  }

  /** The rule repeats every 400 years. */
  lemma IsLeapYearPeriodic(year: int)
    ensures IsLeapYear(year + 400) == IsLeapYear(year)
  {
    assert (year + 400) % 4 == year % 4;
    assert (year + 400) % 100 == year % 100;
    assert (year + 400) % 400 == year % 400;
  }

  /** 2018 is a common year, 2020 a leap year, 1900 a common century and 2000 a leap century. */
  lemma IsLeapYearExamples()
    ensures !IsLeapYear(2018) && IsLeapYear(2020) && !IsLeapYear(1900) && IsLeapYear(2000)
  {
  }

  // ----- the weekday -----

  const WEEK_ALIAS: seq<string> := ["日", "一", "二", "三", "四", "五", "六"]

  /** `week_number`: the weekday counted from Sunday (0) to Saturday (6). */
  function WeekNumber(s: Solar): (w: int)
    ensures 0 <= w < |WEEK_ALIAS|
  {
    WeekdayFromSunday(s.t)
  }

  /** `week_alias`: the weekday's name, which the seven-entry table always has. */
  function WeekAlias(s: Solar): (a: string)
    ensures a in WEEK_ALIAS && |a| == 1
  {
    WEEK_ALIAS[WeekNumber(s)]
  }

  /** The seven names are distinct, so the alias tells the weekday. */
  lemma WeekAliasInjective(s: Solar, u: Solar)
    requires WeekAlias(s) == WeekAlias(u)
    ensures WeekNumber(s) == WeekNumber(u)
  {
    assert WeekAlias(s)[0] == WeekAlias(u)[0];
  }

  /** 2018-03-21 00:00 UTC was a Wednesday (三) and 2018-03-25 00:01 UTC a Sunday (日). */
  lemma WeekExamples(s: Solar, u: Solar)
    requires s.t.timestamp == 1521590400 && u.t.timestamp == 1521936060
    ensures WeekNumber(s) == 3 && WeekAlias(s) == "三"
    ensures WeekNumber(u) == 0 && WeekAlias(u) == "日"
  {
  }

  // ----- the animal -----

  /**
   * `Solar::animal` on a year: the animal of `(year - 3)` modulo 12, taken
   * on the Gregorian year itself. A year before 3 gives a negative order,
   * which `Animal::new` refuses, unless 12 divides `year - 3`.
   */
  function YearAnimal(year: int): (r: Option<Animal.Animal>)
    ensures r.Some? <==> year >= 3 || (year - 3) % 12 == 0
    ensures r.Some? ==> (year - 3 - r.value.order) % 12 == 0
  {
    Animal.New(OrderMod(year - 3, 12))
  }

  /** `Solar::animal`. */
  function AnimalOf(s: Solar): (r: Option<Animal.Animal>)
    ensures r.Some? <==> s.t.year >= 3 || (s.t.year - 3) % 12 == 0
    ensures r.Some? ==> (s.t.year - 3 - r.value.order) % 12 == 0
  {
    YearAnimal(s.t.year)
  }

  /** The animals come round every twelve years. */
  lemma YearAnimalPeriodic(year: int)
    requires year >= 3
    ensures YearAnimal(year + 12) == YearAnimal(year)
  {
    OrderModPeriodic(year - 3, 12);
  }

  /** 2018 is the Dog's year (11) and 2019 the Pig's (12). */
  lemma YearAnimalExamples()
    ensures YearAnimal(2018) == Some(Animal.Animal(11)) && YearAnimal(2019) == Some(Animal.Animal(12))
  {
  }

  /**
   * The Gregorian animal is the animal of the year pillar of the same year:
   * `Ganzhi::animal` agrees with it from Start of Spring on, and before it
   * gives the previous year's animal, which is a different one.
   */
  lemma AnimalsOfPillarYear(g: GanZhi.Ganzhi, year: int)
    requires year >= 4
    ensures GanZhi.YearPillar(year) == Some(GanZhi.Pillar(g.yearGan, g.yearZhi))
      ==> YearAnimal(year) == Some(GanZhi.AnimalOf(g))
    ensures GanZhi.YearPillar(year - 1) == Some(GanZhi.Pillar(g.yearGan, g.yearZhi))
      ==> YearAnimal(year).Some? && YearAnimal(year) != Some(GanZhi.AnimalOf(g))
  {
    if GanZhi.YearPillar(year) == Some(GanZhi.Pillar(g.yearGan, g.yearZhi)) {
      GanZhi.AnimalOfYear(g, year);
    }
    if GanZhi.YearPillar(year - 1) == Some(GanZhi.Pillar(g.yearGan, g.yearZhi)) {
      GanZhi.AnimalOfYear(g, year - 1);
    }
  }

  // ----- the constellation -----

  /** `Solar::constellation`: the constellation of the same instant. */
  function ConstellationOf(s: Solar): Constellation.Constellation {
    Constellation.New(s.t)
  }
}
