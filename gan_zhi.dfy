/**
 * `gan_zhi.rs`: the four pillars (year, month, day, hour) of an instant, each
 * a heavenly stem and an earthly branch, and the order 1..60 of a stem-branch
 * pair in the sexagenary cycle.
 *
 * The solar-term module the pillars consult is not part of this model: its
 * answers for the instant (the supported year range, the Start-of-Spring
 * timestamp of the year, the indices of the solar terms around the instant)
 * are inputs.
 */
module GanZhi {
  import opened Wrappers
  import opened Utils
  import opened Clock
  import Gan
  import Zhi
  import Animal

  /**
   * What the solar-term module answers for an instant: the years it
   * supports (`SOLARTERM_FROM_YEAR <= year < SOLARTERM_TO_YEAR`), the Unix
   * timestamp of `FROM_YEAR-01-01 00:00 UTC`, `spring_timestamp` of the
   * instant's year, and the indices of the terms before and after the
   * instant that `calc_solarterm` finds (`None` where it finds none).
   */
  datatype Solarterms = Solarterms(fromYear: int, toYear: int, begin: int,
    spring: Option<int>, prev: Option<int>, next: Option<int>)

  /** `struct Ganzhi`: the instant, its four pillars, and the indices of the terms around it. */
  datatype Ganzhi = Ganzhi(t: DateTime,
    yearGan: Gan.Gan, yearZhi: Zhi.Zhi, monthGan: Gan.Gan, monthZhi: Zhi.Zhi,
    dayGan: Gan.Gan, dayZhi: Zhi.Zhi, hourGan: Gan.Gan, hourZhi: Zhi.Zhi,
    prevSolarterm: int, nextSolarterm: int)

  /** `Ganzhi::is_supported`. */
  predicate IsSupported(year: int, s: Solarterms) {
    s.fromYear <= year && year < s.toYear
  }

  /** The year the pillars count: the Gregorian year, less one before that year's Start of Spring. */
  function PillarYear(t: DateTime, spring: int): int {
    if t.timestamp < spring then t.year - 1 else t.year
  }

  /**
   * The month index 1..12 of `new`: the previous term's index, one more when
   * the instant sits on a term (so that the terms found are two apart), taken
   * modulo 24 and halved.
   */
  function MonthIndex(p: int, n: int): (r: int)
    ensures p >= 0 ==> 1 <= r <= 12
  {
    var i := if n - p == 2 then p + 1 else p;
    OrderMod(Quot(Rem(i, 24), 2), 12)
  }

  /** The day order 1..60: whole days since `FROM_YEAR-01-01`, shifted by 31. */
  function DayOrder(t: DateTime, begin: int): (r: int)
    ensures t.timestamp >= begin ==> 1 <= r <= 60
  {
    OrderMod(Quot(t.timestamp - begin, SECONDS_PER_DAY) + 31, 60)
  }

  /** The hour branch: the two-hour period, the one from 23:00 to 00:59 counted first. */
  function HourBranch(hour: int): (r: int)
    ensures 0 <= hour ==> 1 <= r <= 12
  {
    OrderMod(Quot(hour + 1, 2) + 1, 12)
  }

  /** A stem and a branch: one pillar. */
  datatype Pillar = Pillar(gan: Gan.Gan, zhi: Zhi.Zhi)

  /** The sexagenary cycle only pairs a stem and a branch of the same parity. */
  predicate Matched(p: Pillar) {
    p.gan.order % 2 == p.zhi.order % 2
  }

  /** The year pillar of `new`: stem and branch of `year - 3`, which exist from year 3 on. */
  function YearPillar(year: int): (r: Option<Pillar>)
    ensures year >= 3 ==> r.Some?
    ensures r.Some? ==> Matched(r.value)
  {
    OrderModParity(year - 3, 10);
    OrderModParity(year - 3, 12);
    var gan :- Gan.New(OrderMod(year - 3, 10));
    var zhi :- Zhi.New(OrderMod(year - 3, 12));
    Some(Pillar(gan, zhi))
  }

  /** The month pillar of `new`: the branch two past the month index, the stem counted on from twice the year stem. */
  function MonthPillar(i: int, yearGan: int): (r: Option<Pillar>)
    ensures 0 <= i && 0 <= yearGan ==> r.Some?
    ensures r.Some? ==> Matched(r.value)
  {
    OrderModParity(i + 2, 12);
    OrderModParity(i + yearGan * 2, 10);
    EvenShift(i, 1);
    EvenShift(i, yearGan);
    var zhi :- Zhi.New(OrderMod(i + 2, 12));
    var gan :- Gan.New(OrderMod(i + yearGan * 2, 10));
    Some(Pillar(gan, zhi))
  }

  /** The day pillar of `new`: stem and branch of the day order. */
  function DayPillar(dayOrder: int): (r: Option<Pillar>)
    ensures dayOrder >= 0 ==> r.Some?
    ensures r.Some? ==> Matched(r.value)
  {
    OrderModParity(dayOrder, 10);
    OrderModParity(dayOrder, 12);
    var gan :- Gan.New(OrderMod(dayOrder, 10));
    var zhi :- Zhi.New(OrderMod(dayOrder, 12));
    Some(Pillar(gan, zhi))
  }

  /** The hour pillar of `new`: the two-hour branch, the stem counted on from twice the day stem. */
  function HourPillar(hour: int, dayGan: int): (r: Option<Pillar>)
    ensures 0 <= hour && 1 <= dayGan ==> r.Some?
    ensures r.Some? ==> Matched(r.value)
  {
    var zhi :- Zhi.New(HourBranch(hour));
    OrderModParity(zhi.order - 2 + dayGan * 2, 10);
    EvenShift(zhi.order, dayGan - 1);
    var gan :- Gan.New(OrderMod(zhi.order - 2 + dayGan * 2, 10));
    Some(Pillar(gan, zhi))
  }

  /** Adding an even number keeps the parity. */
  lemma EvenShift(a: int, k: int)
    ensures (a + k * 2) % 2 == a % 2
  {
    var q := a / 2;
    assert a + k * 2 == (q + k) * 2 + a % 2;
  }

  /** All four pillars of `g` are matched pairs. */
  predicate PillarsMatched(g: Ganzhi) {
    Matched(Pillar(g.yearGan, g.yearZhi)) && Matched(Pillar(g.monthGan, g.monthZhi))
    && Matched(Pillar(g.dayGan, g.dayZhi)) && Matched(Pillar(g.hourGan, g.hourZhi))
  }

  /**
   * `Ganzhi::new`: `None` for an unsupported year, a missing solar term, or an
   * order a stem or branch refuses; the pillars it builds are matched pairs.
   */
  function New(t: DateTime, s: Solarterms): (r: Option<Ganzhi>)
    ensures r.Some? ==> PillarsMatched(r.value) && r.value.t == t
    ensures r.Some? ==> IsSupported(t.year, s) && s.prev == Some(r.value.prevSolarterm) && s.next == Some(r.value.nextSolarterm)
  {
    if !IsSupported(t.year, s) then None
    else
      var spring :- s.spring;
      var y :- YearPillar(PillarYear(t, spring));
      var p :- s.prev;
      var n :- s.next;
      var m :- MonthPillar(MonthIndex(p, n), y.gan.order);
      var d :- DayPillar(DayOrder(t, s.begin));
      var h :- HourPillar(Hour(t), d.gan.order);
      Some(Ganzhi(t, y.gan, y.zhi, m.gan, m.zhi, d.gan, d.zhi, h.gan, h.zhi, p, n))
  }

  /** `Ganzhi::ganzhi_order`: the place 1..60 of a stem-branch pair in the sexagenary cycle. */
  function GanzhiOrder(ganOrder: int, zhiOrder: int): (r: int)
    ensures 1 <= ganOrder <= 10 && 1 <= zhiOrder <= 12 ==> 1 <= r <= 60
  {
    OrderMod(Quot(Rem(ganOrder + 10 - zhiOrder, 10), 2) * 12 + zhiOrder, 60)
  }

  /**
   * `year_ganzhi_order`: the place 1..60 of the year pillar in the cycle; for a matched
   * pillar, the stem and branch are the residues of that place modulo 10 and 12.
   */
  function YearGanzhiOrder(g: Ganzhi): (r: int)
    ensures 1 <= r <= 60
    ensures Matched(Pillar(g.yearGan, g.yearZhi)) ==> OrderMod(r, 10) == g.yearGan.order && OrderMod(r, 12) == g.yearZhi.order
  {
    PillarOrderInverse(Pillar(g.yearGan, g.yearZhi));
    GanzhiOrder(g.yearGan.order, g.yearZhi.order)
  }

  /**
   * `month_ganzhi_order`: the place 1..60 of the month pillar in the cycle; for a matched
   * pillar, the stem and branch are the residues of that place modulo 10 and 12.
   */
  function MonthGanzhiOrder(g: Ganzhi): (r: int)
    ensures 1 <= r <= 60
    ensures Matched(Pillar(g.monthGan, g.monthZhi)) ==> OrderMod(r, 10) == g.monthGan.order && OrderMod(r, 12) == g.monthZhi.order
  {
    PillarOrderInverse(Pillar(g.monthGan, g.monthZhi));
    GanzhiOrder(g.monthGan.order, g.monthZhi.order)
  }

  /**
   * `day_ganzhi_order`: the place 1..60 of the day pillar in the cycle; for a matched
   * pillar, the stem and branch are the residues of that place modulo 10 and 12.
   */
  function DayGanzhiOrder(g: Ganzhi): (r: int)
    ensures 1 <= r <= 60
    ensures Matched(Pillar(g.dayGan, g.dayZhi)) ==> OrderMod(r, 10) == g.dayGan.order && OrderMod(r, 12) == g.dayZhi.order
  {
    PillarOrderInverse(Pillar(g.dayGan, g.dayZhi));
    GanzhiOrder(g.dayGan.order, g.dayZhi.order)
  }

  /**
   * `hour_ganzhi_order`: the place 1..60 of the hour pillar in the cycle; for a matched
   * pillar, the stem and branch are the residues of that place modulo 10 and 12.
   */
  function HourGanzhiOrder(g: Ganzhi): (r: int)
    ensures 1 <= r <= 60
    ensures Matched(Pillar(g.hourGan, g.hourZhi)) ==> OrderMod(r, 10) == g.hourGan.order && OrderMod(r, 12) == g.hourZhi.order
  {
    PillarOrderInverse(Pillar(g.hourGan, g.hourZhi));
    GanzhiOrder(g.hourGan.order, g.hourZhi.order)
  }

  /** `GanzhiOrderInverse` for a pillar, when it is matched. */
  lemma PillarOrderInverse(p: Pillar)
    ensures Matched(p) ==> OrderMod(GanzhiOrder(p.gan.order, p.zhi.order), 10) == p.gan.order
    ensures Matched(p) ==> OrderMod(GanzhiOrder(p.gan.order, p.zhi.order), 12) == p.zhi.order
  {
    if Matched(p) {
      GanzhiOrderInverse(p.gan.order, p.zhi.order);
    }
  }

  /** `Ganzhi::animal`: the animal of the year branch; its `unwrap` never fails, the branch being 1..12. */
  function AnimalOf(g: Ganzhi): (a: Animal.Animal)
    ensures a.order == g.yearZhi.order
  {
    Animal.New(g.yearZhi.order).value
  }

  // ----- the sexagenary cycle -----

  /** Counted around the cycle, the n-th pair is (n mod 10, n mod 12): the cycle order of that pair is n mod 60. */
  lemma CycleOrder(n: int)
    requires n >= 1
    ensures GanzhiOrder(OrderMod(n, 10), OrderMod(n, 12)) == OrderMod(n, 60)
  {
    var k := OrderMod(n, 60);
    OrderModOfMultiple(n, 60, 10);
    OrderModOfMultiple(n, 60, 12);
    CycleOrderBelow60(k);
  }

  /** The cycle order of the pair of k, for k in one turn of the cycle, is k. */
  lemma CycleOrderBelow60(k: int)
    requires 1 <= k <= 60
    ensures GanzhiOrder(OrderMod(k, 10), OrderMod(k, 12)) == k
  {
    var g := OrderMod(k, 10);
    var z := OrderMod(k, 12);
    OrderModParity(k, 10);
    OrderModParity(k, 12);
    GanzhiOrderInverse(g, z);
    SameResidues(k, GanzhiOrder(g, z), g, z);
  }

  /** Two numbers of one turn of the cycle with the same residues g modulo 10 and z modulo 12 are equal. */
  lemma SameResidues(k: int, k': int, g: int, z: int)
    requires 1 <= k <= 60 && 1 <= k' <= 60
    requires (k - g) % 10 == 0 && (k' - g) % 10 == 0 && (k - z) % 12 == 0 && (k' - z) % 12 == 0
    ensures k == k'
  {
    DifferenceDivisible(k - g, k' - g, 10);
    DifferenceDivisible(k - z, k' - z, 12);
    var d := k - k';
    assert d % 10 == 0 && d % 12 == 0;
  }

  /** For a stem and a branch of the same parity, `ganzhi_order` in plain arithmetic. */
  lemma GanzhiOrderMatched(ganOrder: int, zhiOrder: int)
    requires 1 <= ganOrder <= 10 && 1 <= zhiOrder <= 12 && ganOrder % 2 == zhiOrder % 2
    ensures (ganOrder + 10 - zhiOrder) % 10 % 2 == 0
    ensures GanzhiOrder(ganOrder, zhiOrder) == (ganOrder + 10 - zhiOrder) % 10 / 2 * 12 + zhiOrder
  {
    var x := ganOrder + 10 - zhiOrder;
    SameParityDifference(ganOrder, zhiOrder);
    EvenTens(x);
    var a := x % 10 / 2 * 12 + zhiOrder;
    OrderModUnique(a, 60, a);
  }

  /** Two numbers of the same parity differ by an even number. */
  lemma SameParityDifference(a: int, b: int)
    requires a % 2 == b % 2
    ensures (a + 10 - b) % 2 == 0
  {
    assert a == a / 2 * 2 + a % 2 && b == b / 2 * 2 + b % 2;
    assert a + 10 - b == (a / 2 - b / 2 + 5) * 2;
  }

  /** The last digit of a non-negative even number is even, and Rust's `%` and `/` agree with Dafny's on it. */
  lemma EvenTens(x: int)
    requires x >= 0 && x % 2 == 0
    ensures x % 10 % 2 == 0 && Rem(x, 10) == x % 10 && Quot(x % 10, 2) == x % 10 / 2
  {
    assert x == x / 10 * 10 + x % 10;
    assert x % 10 == x - x / 10 * 5 * 2;
    EvenShift(x, -(x / 10 * 5));
  }

  /**
   * A stem and a branch of the same parity are the pair of their cycle
   * order: `ganzhi_order` is one-to-one on such pairs, and by `CycleOrder`
   * it reaches every order 1..60.
   */
  lemma GanzhiOrderInverse(ganOrder: int, zhiOrder: int)
    requires 1 <= ganOrder <= 10 && 1 <= zhiOrder <= 12 && ganOrder % 2 == zhiOrder % 2
    ensures OrderMod(GanzhiOrder(ganOrder, zhiOrder), 10) == ganOrder
    ensures OrderMod(GanzhiOrder(ganOrder, zhiOrder), 12) == zhiOrder
  {
    GanzhiOrderMatched(ganOrder, zhiOrder);
    var x := ganOrder + 10 - zhiOrder;
    var j := x % 10 / 2;
    PairResidues(ganOrder, zhiOrder, j, x / 10);
    OrderModUnique(j * 12 + zhiOrder, 10, ganOrder);
    OrderModUnique(j * 12 + zhiOrder, 12, zhiOrder);
  }

  /** The arithmetic behind `GanzhiOrderInverse`: `12 j + z` has residue g modulo 10 when `g + 10 - z = 10 q + 2 j`, and residue z modulo 12. */
  lemma PairResidues(g: int, z: int, j: int, q: int)
    requires g + 10 - z == 10 * q + 2 * j
    ensures (j * 12 + z - g) % 10 == 0 && (j * 12 + z - z) % 12 == 0
  {
    assert j * 12 + z - g == 10 * (j + 1 - q);
    ProductDivisible(10, j + 1 - q);
    ProductDivisible(12, j);
  }

  // ----- the pillars -----

  /** Inputs as the solar-term module and chrono give them: a range from year 4 on, an instant at or after `begin`, non-negative term indices. */
  predicate WellFormed(t: DateTime, s: Solarterms) {
    s.fromYear >= 4 && (IsSupported(t.year, s) ==> t.timestamp >= s.begin)
    && (s.prev.Some? ==> s.prev.value >= 0)
  }

  /** Every stem and branch `new` asks for exists: it fails exactly for an unsupported year or a missing solar term. */
  lemma NewSome(t: DateTime, s: Solarterms)
    requires WellFormed(t, s)
    ensures New(t, s).Some? <==> IsSupported(t.year, s) && s.spring.Some? && s.prev.Some? && s.next.Some?
  {
    if IsSupported(t.year, s) && s.spring.Some? && s.prev.Some? && s.next.Some? {
      assert PillarYear(t, s.spring.value) >= 3;
      assert MonthIndex(s.prev.value, s.next.value) >= 0;
      assert DayOrder(t, s.begin) >= 0;
    }
  }

  /** The year pillar of a year from 4 on is the (year - 3)-th pair of the cycle. */
  lemma YearPillarCycle(year: int)
    requires year >= 4
    ensures YearPillar(year).Some?
    ensures GanzhiOrder(YearPillar(year).value.gan.order, YearPillar(year).value.zhi.order) == OrderMod(year - 3, 60)
  {
    CycleOrder(year - 3);
  }

  /** The day pillar of a day order is the pair of that order in the cycle. */
  lemma DayPillarCycle(dayOrder: int)
    requires 1 <= dayOrder <= 60
    ensures DayPillar(dayOrder).Some?
    ensures GanzhiOrder(DayPillar(dayOrder).value.gan.order, DayPillar(dayOrder).value.zhi.order) == dayOrder
  {
    CycleOrderBelow60(dayOrder);
  }

  /** Hours pair up into two-hour branches, 23:00 to 00:59 being the first; 05:00 is in the fourth. */
  lemma HourBranchPairs(hour: int)
    requires 0 <= hour <= 23
    ensures HourBranch(hour) == if hour == 23 then 1 else (hour + 1) / 2 + 1
  {
  }

  /** Through `new`, the year pillar of the year counted from Start of Spring and the day pillar of the day order are pairs of the cycle with exactly those orders. */
  lemma NewCycleOrders(t: DateTime, s: Solarterms)
    requires New(t, s).Some? && WellFormed(t, s) && PillarYear(t, s.spring.value) >= 4
    ensures YearGanzhiOrder(New(t, s).value) == OrderMod(PillarYear(t, s.spring.value) - 3, 60)
    ensures DayGanzhiOrder(New(t, s).value) == DayOrder(t, s.begin)
  {
    YearPillarCycle(PillarYear(t, s.spring.value));
    DayPillarCycle(DayOrder(t, s.begin));
  }

  /**
   * The month branch advances every two solar terms: with k the term the
   * instant is in (the previous one, or the one it sits on), the branch is
   * the order of `k % 24 / 2 + 2`, so terms 0 and 1 (Minor Cold, Major Cold)
   * give the second branch and terms 2 and 3 (Start of Spring, Rain Water) the third.
   */
  lemma MonthBranchOfTerm(p: int, n: int)
    requires p >= 0
    ensures var k := if n - p == 2 then p + 1 else p;
      OrderMod(MonthIndex(p, n) + 2, 12) == OrderMod(k % 24 / 2 + 2, 12)
  {
    var k := if n - p == 2 then p + 1 else p;
    var x := k % 24 / 2;
    assert MonthIndex(p, n) == OrderMod(x, 12);
    if x == 0 {
      OrderModPeriodic(2, 12);
    } else {
      OrderModUnique(x, 12, x);
    }
  }

  /**
   * The month stem follows the year stem: in the first month (the third
   * branch) of a year with stem g the stem is `2 g + 1`, so years of the
   * first or sixth stem open with the third stem, and a year stem five
   * further gives the same month stems.
   */
  lemma MonthStemOfYearStem(i: int, yearGan: int)
    requires 1 <= i <= 12 && 1 <= yearGan <= 10
    ensures MonthPillar(i, yearGan).Some? && MonthPillar(i, yearGan + 5) == MonthPillar(i, yearGan)
    ensures MonthPillar(1, yearGan).value.zhi.order == 3
    ensures MonthPillar(1, yearGan).value.gan.order == OrderMod(2 * yearGan + 1, 10)
    ensures yearGan == 1 || yearGan == 6 ==> MonthPillar(1, yearGan).value.gan.order == 3
  {
    assert i + (yearGan + 5) * 2 == i + yearGan * 2 + 10;
    OrderModPeriodic(i + yearGan * 2, 10);
  }

  /** The hour stem follows the day stem the same way: a day stem five further gives the same hour pillars. */
  lemma HourStemOfDayStem(hour: int, dayGan: int)
    requires 0 <= hour <= 23 && 1 <= dayGan <= 10
    ensures HourPillar(hour, dayGan).Some? && HourPillar(hour, dayGan + 5) == HourPillar(hour, dayGan)
    ensures HourBranch(hour) == 1 ==> HourPillar(hour, dayGan).value.gan.order == OrderMod(2 * dayGan - 1, 10)
  {
    var z := HourBranch(hour);
    assert z - 2 + (dayGan + 5) * 2 == z - 2 + dayGan * 2 + 10;
    OrderModPeriodic(z - 2 + dayGan * 2, 10);
  }

  /** A day later the day order is one further round the cycle. */
  lemma DayOrderNext(t: DateTime, u: DateTime, begin: int)
    requires t.timestamp >= begin && u.timestamp == t.timestamp + SECONDS_PER_DAY
    ensures DayOrder(u, begin) == DayOrder(t, begin) % 60 + 1
  {
    var q := Quot(t.timestamp - begin, SECONDS_PER_DAY);
    assert Quot(u.timestamp - begin, SECONDS_PER_DAY) == q + 1;
    var r := OrderMod(q + 31, 60);
    assert (q + 31 + 1 - (r % 60 + 1)) % 60 == 0;
    OrderModUnique(q + 32, 60, r % 60 + 1);
  }

  /** `animal` gives the animal of the pillar year's branch, (year - 3) modulo 12. */
  lemma AnimalOfYear(g: Ganzhi, year: int)
    requires YearPillar(year) == Some(Pillar(g.yearGan, g.yearZhi))
    ensures AnimalOf(g).order == OrderMod(year - 3, 12)
  {
  }

  /** The 戌 year 2018 is the Dog's, the 酉 year 2017 the Rooster's. */
  lemma AnimalExamples(g: Ganzhi, year: int)
    requires YearPillar(year) == Some(Pillar(g.yearGan, g.yearZhi))
    ensures year == 2018 ==> Animal.Alias(AnimalOf(g)) == "狗"
    ensures year == 2017 ==> Animal.Alias(AnimalOf(g)) == "鸡"
  {
    AnimalOfYear(g, year);
    if year == 2018 {
      assert OrderMod(2015, 12) == 11;
      assert AnimalOf(g) == Animal.Animal(11);
    } else if year == 2017 {
      assert OrderMod(2014, 12) == 10;
      assert AnimalOf(g) == Animal.Animal(10);
    }
  }

  /** The terms answered for the module's example instants of 2018: Start of Spring at 2018-02-04 05:28:29 UTC. */
  function Terms2018(p: int, n: int): Solarterms {
    Solarterms(1904, 3000, -2082844800, Some(1517722109), Some(p), Some(n))
  }

  /** The pillars of the example instants below. */
  lemma ExamplePillars()
    ensures YearPillar(2017) == Some(Pillar(Gan.Gan(4), Zhi.Zhi(10)))
    ensures YearPillar(2018) == Some(Pillar(Gan.Gan(5), Zhi.Zhi(11)))
    ensures MonthPillar(11, 4) == Some(Pillar(Gan.Gan(9), Zhi.Zhi(1)))
    ensures MonthPillar(12, 4) == Some(Pillar(Gan.Gan(10), Zhi.Zhi(2)))
    ensures MonthPillar(1, 5) == Some(Pillar(Gan.Gan(1), Zhi.Zhi(3)))
    ensures DayPillar(30) == Some(Pillar(Gan.Gan(10), Zhi.Zhi(6)))
    ensures DayPillar(5) == Some(Pillar(Gan.Gan(5), Zhi.Zhi(5)))
    ensures DayPillar(4) == Some(Pillar(Gan.Gan(4), Zhi.Zhi(4)))
    ensures HourPillar(0, 10) == Some(Pillar(Gan.Gan(9), Zhi.Zhi(1)))
    ensures HourPillar(0, 5) == Some(Pillar(Gan.Gan(9), Zhi.Zhi(1)))
    ensures HourPillar(5, 4) == Some(Pillar(Gan.Gan(10), Zhi.Zhi(4)))
  {
  }

  /** The cycle orders of the example pillars below: 丁酉 34, 壬子 49, 癸巳 30; 戊戌 35, 甲寅 51, 戊辰 5. */
  lemma ExampleOrders()
    ensures GanzhiOrder(4, 10) == 34 && GanzhiOrder(9, 1) == 49 && GanzhiOrder(10, 6) == 30
    ensures GanzhiOrder(5, 11) == 35 && GanzhiOrder(1, 3) == 51 && GanzhiOrder(5, 5) == 5
  {
    GanzhiOrderMatched(4, 10);
    GanzhiOrderMatched(9, 1);
    GanzhiOrderMatched(10, 6);
    GanzhiOrderMatched(5, 11);
    GanzhiOrderMatched(1, 3);
    GanzhiOrderMatched(5, 5);
  }

  /** 2018-01-01 00:00 UTC, before Start of Spring, has the pillars 丁酉, 壬子, 癸巳 and 壬子. */
  lemma NewNewYear2018()
    ensures var t := DateTime(1514764800, 2018, 1, 1);
      New(t, Terms2018(2735, 2736)) == Some(Ganzhi(t, Gan.Gan(4), Zhi.Zhi(10), Gan.Gan(9), Zhi.Zhi(1),
        Gan.Gan(10), Zhi.Zhi(6), Gan.Gan(9), Zhi.Zhi(1), 2735, 2736))
  {
    var t := DateTime(1514764800, 2018, 1, 1);
    ExamplePillars();
    assert PillarYear(t, 1517722109) == 2017;
    assert MonthIndex(2735, 2736) == 11;
    assert DayOrder(t, -2082844800) == 30;
    assert Hour(t) == 0;
  }

  /** 2018-02-05 00:00 UTC, after Start of Spring, has the pillars 戊戌, 甲寅, 戊辰 and 壬子. */
  lemma NewAfterSpring2018()
    ensures var t := DateTime(1517788800, 2018, 2, 5);
      New(t, Terms2018(2738, 2739)) == Some(Ganzhi(t, Gan.Gan(5), Zhi.Zhi(11), Gan.Gan(1), Zhi.Zhi(3),
        Gan.Gan(5), Zhi.Zhi(5), Gan.Gan(9), Zhi.Zhi(1), 2738, 2739))
  {
    var t := DateTime(1517788800, 2018, 2, 5);
    ExamplePillars();
    assert PillarYear(t, 1517722109) == 2018;
    assert MonthIndex(2738, 2739) == 1;
    assert DayOrder(t, -2082844800) == 5;
    assert Hour(t) == 0;
  }

  /** One second before Start of Spring 2018 and at it (05:28:29 UTC), the year pillar turns from 丁酉 to 戊戌 and the month pillar from 癸丑 to 甲寅. */
  lemma NewAroundSpring2018()
    ensures var t := DateTime(1517722108, 2018, 2, 4);
      New(t, Terms2018(2737, 2738)) == Some(Ganzhi(t, Gan.Gan(4), Zhi.Zhi(10), Gan.Gan(10), Zhi.Zhi(2),
        Gan.Gan(4), Zhi.Zhi(4), Gan.Gan(10), Zhi.Zhi(4), 2737, 2738))
    ensures var t := DateTime(1517722109, 2018, 2, 4);
      New(t, Terms2018(2737, 2739)) == Some(Ganzhi(t, Gan.Gan(5), Zhi.Zhi(11), Gan.Gan(1), Zhi.Zhi(3),
        Gan.Gan(4), Zhi.Zhi(4), Gan.Gan(10), Zhi.Zhi(4), 2737, 2739))
  {
    var t := DateTime(1517722108, 2018, 2, 4);
    var u := DateTime(1517722109, 2018, 2, 4);
    ExamplePillars();
    assert PillarYear(t, 1517722109) == 2017 && PillarYear(u, 1517722109) == 2018;
    assert MonthIndex(2737, 2738) == 12 && MonthIndex(2737, 2739) == 1;
    assert DayOrder(t, -2082844800) == 4 && DayOrder(u, -2082844800) == 4;
    assert Hour(t) == 5 && Hour(u) == 5;
  }

  /** Years outside the supported range have no pillars. */
  lemma NewUnsupported(t: DateTime, s: Solarterms)
    requires t.year < s.fromYear || t.year >= s.toYear
    ensures New(t, s).None?
  {
  }
}
