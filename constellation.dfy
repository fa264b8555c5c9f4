/**
 * `constellation.rs`: the western zodiac sign of a Gregorian (month, day),
 * under its Chinese name. Each month has a cutoff day; days up to the cutoff
 * belong to one sign and later days to the next.
 */
module Constellation {
  import opened Wrappers
  import opened Clock

  /** `struct Constellation`: it only keeps the instant. */
  datatype Constellation = Constellation(t: DateTime)

  /** `Constellation::new`. */
  function New(t: DateTime): Constellation {
    Constellation(t)
  }

  /**
   * `alias` on (month, day): the arms of the source's `match` in their order,
   * the first whose guard holds giving the sign; a month outside 1..12
   * matches none.
   */
  function Alias(month: int, day: int): (r: Option<string>)
    ensures r.Some? <==> 1 <= month <= 12
    ensures r.Some? ==> r.value in SIGNS
  {
    if month == 1 && day >= 20 then Some("水瓶")
    else if month == 2 && day <= 18 then Some("水瓶")
    else if month == 2 && day >= 19 then Some("双鱼")
    else if month == 3 && day <= 20 then Some("双鱼")
    else if month == 3 && day >= 21 then Some("白羊")
    else if month == 4 && day <= 19 then Some("白羊")
    else if month == 4 && day >= 20 then Some("金牛")
    else if month == 5 && day <= 20 then Some("金牛")
    else if month == 5 && day >= 21 then Some("双子")
    else if month == 6 && day <= 21 then Some("双子")
    else if month == 6 && day >= 22 then Some("巨蟹")
    else if month == 7 && day <= 22 then Some("巨蟹")
    else if month == 7 && day >= 23 then Some("狮子")
    else if month == 8 && day <= 22 then Some("狮子")
    else if month == 8 && day >= 23 then Some("处女")
    else if month == 9 && day <= 22 then Some("处女")
    else if month == 9 && day >= 23 then Some("天秤")
    else if month == 10 && day <= 23 then Some("天秤")
    else if month == 10 && day >= 24 then Some("天蝎")
    else if month == 11 && day <= 22 then Some("天蝎")
    else if month == 11 && day >= 23 then Some("射手")
    else if month == 12 && day <= 21 then Some("射手")
    else if month == 12 && day >= 22 then Some("摩羯")
    else if month == 1 && day <= 19 then Some("摩羯")
    else None
  }

  /** `Constellation::alias`: the sign of the instant's month and day. */
  function AliasOf(c: Constellation): Option<string> {
    Alias(c.t.month, c.t.day)
  }

  // ----- the same rule as a table -----

  /** The sign that month m starts in is SIGNS[m - 1]; it ends in SIGNS[m % 12]. */
  const SIGNS: seq<string> := ["摩羯", "水瓶", "双鱼", "白羊", "金牛", "双子", "巨蟹", "狮子", "处女", "天秤", "天蝎", "射手"]

  /** The last day of month m that still belongs to the sign the month starts in. */
  const CUTOFFS: seq<int> := [19, 18, 20, 19, 20, 21, 22, 22, 22, 23, 22, 21]

  /** The sign of (month, day) read off the two tables. */
  function TableSign(month: int, day: int): string
    requires 1 <= month <= 12
  {
    if day <= CUTOFFS[month - 1] then SIGNS[month - 1] else SIGNS[month % 12]
  }

  /** The guard chain and the tables agree on every month and every day. */
  lemma AliasIsTable(month: int, day: int)
    requires 1 <= month <= 12
    ensures Alias(month, day) == Some(TableSign(month, day))
  {
  }

  /** Within a month the sign changes once, after the cutoff day, and into another sign. */
  lemma OneChangePerMonth(month: int, day: int)
    requires 1 <= month <= 12
    ensures day <= CUTOFFS[month - 1] ==> Alias(month, day) == Alias(month, 1)
    ensures day > CUTOFFS[month - 1] ==> Alias(month, day) == Alias(month, 31)
    ensures Alias(month, 1) != Alias(month, 31)
  {
    AliasIsTable(month, day);
    AliasIsTable(month, 1);
    AliasIsTable(month, 31);
  }

  /** The sign a month ends in is the one the next month starts in, December leading into January. */
  lemma SignCarriesOver(month: int)
    requires 1 <= month <= 12
    ensures Alias(month, 31) == Alias(month % 12 + 1, 1)
  {
    AliasIsTable(month, 31);
    AliasIsTable(month % 12 + 1, 1);
  }

  /** The first day of each month, January to December. */
  lemma FirstDays()
    ensures Alias(1, 1) == Some("摩羯") && Alias(2, 1) == Some("水瓶") && Alias(3, 1) == Some("双鱼")
    ensures Alias(4, 1) == Some("白羊") && Alias(5, 1) == Some("金牛") && Alias(6, 1) == Some("双子")
    ensures Alias(7, 1) == Some("巨蟹") && Alias(8, 1) == Some("狮子") && Alias(9, 1) == Some("处女")
    ensures Alias(10, 1) == Some("天秤") && Alias(11, 1) == Some("天蝎") && Alias(12, 1) == Some("射手")
    ensures Alias(3, 20) == Some("双鱼") && Alias(3, 21) == Some("白羊")
  {
  }
}
