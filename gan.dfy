/** The ten heavenly stems: a cyclic unit whose order runs 1..10. */
module Gan {
  import opened Wrappers

  const GAN_ALIAS: seq<string> := ["甲", "乙", "丙", "丁", "戊", "己", "庚", "辛", "壬", "癸"]

  /** The orders a `Gan` can hold; `Gan::new` refuses every other value. */
  type GanOrder = o: int | 1 <= o <= 10 witness 1

  datatype Gan = Gan(order: GanOrder)

  predicate IsSupported(order: int) {
    1 <= order <= 10
  }

  /** `Gan::new`: `None` for an order outside 1..10, otherwise a stem that reports that order back. */
  function New(order: int): (r: Option<Gan>)
    ensures r.Some? <==> 1 <= order <= 10
    ensures r.Some? ==> r.value.order == order
  {
    if !IsSupported(order) then None else Some(Gan(order))
  }

  /** `alias`: the table entry at `(order - 1) % 10`, which is always inside the table. */
  function Alias(g: Gan): (s: string)
    ensures s in GAN_ALIAS && |s| == 1
  {
    GAN_ALIAS[(g.order - 1) % 10]
  }

  /** The order of the stem named `s`, 0 for a name outside the table. */
  function OrderOfAlias(s: string): int {
    if s == "甲" then 1 else if s == "乙" then 2 else if s == "丙" then 3 else if s == "丁" then 4
    else if s == "戊" then 5 else if s == "己" then 6 else if s == "庚" then 7 else if s == "辛" then 8
    else if s == "壬" then 9 else if s == "癸" then 10
    else 0
  }

  /** The alias names its stem back: reading the order off the alias gives the stem's order. */
  lemma AliasRoundTrip(g: Gan)
    ensures OrderOfAlias(Alias(g)) == g.order
  {
  }

  /** Distinct stems have distinct aliases, so the alias identifies the stem. */
  lemma AliasInjective(g: Gan, h: Gan)
    requires Alias(g) == Alias(h)
    ensures g == h
  {
    AliasRoundTrip(g);
    AliasRoundTrip(h);
  }

  lemma AliasExamples()
    ensures Alias(Gan(1)) == "甲" && Alias(Gan(10)) == "癸"
    ensures New(0).None? && New(11).None? && New(1) == Some(Gan(1)) && New(10) == Some(Gan(10))
  {
  }
}
