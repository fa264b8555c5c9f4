/** The twelve earthly branches: a cyclic unit whose order runs 1..12. */
module Zhi {
  import opened Wrappers

  const ZHI_ALIAS: seq<string> := ["子", "丑", "寅", "卯", "辰", "巳", "午", "未", "申", "酉", "戌", "亥"]

  /** The orders a `Zhi` can hold; `Zhi::new` refuses every other value. */
  type ZhiOrder = o: int | 1 <= o <= 12 witness 1

  datatype Zhi = Zhi(order: ZhiOrder)

  predicate IsSupported(order: int) {
    1 <= order <= 12
  }

  /** `Zhi::new`: `None` for an order outside 1..12, otherwise a branch that reports that order back. */
  function New(order: int): (r: Option<Zhi>)
    ensures r.Some? <==> 1 <= order <= 12
    ensures r.Some? ==> r.value.order == order
  {
    if !IsSupported(order) then None else Some(Zhi(order))
  }

  /** `alias`: the table entry at `(order - 1) % 12`, which is always inside the table. */
  function Alias(z: Zhi): (s: string)
    ensures s in ZHI_ALIAS && |s| == 1
  {
    ZHI_ALIAS[(z.order - 1) % 12]
  }

  /** The order of the branch named `s`, 0 for a name outside the table. */
  function OrderOfAlias(s: string): int {
    if s == "子" then 1 else if s == "丑" then 2 else if s == "寅" then 3 else if s == "卯" then 4
    else if s == "辰" then 5 else if s == "巳" then 6 else if s == "午" then 7 else if s == "未" then 8
    else if s == "申" then 9 else if s == "酉" then 10 else if s == "戌" then 11 else if s == "亥" then 12
    else 0
  }

  /** The alias names its branch back: reading the order off the alias gives the branch's order. */
  lemma AliasRoundTrip(z: Zhi)
    ensures OrderOfAlias(Alias(z)) == z.order
  {
  }

  /** Distinct branches have distinct aliases, so the alias identifies the branch. */
  lemma AliasInjective(z: Zhi, w: Zhi)
    requires Alias(z) == Alias(w)
    ensures z == w
  {
    AliasRoundTrip(z);
    AliasRoundTrip(w);
  }

  lemma AliasExamples()
    ensures Alias(Zhi(1)) == "子" && Alias(Zhi(12)) == "亥"
    ensures New(0).None? && New(13).None? && New(1) == Some(Zhi(1)) && New(12) == Some(Zhi(12)) && New(8) == Some(Zhi(8))
  {
  }
}
