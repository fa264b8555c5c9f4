/** The twelve zodiac animals, in the order of the earthly branches (1 = rat). */
module Animal {
  import opened Wrappers

  const ANIMAL_ALIAS: seq<string> := ["鼠", "牛", "虎", "兔", "龙", "蛇", "马", "羊", "猴", "鸡", "狗", "猪"]

  /** The orders an `Animal` can hold; `Animal::new` refuses every other value. */
  type AnimalOrder = o: int | 1 <= o <= 12 witness 1

  datatype Animal = Animal(order: AnimalOrder)

  predicate IsSupported(order: int) {
    1 <= order <= 12
  }

  /** `Animal::new`: `None` for an order outside 1..12, otherwise the animal of that order. */
  function New(order: int): (r: Option<Animal>)
    ensures r.Some? <==> 1 <= order <= 12
    ensures r.Some? ==> r.value.order == order
  {
    if !IsSupported(order) then None else Some(Animal(order))
  }

  /** `alias`: the table entry at `(order - 1) % 12`, which is always inside the table. */
  function Alias(a: Animal): (s: string)
    ensures s in ANIMAL_ALIAS && |s| == 1
  {
    ANIMAL_ALIAS[(a.order - 1) % 12]
  }

  /** The order of the animal named `s`, 0 for a name outside the table. */
  function OrderOfAlias(s: string): int {
    if s == "鼠" then 1 else if s == "牛" then 2 else if s == "虎" then 3 else if s == "兔" then 4
    else if s == "龙" then 5 else if s == "蛇" then 6 else if s == "马" then 7 else if s == "羊" then 8
    else if s == "猴" then 9 else if s == "鸡" then 10 else if s == "狗" then 11 else if s == "猪" then 12
    else 0
  }

  /** The alias names its animal back: reading the order off the alias gives the animal's order. */
  lemma AliasRoundTrip(a: Animal)
    ensures OrderOfAlias(Alias(a)) == a.order
  {
  }

  /** The twelve names are distinct, so the alias identifies the animal. */
  lemma AliasInjective(a: Animal, b: Animal)
    requires Alias(a) == Alias(b)
    ensures a == b
  {
    AliasRoundTrip(a);
    AliasRoundTrip(b);
  }

  lemma AliasExamples()
    ensures Alias(Animal(1)) == "鼠" && Alias(Animal(12)) == "猪"
    ensures New(0).None? && New(13).None? && New(1) == Some(Animal(1)) && New(12) == Some(Animal(12))
  {
  }
}
