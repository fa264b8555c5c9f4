/**
 * The order of the months inside one lunar year, stated without the table: a
 * year is a run of 12 or 13 "slots", regular months 1..L, then the leap month
 * L when L > 0, then regular months L+1..12. `leap` is the year's leap month
 * L (0 for none).
 */
module LunarSlots {

  /** 13 slots when the year has a leap month, 12 otherwise. */
  function SlotCount(leap: int): (n: int)
    ensures n == 12 || n == 13
    ensures n == 13 <==> leap != 0
  {
    if leap == 0 then 12 else 13
  }

  /** The month number shown for slot k; the leap slot repeats the number of the month before it. */
  function SlotMonth(leap: int, k: int): (r: int)
    requires 0 <= leap <= 12 && 0 <= k < SlotCount(leap)
    ensures 1 <= r <= 12
  {
    if leap == 0 || k < leap then k + 1
    else if k == leap then leap
    else k
  }

  /** Slot k holds the leap month. */
  predicate SlotLeap(leap: int, k: int) {
    leap > 0 && k == leap
  }

  /** How many regular months come before slot k. */
  function RegularBefore(leap: int, k: int): (n: int)
    requires 0 <= leap <= 12 && 0 <= k <= SlotCount(leap)
    ensures 0 <= n <= 12
  {
    if leap == 0 || k <= leap then k else k - 1
  }

  /** The slot of month `month`, the leap one when `isLeap`. */
  function SlotIndex(leap: int, month: int, isLeap: bool): (k: int)
    requires 0 <= leap <= 12 && 1 <= month <= 12 && (isLeap ==> month == leap)
    ensures 0 <= k < SlotCount(leap)
    ensures SlotMonth(leap, k) == month && SlotLeap(leap, k) == isLeap
  {
    if isLeap then month
    else if leap == 0 || month <= leap then month - 1
    else month
  }

  /** A slot's month and leap flag name that slot and no other. */
  lemma SlotIndexOfSlot(leap: int, k: int)
    requires 0 <= leap <= 12 && 0 <= k < SlotCount(leap)
    ensures SlotLeap(leap, k) ==> SlotMonth(leap, k) == leap
    ensures SlotIndex(leap, SlotMonth(leap, k), SlotLeap(leap, k)) == k
  {
  }

  /** Every slot of a year is a month of 29 or 30 days. */
  predicate MonthLengths(lengths: seq<int>) {
    forall i :: 0 <= i < |lengths| ==> 29 <= lengths[i] <= 30
  }

  /** The day of the year (counting from 0) on which slot k starts: slots 0..k-1 come before it. */
  function Start(lengths: seq<int>, k: int): (r: int)
    requires MonthLengths(lengths) && 0 <= k <= |lengths|
    ensures 29 * k <= r <= 30 * k
  {
    if k == 0 then 0 else Start(lengths, k - 1) + lengths[k - 1]
  }

  /** Later slots start later, by at least 29 days a slot. */
  lemma {:induction false} StartGrows(lengths: seq<int>, j: int, k: int)
    requires MonthLengths(lengths) && 0 <= j <= k <= |lengths|
    ensures Start(lengths, j) + 29 * (k - j) <= Start(lengths, k)
    decreases k - j
  {
    if j < k {
      StartGrows(lengths, j, k - 1);
    }
  }

  /** Slot starts are ordered like the slots. */
  lemma StartOrder(lengths: seq<int>, a: int, b: int)
    requires MonthLengths(lengths) && 0 <= a <= |lengths| && 0 <= b <= |lengths|
    requires Start(lengths, a) < Start(lengths, b)
    ensures a < b
  {
    if b <= a {
      StartGrows(lengths, b, a);
    }
  }

  /** The slot, from k on, that holds day r of the year. */
  function SlotOf(lengths: seq<int>, r: int, k: int): (s: int)
    requires MonthLengths(lengths) && 0 <= k < |lengths|
    requires Start(lengths, k) <= r < Start(lengths, |lengths|)
    ensures k <= s < |lengths| && Start(lengths, s) <= r < Start(lengths, s + 1)
    decreases |lengths| - k
  {
    if r < Start(lengths, k + 1) then k else SlotOf(lengths, r, k + 1)
  }

  /** A day lies in one slot only. */
  lemma SlotOfUnique(lengths: seq<int>, r: int, j: int, k: int)
    requires MonthLengths(lengths) && 0 <= j < |lengths| && 0 <= k < |lengths|
    requires Start(lengths, j) <= r < Start(lengths, j + 1)
    requires Start(lengths, k) <= r < Start(lengths, k + 1)
    ensures j == k
  {
    if j < k {
      StartGrows(lengths, j + 1, k);
    } else if k < j {
      StartGrows(lengths, k + 1, j);
    }
  }
}
