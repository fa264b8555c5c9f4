/**
 * Rust's `&` and `>>` on non-negative integers, bit by bit, and what they
 * compute in arithmetic terms.
 */
module Bits {
  import Utils

  /** `a & b`: the lowest bit is set when it is set in both, the rest is the `&` of the halves. */
  function BitAnd(a: nat, b: nat): nat
    decreases a
  {
    if a == 0 || b == 0 then 0
    else 2 * BitAnd(a / 2, b / 2) + (if a % 2 == 1 && b % 2 == 1 then 1 else 0)
  }

  /** `a >> n`: n halvings, each dropping the lowest bit. */
  function ShiftRight(a: nat, n: nat): nat
    decreases n
  {
    if n == 0 then a else ShiftRight(a / 2, n - 1)
  }

  /** Shifting by n + 1 is shifting by n, then by one more: `mask >>= 1` moves from `x >> n` to `x >> (n + 1)`. */
  lemma {:induction false} ShiftRightStep(a: nat, n: nat)
    ensures ShiftRight(a, n + 1) == ShiftRight(a, n) / 2
    decreases n
  {
    if n > 0 {
      ShiftRightStep(a / 2, n - 1);
    }
  }

  /** Masking with an odd number keeps the lowest bit and masks the rest with the halved mask. */
  lemma OddMask(a: nat, m: nat)
    ensures BitAnd(a, 2 * m + 1) == 2 * BitAnd(a / 2, m) + a % 2
  {
    var b := 2 * m + 1;
    assert b / 2 == m && b % 2 == 1;
    if a == 0 {
      assert BitAnd(a / 2, m) == 0;
    } else {
      assert BitAnd(a, b) == 2 * BitAnd(a / 2, b / 2) + (if a % 2 == 1 then 1 else 0);
    }
  }

  /** Halving a, keeping n of its bits and putting the lowest bit back keeps n + 1 bits of a. */
  lemma LowBitsStep(a: nat, n: nat, low: nat)
    requires 0 < n && low == (a / 2) % n
    ensures 2 * low + a % 2 == a % (2 * n)
  {
    var h := a / 2;
    var q := h / n;
    assert h == n * q + low;
    assert a == 2 * h + a % 2;
    assert a == (2 * n) * q + (2 * low + a % 2);
    ModOfDecomposition(a, 2 * n, q, 2 * low + a % 2);
  }

  /** A quotient and a remainder in 0..m-1 that recompose a are Euclid's. */
  lemma ModOfDecomposition(a: int, m: int, q: int, r: int)
    requires 0 < m && a == m * q + r && 0 <= r < m
    ensures a % m == r
  {
    var q' := a / m;
    assert a == m * q' + a % m;
    assert m * (q - q') == a % m - r;
    Utils.ProductMagnitude(m, q - q');
  }

  /** Masking with 1, 3, 7, 15 keeps the lowest one, two, three, four bits. */
  lemma LowBits1(a: nat)
    ensures BitAnd(a, 1) == a % 2
  {
    OddMask(a, 0);
    assert BitAnd(a / 2, 0) == 0;
  }

  lemma LowBits2(a: nat)
    ensures BitAnd(a, 3) == a % 4
  {
    OddMask(a, 1);
    LowBits1(a / 2);
    LowBitsStep(a, 2, (a / 2) % 2);
  }

  lemma LowBits3(a: nat)
    ensures BitAnd(a, 7) == a % 8
  {
    OddMask(a, 3);
    LowBits2(a / 2);
    LowBitsStep(a, 4, (a / 2) % 4);
  }

  lemma LowBits4(a: nat)
    ensures BitAnd(a, 15) == a % 16
  {
    OddMask(a, 7);
    LowBits3(a / 2);
    LowBitsStep(a, 8, (a / 2) % 8);
  }
}
