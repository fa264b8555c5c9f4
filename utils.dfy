/**
 * The integer helpers of the calendar: Rust's truncating `/` and `%` on i64,
 * and `order_mod`, the "never zero" modulus every cyclic order goes through.
 */
module Utils {

  function Abs(x: int): (r: nat)
    ensures r == x || r == -x
  {
    if x < 0 then -x else x
  }

  /** Rust's `a / b`: the quotient rounded toward zero (Dafny's `/` is Euclidean). */
  function Quot(a: int, b: int): int
    requires b != 0
  {
    if a >= 0 then a / b else -((-a) / b)
  }

  /**
   * Rust's `a % b`: the remainder of the truncating division, which takes the
   * sign of the dividend `a` (Dafny's `%` is never negative).
   */
  function Rem(a: int, b: int): (r: int)
    requires b != 0
    ensures 0 <= a ==> 0 <= r < Abs(b)
    ensures a < 0 ==> -(Abs(b) as int) < r <= 0
    ensures (a - r) % Abs(b) == 0
  {
    var m := Abs(b);
    RemainderDivides(Abs(a), m);
    if a >= 0 then
      a % m
    else
      NegationDivisible(-a - (-a) % m, m);
      -((-a) % m)
  }

  /** Rust's `a / b` and `a % b` fit together as Rust's documentation promises. */
  lemma QuotRem(a: int, b: int)
    requires b != 0
    ensures a == b * Quot(a, b) + Rem(a, b)
  {
  }

  /**
   * `order_mod(a, b)`: `a % b` with Rust's remainder, except that a zero
   * remainder is reported as `b`, so that cyclic orders run 1..b.
   */
  function OrderMod(a: int, b: int): (r: int)
    requires b != 0
    ensures (a - r) % Abs(b) == 0
    ensures (r == b) == (a % Abs(b) == 0)
    ensures r != b ==> r == Rem(a, b)
    ensures r != 0
    ensures 0 <= a && 0 < b ==> 1 <= r <= b
  {
    var result := Rem(a, b);
    RemZeroExactlyWhenDivisible(a, b);
    if result == 0 then
      MultipleOfAbs(b);
      DifferenceDivisible(a, b, Abs(b));
      b
    else
      result
  }

  /** A negative dividend that `b` does not divide gives a negative order, outside 1..b. */
  lemma OrderModNegative(a: int, b: int)
    requires a < 0 && 0 < b && a % b != 0
    ensures OrderMod(a, b) < 0
  {
  }

  /** For a non-negative dividend the order is THE representative of `a` modulo `b` in 1..b. */
  lemma OrderModUnique(a: int, b: int, x: int)
    requires 0 <= a && 0 < b
    requires 1 <= x <= b && (a - x) % b == 0
    ensures OrderMod(a, b) == x
  {
    var r := OrderMod(a, b);
    DifferenceDivisible(a - r, a - x, b);
    assert (a - r) - (a - x) == x - r;
    SmallMultipleIsZero(x - r, b);
  }

  lemma OrderModIdempotent(a: int, b: int)
    requires 0 <= a && 0 < b
    ensures OrderMod(OrderMod(a, b), b) == OrderMod(a, b)
  {
    OrderModUnique(OrderMod(a, b), b, OrderMod(a, b));
  }

  lemma OrderModPeriodic(a: int, b: int)
    requires 0 <= a && 0 < b
    ensures OrderMod(a + b, b) == OrderMod(a, b)
  {
    var r := OrderMod(a, b);
    assert Abs(b) == b && (a - r) % b == 0;
    ProductDivisible(b, -1);
    assert b * -1 == -b;
    DifferenceDivisible(a - r, -b, b);
    assert a - r - (-b) == a + b - r;
    OrderModUnique(a + b, b, r);
  }

  /** Reducing by a multiple of `c` first does not change the order modulo `c`. */
  lemma OrderModOfMultiple(a: int, b: int, c: int)
    requires 0 <= a && 0 < c && 0 < b && b % c == 0
    ensures OrderMod(OrderMod(a, b), c) == OrderMod(a, c)
  {
    var r := OrderMod(a, b);
    var s := OrderMod(r, c);
    DivisibleByFactor(a - r, b, c);
    assert (r - s) % c == 0;
    DifferenceDivisible(a - s - (r - s), -(r - s), c) by {
      NegationDivisible(r - s, c);
    }
    assert a - s - (r - s) - (-(r - s)) == a - s;
    OrderModUnique(a, c, s);
  }

  /** With an even modulus the order keeps the parity of the dividend, for every sign. */
  lemma OrderModParity(a: int, b: int)
    requires b != 0 && b % 2 == 0
    ensures OrderMod(a, b) % 2 == a % 2
  {
    var r := OrderMod(a, b);
    var m := Abs(b);
    assert m % 2 == 0 by {
      if b < 0 {
        NegationDivisible(b, 2);
      }
    }
    DivisibleByFactor(a - r, m, 2);
    SameParity(a, r);
  }

  // ----- divisibility facts the lemmas above rest on -----

  lemma RemZeroExactlyWhenDivisible(a: int, b: int)
    requires b != 0
    ensures (Rem(a, b) == 0) == (a % Abs(b) == 0)
  {
    var m := Abs(b);
    if a < 0 {
      if a % m == 0 {
        NegationDivisible(a, m);
      } else if (-a) % m == 0 {
        NegationDivisible(-a, m);
      }
    }
  }

  lemma ProductDivisible(m: int, k: int)
    requires 0 < m
    ensures (m * k) % m == 0
  {
    var q := (m * k) / m;
    var r := (m * k) % m;
    assert m * k == m * q + r;
    assert m * (k - q) == r;
    ProductMagnitude(m, k - q);
  }

  lemma ProductMagnitude(m: int, d: int)
    requires 0 < m
    ensures d >= 1 ==> m * d >= m
    ensures d <= -1 ==> m * d <= -m
  {
  }

  lemma RemainderDivides(a: int, m: int)
    requires 0 < m
    ensures (a - a % m) % m == 0
  {
    assert a - a % m == m * (a / m);
    ProductDivisible(m, a / m);
  }

  lemma NegationDivisible(x: int, m: int)
    requires 0 < m && x % m == 0
    ensures (-x) % m == 0
  {
    assert x == m * (x / m);
    assert -x == m * (-(x / m));
    ProductDivisible(m, -(x / m));
  }

  lemma MultipleOfAbs(b: int)
    requires b != 0
    ensures b % Abs(b) == 0
  {
    if b < 0 {
      assert b == Abs(b) * -1;
      ProductDivisible(Abs(b), -1);
    }
  }

  lemma DifferenceDivisible(u: int, v: int, m: int)
    requires 0 < m && u % m == 0 && v % m == 0
    ensures (u - v) % m == 0
  {
    assert u == m * (u / m) && v == m * (v / m);
    assert u - v == m * (u / m - v / m);
    ProductDivisible(m, u / m - v / m);
  }

  lemma SmallMultipleIsZero(d: int, m: int)
    requires 0 < m && -m < d < m && d % m == 0
    ensures d == 0
  {
    assert d == m * (d / m);
    ProductMagnitude(m, d / m);
  }

  lemma SameParity(x: int, y: int)
    requires (x - y) % 2 == 0
    ensures x % 2 == y % 2
  {
    assert x - y == 2 * ((x - y) / 2);
    assert x == 2 * (x / 2) + x % 2 && y == 2 * (y / 2) + y % 2;
  }

  lemma DivisibleByFactor(x: int, b: int, c: int)
    requires 0 < c && 0 < b && b % c == 0 && x % b == 0
    ensures x % c == 0
  {
    assert x == b * (x / b);
    assert b == c * (b / c);
    assert x == c * ((b / c) * (x / b));
    ProductDivisible(c, (b / c) * (x / b));
  }
}
