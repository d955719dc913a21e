/** Instants as JavaScript `Date` values hold them, the UTC fields the calculator reads from
    them, and the integer arithmetic of JavaScript's `%` operator. */
module Time {

  /** Milliseconds since 1970-01-01T00:00:00Z. */
  type Instant = int

  const MINUTE_MS: int := 60 * 1000
  const HOUR_MS: int := 60 * MINUTE_MS
  const DAY_MS: int := 24 * HOUR_MS

  function Abs(x: int): int {
    if x < 0 then -x else x
  }

  /** JavaScript's `a % b` on integers: the remainder of division truncated toward zero, so it
      takes the sign of the dividend (Dafny's own `%` is Euclidean and never negative). */
  function JsRem(a: int, b: int): (r: int)
    requires b != 0
    ensures -Abs(b) < r < Abs(b)
    ensures a >= 0 ==> r >= 0
    ensures a <= 0 ==> r <= 0
    ensures (a - r) % Abs(b) == 0
  {
    var m := Abs(b);
    if a >= 0 then
      RemSplit(a, m);
      a % m
    else
      NegRemSplit(a, m);
      -((-a) % m)
  }

  /** For a negative dividend, `a + (-a) % m` is a multiple of `m`. */
  lemma NegRemSplit(a: int, m: int)
    requires m > 0 && a < 0
    ensures (a + (-a) % m) % m == 0
  {
    var k := (-a) / m;
    RemSplit(-a, m);
    assert a + (-a) % m == (-k) * m;
    ModAddMultiple(0, -k, m);
  }

  /** `x - x % m` is the multiple `(x / m) * m`, and so itself divisible by `m`. */
  lemma RemSplit(x: int, m: int)
    requires m > 0
    ensures x - x % m == (x / m) * m
    ensures (x - x % m) % m == 0
  {
    ModAddMultiple(0, x / m, m);
  }

  /** `arithmeticMod(a, b) = ((a % b) + b) % b` with JavaScript's `%`. For a positive divisor it is
      the true mathematical modulus; for a negative one it lands in `(b, 0]`. */
  function ArithmeticMod(a: int, b: int): (r: int)
    requires b != 0
    ensures b > 0 ==> r == a % b
    ensures b > 0 ==> 0 <= r < b
    ensures b < 0 ==> b < r <= 0 && (a - r) % Abs(b) == 0
  {
    if b > 0 then
      JsRemEuclid(a, b);
      JsRem(JsRem(a, b) + b, b)
    else
      JsRemNegative(a, b);
      JsRem(JsRem(a, b) + b, b)
  }

  /** For a negative divisor, `((a % b) + b) % b` lies in `(b, 0]` and stays congruent to `a`. */
  lemma JsRemNegative(a: int, b: int)
    requires b < 0
    ensures var r := JsRem(JsRem(a, b) + b, b);
      b < r <= 0 && (a - r) % Abs(b) == 0
  {
    var q := JsRem(a, b);
    var r := JsRem(q + b, b);
    assert q + b < 0;
    assert (a - q) % -b == 0;
    assert (q + b - r) % -b == 0;
    var k1 := (a - q) / -b;
    var k2 := (q + b - r) / -b;
    assert a - q == k1 * -b;
    assert q + b - r == k2 * -b;
    assert a - r == (k1 + k2 + 1) * -b;
    ModAddMultiple(0, k1 + k2 + 1, -b);
  }

  /** For a positive divisor, `((a % b) + b) % b` (truncated remainders) is the Euclidean
      remainder of `a`. */
  lemma JsRemEuclid(a: int, b: int)
    requires b > 0
    ensures JsRem(JsRem(a, b) + b, b) == a % b
  {
    var q := JsRem(a, b);
    assert (a - q) % b == 0;
    assert 0 <= q + b < 2 * b;
    ModOfShift(a, q, b);
  }

  /** If `a - q` is a multiple of `b`, then `q + b` has the same Euclidean remainder as `a`. */
  lemma ModOfShift(a: int, q: int, b: int)
    requires b > 0
    requires (a - q) % b == 0
    requires 0 <= q + b
    ensures (q + b) % b == a % b
  {
    var k := (a - q) / b;
    assert a - q == k * b;
    ModAddMultiple(q + b, k - 1, b);
    assert a == (q + b) + (k - 1) * b;
  }

  /** Adding a multiple of `b` does not change the remainder. */
  lemma ModAddMultiple(x: int, k: int, b: int)
    requires b > 0
    ensures (x + k * b) % b == x % b
  {
    var y := x + k * b;
    assert y == (x / b + k) * b + x % b;
    DivModUnique(y, b, x / b + k, x % b);
  }

  /** Quotient and remainder are unique. */
  lemma DivModUnique(y: int, b: int, q: int, r: int)
    requires b > 0
    requires y == q * b + r
    requires 0 <= r < b
    ensures y / b == q && y % b == r
  {
    var q0, r0 := y / b, y % b;
    assert y == q0 * b + r0;
    if q0 > q {
      assert (q0 - q) * b == r - r0;
      MulAtLeast(q0 - q, b);
    } else if q0 < q {
      assert (q - q0) * b == r0 - r;
      MulAtLeast(q - q0, b);
    }
  }

  lemma MulAtLeast(k: int, b: int)
    requires k >= 1 && b > 0
    ensures k * b >= b
  {
  }

  /** `getUTCMinutes()`. */
  function UtcMinutes(t: Instant): (m: int)
    ensures 0 <= m < 60
    ensures t == (t / HOUR_MS) * HOUR_MS + m * MINUTE_MS + t % MINUTE_MS
  {
    DivDiv(t, MINUTE_MS, 60);
    (t / MINUTE_MS) % 60
  }

  /** `getUTCHours()`. */
  function UtcHours(t: Instant): (h: int)
    ensures 0 <= h < 24
    ensures t / HOUR_MS == 24 * EpochDay(t) + h
    ensures h * HOUR_MS <= t % DAY_MS < (h + 1) * HOUR_MS
  {
    HourOfDayWindow(t);
    (t / HOUR_MS) % 24
  }

  /** The hour number `(x / 1h) % 24` names the hour-long window of the day that `x` falls in. */
  lemma HourOfDayWindow(x: int)
    ensures x / HOUR_MS == 24 * (x / DAY_MS) + (x / HOUR_MS) % 24
    ensures ((x / HOUR_MS) % 24) * HOUR_MS <= x % DAY_MS < ((x / HOUR_MS) % 24 + 1) * HOUR_MS
  {
    var h := (x / HOUR_MS) % 24;
    DivDiv(x, HOUR_MS, 24);
    assert x / HOUR_MS == 24 * (x / DAY_MS) + h;
    assert x == (x / DAY_MS) * DAY_MS + (h * HOUR_MS + x % HOUR_MS);
    DivModUnique(x, DAY_MS, x / DAY_MS, h * HOUR_MS + x % HOUR_MS);
  }

  /** The number of the UTC calendar day `t` falls on, counted from 1970-01-01. Two instants less
      than a day apart fall on the same day-of-month (`getUTCDate()`) exactly when they have the
      same day number, which is all the calculator needs of `getUTCDate()`. */
  function EpochDay(t: Instant): int {
    t / DAY_MS
  }

  /** Floor division by a positive divisor splits in two steps: `x / (a * b) == (x / a) / b`. */
  lemma DivDiv(x: int, a: int, b: int)
    requires a > 0 && b > 0
    ensures x / (a * b) == (x / a) / b
  {
    var q := (x / a) / b;
    var r := (x / a) % b * a + x % a;
    assert x == (x / a) * a + x % a;
    assert x / a == q * b + (x / a) % b;
    assert x == q * (a * b) + r by {
      calc {
        x;
        (x / a) * a + x % a;
        (q * b + (x / a) % b) * a + x % a;
        q * (a * b) + ((x / a) % b * a + x % a);
      }
    }
    assert 0 <= r < a * b by {
      assert (x / a) % b <= b - 1;
      MulMono((x / a) % b, b - 1, a);
      assert (b - 1) * a + a == a * b;
    }
    DivModUnique(x, a * b, q, r);
  }

  lemma MulMono(x: int, y: int, a: int)
    requires 0 <= x <= y && a > 0
    ensures 0 <= x * a <= y * a
  {
  }
}
