/** The execution grid of a portfolio replay: the coarsest grid that holds the source tick and the slippage,
    and the bar prices rescaled to it. */
module ExecutionGrid {

  import opened Bytes

  const GRID_MAX: int := 0x100_0000_0000
  const SLIP_MAX: int := 1000000

  // ---- Greatest common divisors

  function Gcd(a: nat, b: nat): (g: nat)
    ensures g > 0 || (a == 0 && b == 0)
    decreases b
  {
    if b == 0 then a else Gcd(b, a % b)
  }

  /** The gcd is a combination of the two numbers, and each of them is a multiple of it. */
  lemma {:induction false} Bezout(a: nat, b: nat) returns (u: int, v: int, x: int, y: int)
    ensures Gcd(a, b) == u * a + v * b
    ensures a == x * Gcd(a, b) && b == y * Gcd(a, b)
    decreases b
  {
    if b == 0 {
      u, v, x, y := 1, 0, 1, 0;
    } else {
      var s, t, p, q := Bezout(b, a % b);
      var k := a / b;
      u, v := t, s - t * k;
      x, y := p * k + q, p;
      BezoutStep(a, b, k, a % b, Gcd(b, a % b), s, t, p, q);
    }
  }

  lemma BezoutStep(a: int, b: int, k: int, r: int, g: int, s: int, t: int, p: int, q: int)
    requires a == k * b + r && g == s * b + t * r && b == p * g && r == q * g
    ensures g == t * a + (s - t * k) * b && a == (p * k + q) * g
  {
    assert t * a == t * (k * b) + t * r;
    assert (s - t * k) * b == s * b - t * (k * b);
    assert (p * k + q) * g == k * (p * g) + q * g;
  }

  lemma MulAtLeast(a: int, d: nat)
    requires a >= 1
    ensures a * d >= d
  {
    assert a * d == (a - 1) * d + d;
  }

  lemma ExactQuotient(n: nat, k: int, d: nat)
    requires d > 0 && n == k * d
    ensures n / d == k
  {
    var q := n / d;
    assert n == q * d + n % d;
    assert (k - q) * d == n % d;
    NoSmallMultiple(k - q, d, n % d);
  }

  lemma NoSmallMultiple(a: int, d: nat, r: nat)
    requires a * d == r < d
    ensures a == 0
  {
    assert (-a) * d == -(a * d);
    if a >= 1 {
      MulAtLeast(a, d);
    } else if a <= -1 {
      MulAtLeast(-a, d);
    }
  }

  // ---- Decimals

  function Pow10(n: nat): (p: nat)
    ensures p > 0
  {
    if n == 0 then 1 else 10 * Pow10(n - 1)
  }

  lemma {:induction false} PowAdds(m: nat, n: nat)
    ensures Pow10(m + n) == Pow10(m) * Pow10(n)
  {
    if m > 0 {
      PowAdds(m - 1, n);
    }
  }

  datatype Decimal = Decimal(coefficient: int, exponent: int)

  /** The exact value. */
  function Value(d: Decimal): real {
    if d.exponent >= 0 then (d.coefficient * Pow10(d.exponent)) as real
    else d.coefficient as real / Pow10(-d.exponent) as real
  }

  function Places(tick: Decimal, slip: Decimal): nat {
    var a, b := if -tick.exponent > 0 then -tick.exponent else 0, if -slip.exponent > 0 then -slip.exponent else 0;
    if a >= b then a else b
  }

  /** The whole number of units of the finest decimal place in use. */
  function Units(d: Decimal, places: nat): int
    requires d.exponent + places >= 0
  {
    d.coefficient * Pow10(d.exponent + places)
  }

  lemma UnitsKeepSign(d: Decimal, places: nat)
    requires d.exponent + places >= 0 && d.coefficient >= 0
    ensures Units(d, places) >= d.coefficient
  {
    var p := Pow10(d.exponent + places);
    assert d.coefficient * p == d.coefficient * (p - 1) + d.coefficient;
  }

  lemma ProductAsReal(a: int, b: int)
    ensures (a * b) as real == a as real * b as real
  {
  }

  lemma UnitsAreExact(d: Decimal, places: nat)
    requires d.exponent + places >= 0
    ensures Units(d, places) as real == Value(d) * Pow10(places) as real
  {
    hide Pow10;
    if d.exponent >= 0 {
      var p, q := Pow10(d.exponent), Pow10(places);
      PowAdds(d.exponent, places);
      WholeUnits(d.coefficient, p, q);
    } else {
      var m, n := -d.exponent, d.exponent + places;
      var p, q := Pow10(m), Pow10(n);
      PowAdds(m, n);
      assert m + n == places;
      ScaledFraction(d.coefficient, p, q);
    }
  }

  lemma WholeUnits(c: int, p: nat, q: nat)
    ensures (c * (p * q)) as real == (c * p) as real * q as real
  {
    assert c * (p * q) == (c * p) * q;
    ProductAsReal(c * p, q);
  }

  lemma ScaledFraction(c: int, p: nat, q: nat)
    requires p > 0
    ensures (c * q) as real == c as real / p as real * (p * q) as real
  {
    ProductAsReal(c, q);
    ProductAsReal(p, q);
    Cancel(c as real, p as real, q as real);
  }

  lemma Cancel(c: real, p: real, q: real)
    requires p > 0.0
    ensures c * q == c / p * (p * q)
  {
    var x := c / p;
    assert x * p == c;
    assert x * (p * q) == (x * p) * q;
  }

  // ---- The grid

  datatype Grid = Grid(size: real, factor: int, slipTicks: int)

  /** A whole multiple of a grid size. */
  ghost predicate Multiple(x: real, n: int, g: real) {
    x == n as real * g
  }

  ghost predicate Holds(g: real, x: real) {
    exists n: int :: Multiple(x, n, g)
  }

  /** Both values are whole multiples of the grid, and every grid that holds both values holds it too. */
  ghost predicate CoarsestGrid(tick: real, slip: real, grid: Grid) {
    && grid.size > 0.0
    && Multiple(tick, grid.factor, grid.size) && Multiple(slip, grid.slipTicks, grid.size)
    && forall g: real :: Holds(g, tick) && Holds(g, slip) ==> Holds(g, grid.size)
  }

  /** A number of units that is n times the divisor is n times the grid. */
  lemma GridMultiple(units: int, n: int, divisor: nat, scale: nat, x: real)
    requires scale > 0 && units == n * divisor && units as real == x * scale as real
    ensures Multiple(x, n, divisor as real / scale as real)
  {
    ProductAsReal(n, divisor);
    MultipleOfQuotient(x, n as real, divisor as real, scale as real);
  }

  lemma MultipleOfQuotient(x: real, n: real, d: real, z: real)
    requires z > 0.0 && n * d == x * z
    ensures x == n * (d / z)
  {
    var q := d / z;
    assert q * z == d;
    assert (n * q) * z == n * (q * z);
    assert (n * q - x) * z == 0.0;
  }

  predicate Bounded(grid: Grid) {
    1 <= grid.factor <= GRID_MAX && 0 <= grid.slipTicks <= SLIP_MAX
  }

  /** There is only one coarsest grid. */
  lemma CoarsestIsUnique(tick: real, slip: real, a: Grid, b: Grid)
    requires tick > 0.0 && CoarsestGrid(tick, slip, a) && CoarsestGrid(tick, slip, b)
    ensures a == b
  {
    assert Holds(a.size, tick) && Holds(a.size, slip) && Holds(b.size, tick) && Holds(b.size, slip);
    var m: int :| Multiple(b.size, m, a.size);
    var n: int :| Multiple(a.size, n, b.size);
    MutualMultiples(a.size, b.size, m, n);
    SameFactor(a.factor, b.factor, a.size);
    SameFactor(a.slipTicks, b.slipTicks, a.size);
  }

  lemma MutualMultiples(a: real, b: real, m: int, n: int)
    requires a > 0.0 && b > 0.0 && b == m as real * a && a == n as real * b
    ensures a == b
  {
    SignOfMultiple(m, a);
    SignOfMultiple(n, b);
    assert m >= 1 && n >= 1;
    assert b >= a && a >= b;
  }

  lemma SignOfMultiple(n: int, g: real)
    requires g > 0.0
    ensures n <= 0 ==> n as real * g <= 0.0
    ensures n >= 1 ==> n as real * g >= g
  {
    if n >= 1 {
      assert (n as real - 1.0) * g >= 0.0;
    }
  }

  lemma SameFactor(f: int, g: int, size: real)
    requires size > 0.0 && f as real * size == g as real * size
    ensures f == g
  {
    assert (f as real - g as real) * size == 0.0;
  }

  /** _execution_grid: the one coarsest common grid, unless its numbers leave the native bounds. */
  method FindGrid(tick: Decimal, slip: Decimal) returns (r: Option<Grid>)
    requires tick.coefficient > 0 && slip.coefficient >= 0
    ensures exists grid: Grid ::
      CoarsestGrid(Value(tick), Value(slip), grid) && r == if Bounded(grid) then Some(grid) else None
  {
    hide Units, Value, CoarsestGrid, Gcd;
    var places := Places(tick, slip);
    var scale := Pow10(places);
    var tickUnits, slipUnits := Units(tick, places), Units(slip, places);
    UnitsAreExact(tick, places);
    UnitsAreExact(slip, places);
    UnitsKeepSign(tick, places);
    UnitsKeepSign(slip, places);
    var divisor := Gcd(tickUnits, slipUnits);
    var factor, slipTicks := tickUnits / divisor, slipUnits / divisor;
    var grid := Grid(divisor as real / scale as real, factor, slipTicks);
    GridIsCoarsest(tickUnits, slipUnits, scale, Value(tick), Value(slip), grid);
    r := if Bounded(grid) then Some(grid) else None;
  }

  lemma GridIsCoarsest(t: nat, s: nat, scale: nat, tick: real, slip: real, grid: Grid)
    requires t > 0 && scale > 0 && t as real == tick * scale as real && s as real == slip * scale as real
    requires grid == Grid(Gcd(t, s) as real / scale as real, t / Gcd(t, s), s / Gcd(t, s))
    ensures CoarsestGrid(tick, slip, grid)
  {
    hide Gcd, Multiple;
    var u, v, x, y := Bezout(t, s);
    var d := Gcd(t, s);
    ExactQuotient(t, x, d);
    ExactQuotient(s, y, d);
    GridMultiple(t, x, d, scale, tick);
    GridMultiple(s, y, d, scale, slip);
    forall g: real | Holds(g, tick) && Holds(g, slip) ensures Holds(g, grid.size) {
      var a: int :| Multiple(tick, a, g);
      var b: int :| Multiple(slip, b, g);
      Combination(t, s, scale, u, v, a, b, g, tick, slip);
      assert Multiple(grid.size, u * a + v * b, g);
    }
  }

  /** The combination that gives the gcd also gives the grid in terms of any common grid. */
  lemma Combination(t: nat, s: nat, scale: nat, u: int, v: int, a: int, b: int, g: real, tick: real, slip: real)
    requires scale > 0 && t as real == tick * scale as real && s as real == slip * scale as real
    requires Multiple(tick, a, g) && Multiple(slip, b, g)
    ensures Multiple((u * t + v * s) as real / scale as real, u * a + v * b, g)
  {
    ProductAsReal(u, t);
    ProductAsReal(v, s);
    ProductAsReal(u, a);
    ProductAsReal(v, b);
    RealCombination(t as real, s as real, scale as real, u as real, v as real, a as real, b as real, g, tick, slip);
  }

  lemma RealCombination(t: real, s: real, z: real, u: real, v: real, a: real, b: real, g: real, tick: real, slip: real)
    requires z > 0.0 && t == tick * z && s == slip * z && tick == a * g && slip == b * g
    ensures (u * t + v * s) / z == (u * a + v * b) * g
  {
    var w := u * tick + v * slip;
    assert u * t + v * s == w * z;
    assert w * z / z == w;
    assert w == (u * a + v * b) * g;
  }

  // ---- Rescaled bars

  datatype Bar = Bar(begin: nat, open: int, high: int, low: int, close: int)

  /** Every price keeps its exact value on the finer grid. */
  ghost predicate SameBar(tick: real, size: real, before: Bar, after: Bar) {
    && after.begin == before.begin
    && before.open as real * tick == after.open as real * size
      && before.high as real * tick == after.high as real * size
    && before.low as real * tick == after.low as real * size
      && before.close as real * tick == after.close as real * size
  }

  lemma SameValue(n: int, tick: real, grid: Grid)
    requires tick == grid.factor as real * grid.size
    ensures n as real * tick == (n * grid.factor) as real * grid.size
  {
    assert (n * grid.factor) as real == n as real * grid.factor as real;
  }

  lemma SameOrder(a: int, b: int, factor: int)
    requires factor >= 1
    ensures a <= b <==> a * factor <= b * factor
  {
    if a <= b {
      assert (b - a) * factor >= 0;
    } else {
      assert (a - b) * factor > 0;
    }
  }

  predicate Within(price: int) {
    -GRID_MAX <= price <= GRID_MAX
  }

  function Prices(b: Bar): seq<int> {
    [b.open, b.high, b.low, b.close]
  }

  /** Any two prices of any two bars compare as they did. */
  ghost predicate OrderKept(before: seq<Bar>, after: seq<Bar>) {
    && |after| == |before|
    && forall i, j, k, l :: 0 <= i < |before| && 0 <= j < |before| && 0 <= k < 4 && 0 <= l < 4 ==>
         (Prices(before[i])[k] <= Prices(before[j])[l] <==> Prices(after[i])[k] <= Prices(after[j])[l])
  }

  lemma ScalingKeepsOrder(bars: seq<Bar>, scaled: seq<Bar>, factor: int)
    requires factor >= 1 && |scaled| == |bars| && forall i :: 0 <= i < |bars| ==> scaled[i] == Scaled(bars[i], factor)
    ensures OrderKept(bars, scaled)
  {
    forall i, j, k, l | 0 <= i < |bars| && 0 <= j < |bars| && 0 <= k < 4 && 0 <= l < 4
      ensures Prices(bars[i])[k] <= Prices(bars[j])[l] <==> Prices(scaled[i])[k] <= Prices(scaled[j])[l] {
      ScaledPrice(bars[i], factor, k);
      ScaledPrice(bars[j], factor, l);
      SameOrder(Prices(bars[i])[k], Prices(bars[j])[l], factor);
    }
  }

  lemma ScaledPrice(b: Bar, factor: int, k: nat)
    requires k < 4
    ensures Prices(Scaled(b, factor))[k] == Prices(b)[k] * factor
  {
    assert k == 0 || k == 1 || k == 2 || k == 3;
  }

  /** The bar loop of replay_portfolio: every price is multiplied by the factor, or the run is refused. */
  method ScaleBars(bars: seq<Bar>, ghost tick: real, grid: Grid, limit: nat) returns (r: Option<seq<Bar>>)
    requires grid.factor >= 1 && tick == grid.factor as real * grid.size
    ensures r.Some? <==> |bars| <= limit && forall i :: 0 <= i < |bars| ==> Scalable(bars[i], grid.factor)
    ensures r.Some? ==> |r.value| == |bars|
    ensures r.Some? ==> forall i :: 0 <= i < |bars| ==> SameBar(tick, grid.size, bars[i], r.value[i])
    ensures r.Some? ==> OrderKept(bars, r.value)
  {
    hide Scaled, Scalable, SameBar;
    var scaled: seq<Bar> := [];
    while |scaled| < |bars|
      invariant |scaled| <= |bars| && |scaled| <= limit
      invariant forall i :: 0 <= i < |scaled| ==>
        && Scalable(bars[i], grid.factor)
        && SameBar(tick, grid.size, bars[i], scaled[i]) && scaled[i] == Scaled(bars[i], grid.factor)
      decreases |bars| - |scaled|
    {
      var b := bars[|scaled|];
      if |scaled| + 1 > limit {
        return None;
      }
      var next := ScaleBar(b, grid.factor);
      if next.None? {
        return None;
      }
      ScaledIsSame(b, tick, grid);
      scaled := scaled + [next.value];
    }
    ScalingKeepsOrder(bars, scaled, grid.factor);
    r := Some(scaled);
  }

  /** One bar: each price is multiplied and bounded, before and after. */
  method ScaleBar(b: Bar, factor: int) returns (r: Option<Bar>)
    ensures r == if Scalable(b, factor) then Some(Scaled(b, factor)) else None
  {
    var prices, scaled := [b.open, b.high, b.low, b.close], [];
    while |scaled| < 4
      invariant |scaled| <= 4
      invariant forall k :: 0 <= k < |scaled| ==>
        scaled[k] == prices[k] * factor && Within(prices[k]) && Within(prices[k] * factor)
      decreases 4 - |scaled|
    {
      var k := |scaled|;
      var product := prices[k] * factor;
      if prices[k] < -GRID_MAX || prices[k] > GRID_MAX || product < -GRID_MAX || product > GRID_MAX {
        assert prices[0] == b.open && prices[1] == b.high && prices[2] == b.low && prices[3] == b.close;
        assert k == 0 || k == 1 || k == 2 || k == 3;
        return None;
      }
      scaled := scaled + [product];
    }
    assert Within(prices[0]) && Within(prices[1]) && Within(prices[2]) && Within(prices[3]);
    r := Some(Bar(b.begin, scaled[0], scaled[1], scaled[2], scaled[3]));
  }

  lemma ScaledIsSame(b: Bar, tick: real, grid: Grid)
    requires tick == grid.factor as real * grid.size
    ensures SameBar(tick, grid.size, b, Scaled(b, grid.factor))
  {
    SameValue(b.open, tick, grid);
    SameValue(b.high, tick, grid);
    SameValue(b.low, tick, grid);
    SameValue(b.close, tick, grid);
  }

  function Scaled(b: Bar, factor: int): Bar {
    Bar(b.begin, b.open * factor, b.high * factor, b.low * factor, b.close * factor)
  }

  predicate Scalable(b: Bar, factor: int) {
    && Within(b.open) && Within(b.high) && Within(b.low) && Within(b.close)
    && Within(b.open * factor) && Within(b.high * factor) && Within(b.low * factor) && Within(b.close * factor)
  }
}
