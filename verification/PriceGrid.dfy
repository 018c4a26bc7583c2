/** Decoding a stored binary price on a decimal tick grid. The conversion of an exact decimal to the binary
    format is any monotone function; nothing else is known of it. */
module PriceGrid {

  import opened Bytes

  type Rounding = real -> real

  ghost predicate Monotone(rounding: Rounding) {
    forall x, y :: x <= y ==> rounding(x) <= rounding(y)
  }

  const TICK_MIN: int := -0x8000_0000_0000_0000
  const TICK_MAX: int := 0x7fff_ffff_ffff_ffff

  /** Rounding to the nearest integer, ties to even. */
  function Nearest(x: real): (n: int)
    ensures -0.5 <= x - n as real <= 0.5
    ensures x - n as real == 0.5 || x - n as real == -0.5 ==> n % 2 == 0
  {
    var f := x.Floor;
    var part := x - f as real;
    if part < 0.5 || (part == 0.5 && f % 2 == 0) then f else f + 1
  }

  function OnGrid(tick: int, scale: real): real {
    tick as real * scale
  }

  /** _price: the tick next to the stored value, if it and neither of its neighbours gives that value. */
  method DecodePrice(rounding: Rounding, value: real, scale: real) returns (tick: Option<int>)
    requires scale > 0.0
    ensures tick.Some? ==> TICK_MIN <= tick.value <= TICK_MAX && rounding(OnGrid(tick.value, scale)) == value
    ensures tick.Some? && Monotone(rounding) ==> forall k: int :: rounding(OnGrid(k, scale)) == value ==>
      k == tick.value
    ensures tick == if Decodable(rounding, value, scale) then Some(Nearest(value / scale)) else None
  {
    if !(-1000000000000000000.0 <= value <= 1000000000000000000.0) {
      return None;
    }
    var candidate := Nearest(value / scale);
    if !(TICK_MIN <= candidate <= TICK_MAX) || rounding(OnGrid(candidate, scale)) != value {
      return None;
    }
    var adjacent := [candidate - 1, candidate + 1];
    for i := 0 to 2
      invariant forall j :: 0 <= j < i ==> rounding(OnGrid(adjacent[j], scale)) != value
    {
      if rounding(OnGrid(adjacent[i], scale)) == value {
        return None;
      }
    }
    assert rounding(OnGrid(adjacent[0], scale)) != value && rounding(OnGrid(adjacent[1], scale)) != value;
    if Monotone(rounding) {
      NoOtherTick(rounding, value, scale, candidate);
    }
    tick := Some(candidate);
  }

  /** What decides the decoding. */
  predicate Decodable(rounding: Rounding, value: real, scale: real)
    requires scale > 0.0
  {
    var candidate := Nearest(value / scale);
    && -1000000000000000000.0 <= value <= 1000000000000000000.0 && TICK_MIN <= candidate <= TICK_MAX
    && rounding(OnGrid(candidate, scale)) == value
    && rounding(OnGrid(candidate - 1, scale)) != value && rounding(OnGrid(candidate + 1, scale)) != value
  }

  lemma GridIsOrdered(a: int, b: int, scale: real)
    requires a <= b && scale > 0.0
    ensures OnGrid(a, scale) <= OnGrid(b, scale)
  {
    var d := (b - a) as real;
    assert d * scale >= 0.0;
    assert OnGrid(b, scale) == OnGrid(a, scale) + d * scale;
  }

  /** A tick whose neighbours give other values is alone on the whole grid. */
  lemma NoOtherTick(rounding: Rounding, value: real, scale: real, tick: int)
    requires scale > 0.0 && Monotone(rounding) && rounding(OnGrid(tick, scale)) == value
    requires rounding(OnGrid(tick - 1, scale)) != value && rounding(OnGrid(tick + 1, scale)) != value
    ensures forall k: int :: rounding(OnGrid(k, scale)) == value ==> k == tick
  {
    forall k: int | rounding(OnGrid(k, scale)) == value ensures k == tick {
      if k > tick {
        GridIsOrdered(tick, tick + 1, scale);
        GridIsOrdered(tick + 1, k, scale);
      } else if k < tick {
        GridIsOrdered(k, tick - 1, scale);
        GridIsOrdered(tick - 1, tick, scale);
      }
    }
  }

  /** The only tick with this image, on the whole grid. */
  ghost predicate SoleImage(rounding: Rounding, value: real, scale: real, tick: int) {
    forall k: int :: rounding(OnGrid(k, scale)) == value <==> k == tick
  }

  predicate InBounds(value: real, tick: int) {
    -1000000000000000000.0 <= value <= 1000000000000000000.0
    && -0x8000_0000_0000_0000 <= tick <= 0x7fff_ffff_ffff_ffff
  }

  /** With a monotone conversion a value is decoded exactly when the tick nearest to it is the only one with this
      image, and both are in bounds. */
  lemma DecodableMeans(rounding: Rounding, value: real, scale: real)
    requires scale > 0.0 && Monotone(rounding)
    ensures
      var tick := Nearest(value / scale);
      Decodable(rounding, value, scale) <==> SoleImage(rounding, value, scale, tick) && InBounds(value, tick)
  {
    var tick := Nearest(value / scale);
    if Decodable(rounding, value, scale) {
      NoOtherTick(rounding, value, scale, tick);
    }
  }

  /** The conversion of a tick is less than half a tick off. */
  ghost predicate Close(rounding: Rounding, scale: real) {
    forall k: int :: -scale < 2.0 * (rounding(OnGrid(k, scale)) - OnGrid(k, scale)) < scale
  }

  /** With a monotone conversion that is less than half a tick off, a value is decoded exactly when it is the image
      of one tick only, and both are in bounds. */
  lemma DecodableFromGrid(rounding: Rounding, value: real, scale: real)
    requires scale > 0.0 && Monotone(rounding) && Close(rounding, scale)
    ensures Decodable(rounding, value, scale) <==>
      exists tick: int :: SoleImage(rounding, value, scale, tick) && InBounds(value, tick)
  {
    DecodableMeans(rounding, value, scale);
    if tick: int :| SoleImage(rounding, value, scale, tick) {
      assert rounding(OnGrid(tick, scale)) == value;
      NearestIsIt(value, scale, tick);
    }
  }

  lemma NearestIsIt(value: real, scale: real, tick: int)
    requires scale > 0.0 && -scale < 2.0 * (value - OnGrid(tick, scale)) < scale
    ensures Nearest(value / scale) == tick
  {
    var x := value / scale;
    assert x * scale == value;
    HalfOff(x, tick as real, scale, value);
  }

  lemma HalfOff(x: real, t: real, scale: real, value: real)
    requires scale > 0.0 && x * scale == value && -scale < 2.0 * (value - t * scale) < scale
    ensures -0.5 < x - t < 0.5
  {
    assert (x - t) * scale == value - t * scale;
    SignOfProduct(x - t - 0.5, scale);
    SignOfProduct(x - t + 0.5, scale);
    assert (x - t - 0.5) * scale == (x - t) * scale - 0.5 * scale;
    assert (x - t + 0.5) * scale == (x - t) * scale + 0.5 * scale;
  }

  lemma SignOfProduct(d: real, scale: real)
    requires scale > 0.0
    ensures d >= 0.0 ==> d * scale >= 0.0
    ensures d <= 0.0 ==> d * scale <= 0.0
  {
  }

  /** What a selected price is: positive, a tick of the grid within the native range, and the tick that its own
      binary form decodes to. */
  predicate SelectedAs(rounding: Rounding, price: real, scale: real, tick: int)
    requires scale > 0.0
  {
    && price > 0.0 && price == OnGrid(tick, scale) && TICK_MIN <= tick <= TICK_MAX
    && Decodable(rounding, rounding(price), scale) && Nearest(rounding(price) / scale) == tick
  }

  ghost predicate Selectable(rounding: Rounding, price: real, scale: real)
    requires scale > 0.0
  {
    exists tick: int :: SelectedAs(rounding, price, scale, tick)
  }

  lemma QuotientOfTick(tick: int, scale: real)
    requires scale > 0.0
    ensures (OnGrid(tick, scale) / scale).Floor == tick
  {
    assert OnGrid(tick, scale) / scale == tick as real;
  }

  /** With a monotone conversion the binary form of a grid price that decodes at all decodes to its own tick. */
  lemma DecodesToItself(rounding: Rounding, tick: int, scale: real)
    requires scale > 0.0 && Monotone(rounding) && Decodable(rounding, rounding(OnGrid(tick, scale)), scale)
    ensures Nearest(rounding(OnGrid(tick, scale)) / scale) == tick
  {
    var value := rounding(OnGrid(tick, scale));
    NoOtherTick(rounding, value, scale, Nearest(value / scale));
  }

  /** The grid checks of _selected, made exactly for selectable prices. */
  method SelectPrice(rounding: Rounding, price: real, scale: real) returns (tick: Option<int>)
    requires scale > 0.0
    ensures tick.Some? <==> Selectable(rounding, price, scale)
    ensures tick.Some? ==> SelectedAs(rounding, price, scale, tick.value)
    ensures tick.Some? && Monotone(rounding) ==> OnlyTick(rounding, price, scale, tick.value)
  {
    hide SelectedAs, Selectable, Decodable, Nearest, OnlyTick;
    var units := (price / scale).Floor;
    SelectsUnits(rounding, price, scale);
    if OnGrid(units, scale) != price || !(TICK_MIN <= units <= TICK_MAX) || price <= 0.0 {
      return None;
    }
    tick := DecodePrice(rounding, rounding(price), scale);
    if tick.Some? && tick.value != units {
      tick := None;
    }
    if tick.Some? && Monotone(rounding) {
      OnlyThis(rounding, price, scale, tick.value);
    }
  }

  lemma SelectsUnits(rounding: Rounding, price: real, scale: real)
    requires scale > 0.0
    ensures
      var units := (price / scale).Floor;
      && (Selectable(rounding, price, scale) <==> SelectedAs(rounding, price, scale, units))
      && (SelectedAs(rounding, price, scale, units) <==>
            && OnGrid(units, scale) == price && TICK_MIN <= units <= TICK_MAX && price > 0.0
            && Decodable(rounding, rounding(price), scale) && Nearest(rounding(price) / scale) == units)
  {
    hide Decodable, Nearest;
    forall k: int | SelectedAs(rounding, price, scale, k) ensures k == (price / scale).Floor {
      QuotientOfTick(k, scale);
    }
  }

  lemma OnlyThis(rounding: Rounding, price: real, scale: real, tick: int)
    requires scale > 0.0 && Monotone(rounding) && SelectedAs(rounding, price, scale, tick)
    ensures OnlyTick(rounding, price, scale, tick)
  {
    hide Nearest;
    NoOtherTick(rounding, rounding(price), scale, tick);
  }

  /** The rows of a source: all prices are accepted, or none, and none exactly when there is no row, too many rows,
      or one that is not selectable. Two accepted prices that differ never have the same binary form. */
  method SelectPrices(rounding: Rounding, prices: seq<real>, scale: real, maximum: nat)
      returns (ticks: Option<seq<int>>)
    requires scale > 0.0
    ensures ticks.Some? <==> 0 < |prices| <= maximum && forall i :: 0 <= i < |prices| ==>
      Selectable(rounding, prices[i], scale)
    ensures ticks.Some? ==> |ticks.value| == |prices| && forall i :: 0 <= i < |prices| ==>
      SelectedAs(rounding, prices[i], scale, ticks.value[i])
    ensures ticks.Some? && Monotone(rounding) ==>
      forall i, j :: 0 <= i < |prices| && 0 <= j < |prices| && rounding(prices[i]) == rounding(prices[j]) ==>
        prices[i] == prices[j]
  {
    hide SelectedAs;
    var chosen: seq<int> := [];
    while |chosen| < |prices|
      invariant |chosen| <= |prices| && |chosen| <= maximum
      invariant forall i :: 0 <= i < |chosen| ==> SelectedAs(rounding, prices[i], scale, chosen[i])
      invariant Monotone(rounding) ==> forall i :: 0 <= i < |chosen| ==> OnlyTick(rounding, prices[i], scale, chosen[i])
      decreases |prices| - |chosen|
    {
      var count := |chosen| + 1;
      if count > maximum {
        return None;
      }
      var tick := SelectPrice(rounding, prices[|chosen|], scale);
      if tick.None? {
        return None;
      }
      chosen := chosen + [tick.value];
    }
    if |chosen| == 0 {
      return None;
    }
    if Monotone(rounding) {
      forall i, j | 0 <= i < |prices| && 0 <= j < |prices| && rounding(prices[i]) == rounding(prices[j])
        ensures prices[i] == prices[j] {
        AlikeAreEqual(rounding, prices[i], prices[j], scale, chosen[i], chosen[j]);
      }
    }
    ticks := Some(chosen);
  }

  lemma AlikeAreEqual(rounding: Rounding, a: real, b: real, scale: real, tick: int, other: int)
    requires scale > 0.0 && SelectedAs(rounding, a, scale, tick) && SelectedAs(rounding, b, scale, other)
    requires OnlyTick(rounding, a, scale, tick) && rounding(a) == rounding(b)
    ensures a == b
  {
    assert rounding(OnGrid(other, scale)) == rounding(a);
  }

  ghost predicate OnlyTick(rounding: Rounding, price: real, scale: real, tick: int) {
    forall k: int :: rounding(OnGrid(k, scale)) == rounding(price) ==> k == tick
  }
}
