/**
 * The lightness arithmetic of the heat map: a cell's background lightness is
 * `1 - round3(value * (1 - l) / highest)`, where `l` is the lightness of the
 * column's base colour and `highest` the column maximum. Numbers are exact
 * reals; the only IEEE-754 values kept are the infinities and NaN that a
 * division by a zero or missing column maximum produces.
 */
module Shading {
  import opened Wrappers

  /** A JavaScript number, as far as the lightness computation needs one. */
  datatype Num = Finite(r: real) | PosInfinity | NegInfinity | NaN

  /** The integer nearest to `y`, the larger one on a tie. */
  function RoundHalfUp(y: real): (n: int)
    requires y >= 0.0
    ensures n as real <= y + 0.5 < n as real + 1.0
  {
    (y + 0.5).Floor
  }

  /** The number `n / 1000`: a decimal with at most three places. */
  function Thousandths(n: int): real
  {
    n as real / 1000.0
  }

  /**
   * Rounds as `+x.toFixed(3)` does: to a multiple of 0.001, the nearest one,
   * a tie going away from zero.
   */
  function ToFixed3(x: real): (r: real)
    ensures exists n: int :: r == Thousandths(n)
    ensures x >= 0.0 ==> -0.0005 < r - x <= 0.0005
    ensures x < 0.0 ==> -0.0005 <= r - x < 0.0005
    ensures x >= 0.0 ==> r >= 0.0
    ensures x <= 0.0 ==> r <= 0.0
  {
    if x >= 0.0 then Thousandths(RoundHalfUp(x * 1000.0))
    else
      var n := RoundHalfUp(-x * 1000.0);
      assert -Thousandths(n) == Thousandths(-n);
      -Thousandths(n)
  }

  /** The share of the column's lightness range that `value` takes up. */
  function Percentage(value: real, maxLightness: real, highest: real): real
    requires highest != 0.0
  {
    value * maxLightness / highest
  }

  /**
   * The lightness handed to `hsla` for a cell of value `value` in a column
   * whose base colour has lightness `baseLightness` and whose recorded
   * maximum is `highest` (None when the column has no entry, which reads as
   * `undefined` and makes the quotient NaN).
   */
  function BackgroundLightness(value: real, baseLightness: real, highest: Option<real>): (r: Num)
    ensures highest.None? ==> r == NaN
    ensures highest.Some? && highest.value != 0.0 ==>
              && r.Finite?
              && -0.0005 <= r.r - (1.0 - Percentage(value, 1.0 - baseLightness, highest.value)) <= 0.0005
    ensures highest == Some(0.0) ==> !r.Finite?
  {
    var maxLightness := 1.0 - baseLightness;
    match highest
    case None => NaN
    case Some(h) =>
      if h != 0.0 then Finite(1.0 - ToFixed3(Percentage(value, maxLightness, h)))
      else
        // n / 0 is +Infinity, -Infinity or NaN by the sign of n; 1 - (+-Infinity) flips it
        var n := value * maxLightness;
        if n > 0.0 then NegInfinity else if n < 0.0 then PosInfinity else NaN
  }

  /** A number with at most three decimals, `k / 1000`, is left as it is. */
  lemma ToFixed3Exact(x: real, k: int)
    requires x * 1000.0 == k as real
    ensures ToFixed3(x) == x
  {
    if x >= 0.0 {
      assert RoundHalfUp(x * 1000.0) == k;
    } else {
      assert RoundHalfUp(-x * 1000.0) == -k;
    }
  }

  lemma ToFixed3Monotone(x: real, y: real)
    requires x <= y
    ensures ToFixed3(x) <= ToFixed3(y)
  {
    if x < 0.0 && y < 0.0 {
      assert RoundHalfUp(-y * 1000.0) <= RoundHalfUp(-x * 1000.0);
    } else if x >= 0.0 {
      assert RoundHalfUp(x * 1000.0) <= RoundHalfUp(y * 1000.0);
    }
  }

  lemma ScaleMonotone(a: real, b: real, m: real)
    requires a <= b && m >= 0.0
    ensures a * m <= b * m
  {
  }

  lemma DivideMonotone(a: real, b: real, h: real)
    requires a <= b && h > 0.0
    ensures a / h <= b / h
  {
  }

  lemma DivideOwnFactor(h: real, m: real)
    requires h != 0.0
    ensures h * m / h == m
  {
  }

  /** The cell holding the column maximum gets exactly the base colour's lightness. */
  lemma ShadeAtColumnMax(highest: real, baseLightness: real, k: int)
    requires highest != 0.0
    requires baseLightness * 1000.0 == k as real
    ensures BackgroundLightness(highest, baseLightness, Some(highest)) == Finite(baseLightness)
  {
    var m := 1.0 - baseLightness;
    DivideOwnFactor(highest, m);
    assert Percentage(highest, m, highest) == m;
    ToFixed3Exact(m, 1000 - k);
    assert 1.0 - ToFixed3(m) == baseLightness;
  }

  /** A smaller value in the same column never gets a darker background. */
  lemma ShadeMonotone(v1: real, v2: real, baseLightness: real, highest: real)
    requires 0.0 < highest
    requires baseLightness <= 1.0
    requires v1 <= v2
    ensures BackgroundLightness(v1, baseLightness, Some(highest)).Finite?
    ensures BackgroundLightness(v2, baseLightness, Some(highest)).Finite?
    ensures BackgroundLightness(v1, baseLightness, Some(highest)).r
         >= BackgroundLightness(v2, baseLightness, Some(highest)).r
  {
    var m := 1.0 - baseLightness;
    ScaleMonotone(v1, v2, m);
    DivideMonotone(v1 * m, v2 * m, highest);
    ToFixed3Monotone(Percentage(v1, m, highest), Percentage(v2, m, highest));
  }

  /**
   * For a positive value up to the column maximum, the background lies
   * between the (rounded) base lightness and white.
   */
  lemma ShadeRange(value: real, baseLightness: real, highest: real)
    requires 0.0 < value <= highest
    requires 0.0 <= baseLightness <= 1.0
    ensures BackgroundLightness(value, baseLightness, Some(highest)).Finite?
    ensures 1.0 - ToFixed3(1.0 - baseLightness) <= BackgroundLightness(value, baseLightness, Some(highest)).r <= 1.0
  {
    var m := 1.0 - baseLightness;
    ShadeMonotone(value, highest, baseLightness, highest);
    DivideOwnFactor(highest, m);
    ScaleMonotone(0.0, value, m);
    DivideMonotone(0.0, value * m, highest);
    assert Percentage(highest, m, highest) == m;
    assert Percentage(value, m, highest) >= 0.0;
  }

  /** Nothing clamps the result: a negative value yields a lightness above 1. */
  lemma NegativeValueOverflowsWhite(highest: real)
    requires highest > 0.0
    ensures BackgroundLightness(-highest, 0.0, Some(highest)) == Finite(2.0)
  {
    assert -highest * 1.0 / highest == -1.0;
    ToFixed3Exact(-1.0, -1000);
  }

  /** Nothing clamps a negative value back into range: its lightness is at least that of white. */
  lemma NegativeValueAtLeastWhite(value: real, baseLightness: real, highest: real)
    requires highest > 0.0
    requires baseLightness <= 1.0
    requires value < 0.0
    ensures BackgroundLightness(value, baseLightness, Some(highest)).Finite?
    ensures BackgroundLightness(value, baseLightness, Some(highest)).r >= 1.0
  {
    var m := 1.0 - baseLightness;
    ScaleMonotone(value, 0.0, m);
    DivideMonotone(value * m, 0.0, highest);
    assert Percentage(value, m, highest) <= 0.0;
  }

  /** A nonzero value in a column whose maximum stayed 0 divides by zero. */
  lemma ShadeOfZeroMaximum(value: real, baseLightness: real)
    requires value < 0.0
    requires baseLightness < 1.0
    ensures BackgroundLightness(value, baseLightness, Some(0.0)) == PosInfinity
  {
    assert value * (1.0 - baseLightness) < 0.0;
  }
}
