/** Real-number helpers for the arithmetic the modelled code does with Python floats. */
module Numeric {

  /** Python's `min` on two numbers. */
  function Min(a: real, b: real): (r: real)
    ensures r <= a && r <= b && (r == a || r == b)
  {
    if a <= b then a else b
  }

  /** Python's `max` on two numbers. */
  function Max(a: real, b: real): (r: real)
    ensures r >= a && r >= b && (r == a || r == b)
  {
    if a >= b then a else b
  }

  /** Python's `abs`. */
  function Abs(x: real): (r: real)
    ensures r >= 0.0 && (r == x || r == -x)
  {
    if x >= 0.0 then x else -x
  }

  /** `max(0.0, min(1.0, x))`: clamps into the unit interval and leaves it alone inside it. */
  function Clamp01(x: real): (r: real)
    ensures 0.0 <= r <= 1.0
    ensures 0.0 <= x <= 1.0 ==> r == x
    ensures x <= 0.0 ==> r == 0.0
    ensures x >= 1.0 ==> r == 1.0
  {
    Max(0.0, Min(1.0, x))
  }

  /** Python's `int(x)` on a float: truncation toward zero. */
  function Trunc(x: real): (r: int)
    ensures x >= 0.0 ==> r as real <= x < r as real + 1.0
    ensures x < 0.0 ==> r as real - 1.0 < x <= r as real
  {
    if x >= 0.0 then x.Floor else -((-x).Floor)
  }

  /** A share of a positive whole: at most 1 when the part is at most the whole, and exactly 1 for the whole. */
  lemma RatioBounds(part: real, whole: real)
    requires whole > 0.0
    ensures 0.0 <= part <= whole ==> 0.0 <= part / whole <= 1.0
    ensures part / whole == 1.0 <==> part == whole
  {
    var q := part / whole;
    assert q * whole == part;
    if 0.0 <= part <= whole {
      PositiveFactorBound(q, whole);
    }
  }

  lemma PositiveFactorBound(q: real, w: real)
    requires w > 0.0 && 0.0 <= q * w <= w
    ensures 0.0 <= q <= 1.0
  {
  }

  /** `part / whole * 100` when the whole is positive, and 0 otherwise. */
  function Percentage(part: int, whole: int): (r: real)
    ensures whole <= 0 ==> r == 0.0
    ensures whole > 0 && 0 <= part <= whole ==> 0.0 <= r <= 100.0
    ensures whole > 0 ==> (r == 100.0 <==> part == whole)
  {
    if whole > 0 then
      RatioBounds(part as real, whole as real);
      (part as real / whole as real) * 100.0
    else 0.0
  }

  /** Sum of a sequence of reals. */
  function SumReals(s: seq<real>): real
  {
    if |s| == 0 then 0.0 else SumReals(s[..|s| - 1]) + s[|s| - 1]
  }

  /** Arithmetic mean (`np.mean`) of a non-empty sequence of reals. */
  function MeanReals(s: seq<real>): real
    requires |s| > 0
  {
    SumReals(s) / |s| as real
  }

  /** A sum of terms each bounded by `hi` is at most `|s| * hi`, and each at least `lo` at least `|s| * lo`. */
  lemma {:induction false} SumRealsBounds(s: seq<real>, lo: real, hi: real)
    requires forall i :: 0 <= i < |s| ==> lo <= s[i] <= hi
    ensures |s| as real * lo <= SumReals(s) <= |s| as real * hi
  {
    if |s| > 0 {
      SumRealsBounds(s[..|s| - 1], lo, hi);
    }
  }

  /** The mean of values that all lie in [lo, hi] lies in [lo, hi]. */
  lemma MeanRealsBounds(s: seq<real>, lo: real, hi: real)
    requires |s| > 0
    requires forall i :: 0 <= i < |s| ==> lo <= s[i] <= hi
    ensures lo <= MeanReals(s) <= hi
  {
    SumRealsBounds(s, lo, hi);
    var n := |s| as real;
    assert n * lo <= SumReals(s) <= n * hi;
    assert SumReals(s) / n >= lo by {
      assert SumReals(s) >= lo * n;
    }
    assert SumReals(s) / n <= hi by {
      assert SumReals(s) <= hi * n;
    }
  }
}
