/** `computeMaxDrawdown`: one forward scan over portfolio values keeping a
    running peak and the most negative fractional fall `(v - peak) / peak`
    seen so far, reported as a non-negative fraction. */
module Drawdown {
  import opened Wrappers
  import opened Seqs

  function Abs(x: real): real {
    if x < 0.0 then -x else x
  }

  /** The per-value fall `(v - peak) / peak`. A zero peak yields NaN (or
      -Infinity) in JavaScript; here it is taken as no fall. */
  function Fall(v: real, peak: real): (f: real)
    ensures peak != 0.0 ==> f * peak == v - peak
    ensures peak > 0.0 && v <= peak ==> f <= 0.0
  {
    if peak == 0.0 then 0.0 else (v - peak) / peak
  }

  /** The scan's `peak` once the values `vs` have been visited. */
  function RunningPeak(vs: seq<real>): (p: real)
    requires |vs| > 0
    ensures p in vs
    ensures forall i :: 0 <= i < |vs| ==> vs[i] <= p
  {
    if |vs| == 1 then vs[0]
    else
      var p := RunningPeak(vs[..|vs| - 1]);
      if Last(vs) > p then Last(vs) else p
  }

  /** The scan's `maxDd` once the values `vs` have been visited. */
  function DeepestFall(vs: seq<real>): (d: real)
    ensures d <= 0.0
  {
    if |vs| == 0 then 0.0
    else
      var d := DeepestFall(vs[..|vs| - 1]);
      var f := Fall(Last(vs), RunningPeak(vs));
      if f < d then f else d
  }

  /** The result of `computeMaxDrawdown`: `None` (JavaScript `null`) for no
      values, otherwise the absolute value of the deepest fall. */
  function MaxDrawdown(vs: seq<real>): (r: Option<real>)
    ensures r.None? <==> |vs| == 0
    ensures r.Some? ==> r.value >= 0.0
  {
    if |vs| == 0 then None else Some(Abs(DeepestFall(vs)))
  }

  /** The loop of `computeMaxDrawdown`, statement for statement. */
  method ComputeMaxDrawdown(values: seq<real>) returns (r: Option<real>)
    ensures r == MaxDrawdown(values)
  {
    if |values| == 0 {
      return None;
    }
    var peak := values[0];
    var maxDd := 0.0;
    var i := 0;
    while i < |values|
      invariant 0 <= i <= |values|
      invariant peak == RunningPeak(values[..if i == 0 then 1 else i])
      invariant maxDd == DeepestFall(values[..i])
    {
      var v := values[i];
      assert values[..i + 1][..i] == values[..i];
      if v > peak {
        peak := v;
      }
      var dd := Fall(v, peak);
      if dd < maxDd {
        maxDd := dd;
      }
      i := i + 1;
    }
    assert values[..|values|] == values;
    r := Some(Abs(maxDd));
  }

  ghost predicate AllPositive(vs: seq<real>) {
    forall i :: 0 <= i < |vs| ==> vs[i] > 0.0
  }

  /** The fractional decline from an earlier value `peak` to a later value `v`. */
  function Decline(peak: real, v: real): real
    requires peak > 0.0
  {
    (peak - v) / peak
  }

  /** `d` is the largest decline from any value to any value at or after it. */
  ghost predicate IsLargestDecline(vs: seq<real>, d: real)
    requires AllPositive(vs)
  {
    && (forall i, j :: 0 <= i <= j < |vs| ==> Decline(vs[i], vs[j]) <= d)
    && (exists i, j :: 0 <= i <= j < |vs| && Decline(vs[i], vs[j]) == d)
  }

  ghost predicate NonDecreasing(vs: seq<real>) {
    forall i, j :: 0 <= i <= j < |vs| ==> vs[i] <= vs[j]
  }

  lemma DeclineTimesPeak(peak: real, v: real)
    requires peak > 0.0
    ensures Decline(peak, v) * peak == peak - v
  {
  }

  lemma ProductSign(x: real, p: real)
    requires p > 0.0
    ensures x * p > 0.0 <==> x > 0.0
    ensures x * p == 0.0 <==> x == 0.0
  {
  }

  lemma MulMonotone(x: real, y: real, z: real)
    requires x <= y && z >= 0.0
    ensures z * x <= z * y
  {
  }

  lemma MulCancel(x: real, y: real, z: real)
    requires z > 0.0 && x * z <= y * z
    ensures x <= y
  {
  }

  /** The decline from a positive peak is the scan's fall, negated. */
  lemma DeclineIsNegatedFall(peak: real, v: real)
    requires peak > 0.0
    ensures Decline(peak, v) == -Fall(v, peak)
  {
    assert (peak - v) / peak == -((v - peak) / peak);
  }

  /** A later value measured against a higher peak is a deeper decline. */
  lemma DeclineGrowsWithPeak(a: real, b: real, v: real)
    requires 0.0 < a <= b && v > 0.0
    ensures Decline(a, v) <= Decline(b, v)
  {
    DeclineTimesPeak(a, v);
    DeclineTimesPeak(b, v);
    // the retained fractions ea = 1 - Decline(a, v) and eb = 1 - Decline(b, v)
    var ea, eb := 1.0 - Decline(a, v), 1.0 - Decline(b, v);
    assert ea * a == v;
    assert eb * b == v;
    ProductSign(eb, b);
    MulMonotone(a, b, eb);
    assert eb * a <= v;
    assert v <= ea * a;
    MulCancel(eb, ea, a);
  }

  lemma DeclineBelowOne(peak: real, v: real)
    requires peak > 0.0 && v > 0.0
    ensures Decline(peak, v) < 1.0
  {
    DeclineTimesPeak(peak, v);
    assert (1.0 - Decline(peak, v)) * peak == v;
    ProductSign(1.0 - Decline(peak, v), peak);
  }

  lemma DeclineSign(peak: real, v: real)
    requires peak > 0.0
    ensures Decline(peak, v) <= 0.0 <==> peak <= v
    ensures Decline(peak, v) == 0.0 <==> peak == v
  {
    DeclineTimesPeak(peak, v);
    ProductSign(Decline(peak, v), peak);
  }

  /** A decline ending at the last value is at most the fall the scan
      records for that value. */
  lemma DeclineToLastBounded(vs: seq<real>, i: nat)
    requires i < |vs| && AllPositive(vs)
    ensures Decline(vs[i], Last(vs)) <= -Fall(Last(vs), RunningPeak(vs))
  {
    var peak := RunningPeak(vs);
    DeclineIsNegatedFall(peak, Last(vs));
    DeclineGrowsWithPeak(vs[i], peak, Last(vs));
  }

  /** Extending the values `p` by one keeps every decline within the scan's
      result, given that the declines of `p` were within the result for `p`. */
  lemma DeclinesBoundedStep(vs: seq<real>, p: seq<real>)
    requires |vs| > 1 && AllPositive(vs) && p == vs[..|vs| - 1]
    requires forall i, j :: 0 <= i <= j < |p| ==> Decline(p[i], p[j]) <= -DeepestFall(p)
    ensures forall i, j :: 0 <= i <= j < |vs| ==> Decline(vs[i], vs[j]) <= -DeepestFall(vs)
  {
    var n := |vs|;
    assert DeepestFall(vs) <= Fall(Last(vs), RunningPeak(vs)) && DeepestFall(vs) <= DeepestFall(p);
    forall i, j | 0 <= i <= j < n
      ensures Decline(vs[i], vs[j]) <= -DeepestFall(vs)
    {
      if j < n - 1 {
        assert vs[i] == p[i] && vs[j] == p[j];
      } else {
        DeclineToLastBounded(vs, i);
      }
    }
  }

  /** The scan's result after one more value is attained by some pair. */
  lemma DeclineAttainedStep(vs: seq<real>, p: seq<real>)
    requires |vs| > 1 && AllPositive(vs) && p == vs[..|vs| - 1]
    requires exists i, j :: 0 <= i <= j < |p| && Decline(p[i], p[j]) == -DeepestFall(p)
    ensures exists i, j :: 0 <= i <= j < |vs| && Decline(vs[i], vs[j]) == -DeepestFall(vs)
  {
    var n := |vs|;
    var peak := RunningPeak(vs);
    var f := Fall(Last(vs), peak);
    if f < DeepestFall(p) {
      assert DeepestFall(vs) == f;
      var k :| 0 <= k < n && vs[k] == peak;
      DeclineIsNegatedFall(peak, vs[n - 1]);
      assert Decline(vs[k], vs[n - 1]) == -DeepestFall(vs);
    } else {
      assert DeepestFall(vs) == DeepestFall(p);
      var i, j :| 0 <= i <= j < |p| && Decline(p[i], p[j]) == -DeepestFall(p);
      assert p[i] == vs[i] && p[j] == vs[j];
      assert Decline(vs[i], vs[j]) == -DeepestFall(vs);
    }
  }

  /** For positive values the scan computes the largest decline from an
      earlier value to a later one: `[100, 80, 120]` gives the fall from 100
      to 80. */
  lemma {:induction false} MaxDrawdownIsLargestDecline(vs: seq<real>)
    requires |vs| > 0 && AllPositive(vs)
    ensures MaxDrawdown(vs).Some?
    ensures IsLargestDecline(vs, MaxDrawdown(vs).value)
    ensures MaxDrawdown(vs).value == -DeepestFall(vs)
  {
    if |vs| == 1 {
      assert Decline(vs[0], vs[0]) == 0.0;
    } else {
      var p := vs[..|vs| - 1];
      assert AllPositive(p);
      MaxDrawdownIsLargestDecline(p);
      DeclinesBoundedStep(vs, p);
      DeclineAttainedStep(vs, p);
    }
    assert MaxDrawdown(vs).value == -DeepestFall(vs);
  }

  /** For positive values the drawdown is a fraction strictly below 1. */
  lemma MaxDrawdownBelowOne(vs: seq<real>)
    requires |vs| > 0 && AllPositive(vs)
    ensures 0.0 <= MaxDrawdown(vs).value < 1.0
  {
    MaxDrawdownIsLargestDecline(vs);
    var i, j :| 0 <= i <= j < |vs| && Decline(vs[i], vs[j]) == MaxDrawdown(vs).value;
    DeclineBelowOne(vs[i], vs[j]);
  }

  /** For positive values the drawdown is exactly 0 iff the values never fall. */
  lemma MaxDrawdownZeroIffNonDecreasing(vs: seq<real>)
    requires |vs| > 0 && AllPositive(vs)
    ensures MaxDrawdown(vs) == Some(0.0) <==> NonDecreasing(vs)
  {
    MaxDrawdownIsLargestDecline(vs);
    var d := MaxDrawdown(vs).value;
    if d == 0.0 {
      forall i, j | 0 <= i <= j < |vs|
        ensures vs[i] <= vs[j]
      {
        DeclineSign(vs[i], vs[j]);
      }
    } else {
      var i, j :| 0 <= i <= j < |vs| && Decline(vs[i], vs[j]) == d;
      DeclineSign(vs[i], vs[j]);
    }
  }

  /** A worked case: from 100 down to 80 and up to 120 is a 20% drawdown. */
  lemma MaxDrawdownExample()
    ensures MaxDrawdown([100.0, 80.0, 120.0]) == Some(0.2)
  {
    var vs := [100.0, 80.0, 120.0];
    assert vs[..2] == [100.0, 80.0] && vs[..2][..1] == [100.0];
    assert RunningPeak([100.0]) == 100.0;
    assert RunningPeak([100.0, 80.0]) == 100.0;
    assert RunningPeak(vs) == 120.0;
    assert DeepestFall([100.0]) == 0.0;
    assert Fall(80.0, 100.0) == -0.2;
    assert DeepestFall([100.0, 80.0]) == -0.2;
    assert Fall(120.0, 120.0) == 0.0;
    assert DeepestFall(vs) == -0.2;
  }
}
