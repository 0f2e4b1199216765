/**
 * The three-point parabolic interpolation used to refine a peak position
 * along one axis (`interpolation` and the per-axis step of
 * `get_interpolated_data`).
 */
module Interpolation {

  /** The coefficients of a2*x*x + a1*x + a0. */
  datatype Coefficients = Coefficients(a0: real, a1: real, a2: real)

  /** The parabola through (0, f1), (1, f2) and (2, f3). */
  function Fit(f1: real, f2: real, f3: real): Coefficients
  {
    Coefficients(f1, -1.5 * f1 + 2.0 * f2 - 0.5 * f3, 0.5 * f1 - f2 + 0.5 * f3)
  }

  function Eval(c: Coefficients, x: real): real
  {
    c.a2 * x * x + c.a1 * x + c.a0
  }

  /**
   * `interpolation(f1, f2, f3)`: the position and value of the vertex of
   * the fitted parabola, or (1, f2) when the three points are collinear.
   */
  function Interpolate(f1: real, f2: real, f3: real): (real, real)
  {
    var c := Fit(f1, f2, f3);
    if c.a2 == 0.0 then (1.0, f2)
    else
      var x := -0.5 * c.a1 / c.a2;
      (x, Eval(c, x))
  }

  /**
   * The fitted parabola passes through the three samples; when it is not
   * degenerate, the result is its vertex: the slope vanishes there and every
   * other point differs from the returned value by a2 * (y - x)^2, so the
   * result is the maximum when a2 < 0 and the minimum when a2 > 0.
   */
  lemma InterpolateSpec(f1: real, f2: real, f3: real)
    ensures var c := Fit(f1, f2, f3);
      Eval(c, 0.0) == f1 && Eval(c, 1.0) == f2 && Eval(c, 2.0) == f3
    ensures var c := Fit(f1, f2, f3); var r := Interpolate(f1, f2, f3);
      && (c.a2 == 0.0 ==> r == (1.0, f2))
      && (c.a2 != 0.0 ==>
            && 2.0 * c.a2 * r.0 + c.a1 == 0.0
            && r.1 == Eval(c, r.0)
            && forall y :: Eval(c, y) - r.1 == c.a2 * (y - r.0) * (y - r.0))
  {
    var c := Fit(f1, f2, f3);
    var r := Interpolate(f1, f2, f3);
    if c.a2 != 0.0 {
      var x := r.0;
      assert c.a2 * x == -0.5 * c.a1;
      forall y
        ensures Eval(c, y) - r.1 == c.a2 * (y - x) * (y - x)
      {
        calc {
          Eval(c, y) - r.1;
          c.a2 * (y * y - x * x) + c.a1 * (y - x);
          (y - x) * (c.a2 * y + c.a2 * x + c.a1);
          { assert c.a2 * x + c.a1 == -(c.a2 * x); }
          (y - x) * (c.a2 * y - c.a2 * x);
          c.a2 * (y - x) * (y - x);
        }
      }
    }
  }

  /** Reversing the three samples mirrors the interpolated position about the centre sample. */
  lemma InterpolateMirror(f1: real, f2: real, f3: real)
    requires Fit(f1, f2, f3).a2 != 0.0
    ensures Interpolate(f3, f2, f1).0 == 2.0 - Interpolate(f1, f2, f3).0
  {
    var c, d := Fit(f1, f2, f3), Fit(f3, f2, f1);
    assert d.a2 == c.a2;
    assert d.a1 + c.a1 == -2.0 * f1 + 4.0 * f2 - 2.0 * f3 == -4.0 * c.a2;
    calc {
      Interpolate(f3, f2, f1).0 + Interpolate(f1, f2, f3).0;
      -0.5 * d.a1 / c.a2 + -0.5 * c.a1 / c.a2;
      -0.5 * (d.a1 + c.a1) / c.a2;
      2.0;
    }
  }

  /**
   * Equal neighbours put the vertex on the centre sample: the position is 1
   * and the value is the centre value, whether or not the parabola is
   * degenerate.
   */
  lemma InterpolateSymmetric(f1: real, f2: real)
    ensures Interpolate(f1, f2, f1) == (1.0, f2)
  {
    InterpolateSpec(f1, f2, f1);
    if Fit(f1, f2, f1).a2 != 0.0 {
      InterpolateMirror(f1, f2, f1);
    }
  }

  /**
   * The per-axis step of `get_interpolated_data`: an interpolated position
   * outside [0, 2] is an extrapolation and falls back to the centre sample.
   */
  function InterpolateAxis(d1: real, d2: real, d3: real): (r: (real, real))
    ensures 0.0 <= r.0 <= 2.0
    ensures r == Interpolate(d1, d2, d3) || r == (1.0, d2)
  {
    var (pos, value) := Interpolate(d1, d2, d3);
    if pos < 0.0 || pos > 2.0 then (1.0, d2) else (pos, value)
  }

  /**
   * At a strict local maximum along the axis the interpolated position lies
   * strictly between the two neighbours, is kept, and its value is at least
   * the centre sample.
   */
  lemma InterpolateAtMaximum(d1: real, d2: real, d3: real)
    requires d2 > d1 && d2 > d3
    ensures var r := InterpolateAxis(d1, d2, d3);
      && 0.0 < r.0 < 2.0
      && r == Interpolate(d1, d2, d3)
      && r.1 >= d2
  {
    var c := Fit(d1, d2, d3);
    assert c.a2 < 0.0;
    assert c.a1 == 1.5 * (d2 - d1) + 0.5 * (d2 - d3) > 0.0;
    var x := -0.5 * c.a1 / c.a2;
    assert x * c.a2 == -0.5 * c.a1;
    assert x > 0.0;
    assert 0.5 * c.a1 + 2.0 * c.a2 == 0.25 * (d1 - d2) + 0.75 * (d3 - d2) < 0.0;
    var p := -(0.5 * c.a1 + 2.0 * c.a2);
    var y := x - 2.0;
    assert y * c.a2 == p > 0.0;
    assert y < 0.0;
    InterpolateSpec(d1, d2, d3);
    assert Eval(c, 1.0) - Interpolate(d1, d2, d3).1 == c.a2 * (1.0 - x) * (1.0 - x);
    assert (1.0 - x) * (1.0 - x) >= 0.0;
  }
}
