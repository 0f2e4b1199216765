/**
 * Conversion between chemical shifts (ppm) and grid positions along one
 * axis (`grid_to_shift`, `shift_to_grid`), over exact reals. Grid 0 is the
 * high-ppm edge of the spectrum and each grid step lowers the shift by
 * SpecWidth / DataPointCount / SpecFreq.
 */
module Shifts {
  import opened Wrappers
  import opened UcsfHeader

  /** What `read_axis_header` guarantees of every header it accepts. */
  predicate Usable(ah: AxisHeader)
  {
    ah.dataPointCount > 0 && !IsFloatZero(ah.specFreq)
  }

  /** ppm per grid step. */
  function Step(ah: AxisHeader, unpack: FloatDecode): real
    requires Usable(ah)
  {
    unpack(ah.specWidth) / (ah.dataPointCount as real) / unpack(ah.specFreq)
  }

  /** The shift of grid position 0: Center plus half the spectral width in ppm. */
  function Top(ah: AxisHeader, unpack: FloatDecode): real
    requires Usable(ah)
  {
    unpack(ah.center) + unpack(ah.specWidth) / unpack(ah.specFreq) / 2.0
  }

  /** `grid_to_shift`, for a possibly fractional grid position. */
  function GridToShift(ah: AxisHeader, unpack: FloatDecode, grid: real): real
    requires Usable(ah)
  {
    Top(ah, unpack) - Step(ah, unpack) * grid
  }

  /** Python's `int()` on a float: truncation toward zero. */
  function Trunc(x: real): int
  {
    if x >= 0.0 then x.Floor else -((-x).Floor)
  }

  lemma TruncSpec(x: real)
    ensures x >= 0.0 ==> 0 <= Trunc(x) && Trunc(x) as real <= x < Trunc(x) as real + 1.0
    ensures x < 0.0 ==> Trunc(x) <= 0 && Trunc(x) as real - 1.0 < x <= Trunc(x) as real
  {
  }

  /** For non-negative integers, truncating a real quotient gives the integer quotient. */
  lemma TruncQuotient(n: int, d: int)
    requires d > 0 && n >= 0
    ensures Trunc(n as real / d as real) == n / d
  {
    var q, r := n / d, n % d;
    var f := r as real / d as real;
    assert n as real == q as real * d as real + r as real;
    assert n as real / d as real == q as real + f;
    assert f * d as real == r as real;
    assert 0.0 <= f < 1.0;
  }

  /**
   * `shift_to_grid`: the shift's grid position plus one half, truncated
   * toward zero. A zero SpecWidth makes the step zero and the division fail
   * (None).
   */
  function ShiftToGrid(ah: AxisHeader, unpack: FloatDecode, shift: real): Option<int>
    requires Usable(ah)
  {
    if IsFloatZero(ah.specWidth) then None
    else Some(Trunc((Top(ah, unpack) - shift) / Step(ah, unpack) + 0.5))
  }

  /** The step is zero exactly when SpecWidth is a zero word. */
  lemma StepZero(ah: AxisHeader, unpack: FloatDecode)
    requires Usable(ah)
    ensures Step(ah, unpack) == 0.0 <==> IsFloatZero(ah.specWidth)
    ensures ShiftToGrid(ah, unpack, 0.0).None? <==> IsFloatZero(ah.specWidth)
  {
    var w, f, n := unpack(ah.specWidth), unpack(ah.specFreq), ah.dataPointCount as real;
    assert f != 0.0 && n > 0.0;
    if w != 0.0 {
      assert (w / n) * n == w;
      assert w / n / f * f == w / n;
    }
  }

  /**
   * Converting a grid position to a shift and back returns it for grid
   * positions from 0 up; below 0 the truncation toward zero returns the
   * next position up, because the half-step rounding is only correct for
   * non-negative values.
   */
  lemma GridShiftRoundTrip(ah: AxisHeader, unpack: FloatDecode, grid: int)
    requires Usable(ah) && !IsFloatZero(ah.specWidth)
    ensures ShiftToGrid(ah, unpack, GridToShift(ah, unpack, grid as real))
      == Some(if grid >= 0 then grid else grid + 1)
  {
    StepZero(ah, unpack);
    var s := Step(ah, unpack);
    var g := grid as real;
    assert (Top(ah, unpack) - GridToShift(ah, unpack, g)) == s * g;
    assert s * g / s == g;
    var x := g + 0.5;
    TruncSpec(x);
    if grid >= 0 {
      assert x.Floor == grid;
    } else {
      assert (-x).Floor == -grid - 1;
    }
  }

  /**
   * For a shift at or downfield of half a step above grid 0, the result is
   * the nearest grid position (ties rounding up).
   */
  lemma ShiftToGridNearest(ah: AxisHeader, unpack: FloatDecode, shift: real)
    requires Usable(ah) && !IsFloatZero(ah.specWidth)
    requires (Top(ah, unpack) - shift) / Step(ah, unpack) >= -0.5
    ensures var x := (Top(ah, unpack) - shift) / Step(ah, unpack);
      var r := ShiftToGrid(ah, unpack, shift);
      r.Some? && r.value >= 0 && r.value as real - 0.5 <= x < r.value as real + 0.5
  {
    TruncSpec((Top(ah, unpack) - shift) / Step(ah, unpack) + 0.5);
  }
}
