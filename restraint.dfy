/**
 * The grid restraint (`shift_restraint_to_grid_restraint`):
 * one set of grid positions per axis. An axis with restraint centres gets
 * the union of the windows of +-buffer positions around them, an axis
 * without any its whole range. The centres are
 * the grid positions `shift_to_grid` gives the restraint's shifts.
 */
module Restraint {
  import opened Wrappers
  import opened UcsfHeader
  import opened Shifts
  import opened PeakPick

  /** The integers of `range(lo, hi)`, as a set. */
  function RangeSet(lo: int, hi: int): set<int>
  {
    set x | x in Range(lo, hi)
  }

  /** Extending a range by its next integer adds exactly that integer. */
  lemma RangeSetSnoc(lo: int, hi: int)
    requires lo <= hi
    ensures RangeSet(lo, hi + 1) == RangeSet(lo, hi) + {hi}
  {
    forall x
      ensures x in RangeSet(lo, hi + 1) <==> x in RangeSet(lo, hi) || x == hi
    {
      RangeMember(lo, hi + 1, x);
      RangeMember(lo, hi, x);
    }
  }

  /** `range(n)`: the positions of an axis of n points. */
  function FullRange(n: nat): set<int>
  {
    RangeSet(0, n)
  }

  /** `range(c - b, c + b + 1)`: the window of buffer b around centre c. */
  function Window(c: int, b: int): set<int>
  {
    RangeSet(c - b, c + b + 1)
  }

  /** The union of the windows around the centres, built centre by centre. */
  function Windows(cs: seq<int>, b: int): set<int>
  {
    if cs == [] then {} else Windows(cs[..|cs| - 1], b) + Window(cs[|cs| - 1], b)
  }

  /** A position is in the union exactly when it is within b of some centre. */
  lemma {:induction false} WindowsMember(cs: seq<int>, b: int, x: int)
    ensures x in Windows(cs, b) <==> exists k :: 0 <= k < |cs| && cs[k] - b <= x <= cs[k] + b
  {
    if cs != [] {
      var n := |cs| - 1;
      WindowsMember(cs[..n], b, x);
      if x in Windows(cs[..n], b) {
        var k :| 0 <= k < n && cs[..n][k] - b <= x <= cs[..n][k] + b;
        assert cs[k] == cs[..n][k];
      }
      RangeMember(cs[n] - b, cs[n] + b + 1, x);
      if exists k :: 0 <= k < |cs| && cs[k] - b <= x <= cs[k] + b {
        var k :| 0 <= k < |cs| && cs[k] - b <= x <= cs[k] + b;
        if k < n {
          assert cs[..n][k] == cs[k];
        }
      }
    }
  }

  /**
   * The grid positions of one axis's restraint shifts (`shift_to_grid` on
   * each). A zero SpecWidth makes the conversion divide by zero, which
   * raises as soon as the list has a shift to convert (None).
   */
  function Centres(ah: AxisHeader, unpack: FloatDecode, shifts: seq<real>): (r: Option<seq<int>>)
    requires Usable(ah)
    ensures r.Some? ==> |r.value| == |shifts|
  {
    if shifts == [] then Some([])
    else if IsFloatZero(ah.specWidth) then None
    else Some(seq(|shifts|, k requires 0 <= k < |shifts| => ShiftToGrid(ah, unpack, shifts[k]).value))
  }

  /** Each centre is the grid position `shift_to_grid` gives its shift. */
  lemma CentresSpec(ah: AxisHeader, unpack: FloatDecode, shifts: seq<real>)
    requires Usable(ah)
    ensures Centres(ah, unpack, shifts).None? <==> shifts != [] && IsFloatZero(ah.specWidth)
    ensures Centres(ah, unpack, shifts).Some? ==>
      forall k :: 0 <= k < |shifts| ==> ShiftToGrid(ah, unpack, shifts[k]) == Some(Centres(ah, unpack, shifts).value[k])
  {
  }

  /** Axis i is converted, and its conversion divides by zero. */
  predicate RaisesAt(axes: seq<AxisHeader>, restraint: seq<seq<real>>, i: int)
  {
    0 <= i < |axes| && i < |restraint| && restraint[i] != [] && IsFloatZero(axes[i].specWidth)
  }

  /** The buffers the restrained axes need. */
  predicate BuffersCover(axes: seq<AxisHeader>, restraint: seq<seq<real>>, buffers: seq<int>)
  {
    forall i :: 0 <= i < |axes| && i < |restraint| && restraint[i] != [] ==> i < |buffers|
  }

  /** The result of `shift_restraint_to_grid_restraint`. */
  datatype Outcome =
    | Unrestrained                   // no shift restraint: None
    | Restricted(grid: seq<set<int>>) // one set of grid positions per axis
    | DivisionByZero                 // a restrained axis has a zero SpecWidth

  /** The set of grid positions the restraint gives axis i. */
  function AxisRestraint(axes: seq<AxisHeader>, unpack: FloatDecode, restraint: seq<seq<real>>, buffers: seq<int>, i: nat): set<int>
    requires i < |axes| && Usable(axes[i]) && !RaisesAt(axes, restraint, i)
    requires i < |restraint| && restraint[i] != [] ==> i < |buffers|
  {
    if i < |restraint| && restraint[i] != [] then Windows(Centres(axes[i], unpack, restraint[i]).value, buffers[i])
    else FullRange(axes[i].dataPointCount)
  }

  /** `shift_restraint_to_grid_restraint` over the given axes. */
  function GridRestraint(axes: seq<AxisHeader>, unpack: FloatDecode, restraint: Option<seq<seq<real>>>, buffers: seq<int>): Outcome
    requires forall k :: 0 <= k < |axes| ==> Usable(axes[k])
    requires restraint.Some? ==> BuffersCover(axes, restraint.value, buffers)
  {
    if restraint.None? then Unrestrained
    else if exists i :: 0 <= i < |axes| && RaisesAt(axes, restraint.value, i) then DivisionByZero
    else Restricted(seq(|axes|, i requires 0 <= i < |axes| => AxisRestraint(axes, unpack, restraint.value, buffers, i)))
  }

  /**
   * Without a restraint there is none; with one, a zero SpecWidth on a
   * restrained axis raises, and otherwise there is one set per axis: a
   * restrained axis holds exactly the positions within its buffer of the
   * grid position of one of its shifts, any other axis exactly the
   * positions 0 to DataPointCount - 1.
   */
  lemma GridRestraintSpec(axes: seq<AxisHeader>, unpack: FloatDecode, restraint: Option<seq<seq<real>>>, buffers: seq<int>, i: nat, x: int)
    requires forall k :: 0 <= k < |axes| ==> Usable(axes[k])
    requires restraint.Some? ==> BuffersCover(axes, restraint.value, buffers)
    ensures restraint.None? <==> GridRestraint(axes, unpack, restraint, buffers) == Unrestrained
    ensures GridRestraint(axes, unpack, restraint, buffers) == DivisionByZero <==>
      restraint.Some? && exists k :: 0 <= k < |axes| && k < |restraint.value| && restraint.value[k] != [] && IsFloatZero(axes[k].specWidth)
    ensures GridRestraint(axes, unpack, restraint, buffers).Restricted? ==>
      |GridRestraint(axes, unpack, restraint, buffers).grid| == |axes|
    ensures GridRestraint(axes, unpack, restraint, buffers).Restricted? && i < |axes| ==>
      var r := restraint.value;
      var g := GridRestraint(axes, unpack, restraint, buffers).grid;
      && (i < |r| && r[i] != [] ==>
            (x in g[i] <==> exists k :: (0 <= k < |r[i]| &&
               var c := ShiftToGrid(axes[i], unpack, r[i][k]);
               c.Some? && c.value - buffers[i] <= x <= c.value + buffers[i])))
      && (i >= |r| || r[i] == [] ==> (x in g[i] <==> 0 <= x < axes[i].dataPointCount))
  {
    if restraint.Some? && exists k :: 0 <= k < |axes| && k < |restraint.value| && restraint.value[k] != [] && IsFloatZero(axes[k].specWidth) {
      var k :| 0 <= k < |axes| && k < |restraint.value| && restraint.value[k] != [] && IsFloatZero(axes[k].specWidth);
      assert RaisesAt(axes, restraint.value, k);
    }
    if GridRestraint(axes, unpack, restraint, buffers).Restricted? && i < |axes| {
      var r := restraint.value;
      if i < |r| && r[i] != [] {
        assert !RaisesAt(axes, r, i);
        CentresSpec(axes[i], unpack, r[i]);
        var cs := Centres(axes[i], unpack, r[i]).value;
        WindowsMember(cs, buffers[i], x);
      } else {
        RangeMember(0, axes[i].dataPointCount, x);
      }
    }
  }

  /** The innermost loop: every integer of `range(lo, hi)` appended to the list. */
  method AppendRange(acc: seq<int>, lo: int, hi: int) returns (acc': seq<int>)
    ensures (set x | x in acc') == (set x | x in acc) + RangeSet(lo, hi)
  {
    acc' := acc;
    var j := lo;
    while j < hi
      invariant lo <= j && (j <= hi || j == lo)
      invariant (set x | x in acc') == (set x | x in acc) + RangeSet(lo, j)
      decreases hi - j
    {
      assert (set x | x in acc' + [j]) == (set x | x in acc') + {j};
      RangeSetSnoc(lo, j);
      acc' := acc' + [j];
      j := j + 1;
    }
  }

  /**
   * The inner loops of `shift_restraint_to_grid_restraint` for one axis:
   * each shift converted to its grid position (None where that divides by
   * zero), every position of that position's window appended to a list,
   * and the list turned into a set.
   */
  method AxisWindows(ah: AxisHeader, unpack: FloatDecode, shifts: seq<real>, b: int) returns (w: Option<set<int>>)
    requires Usable(ah)
    ensures w.None? <==> Centres(ah, unpack, shifts).None?
    ensures w.Some? ==> w.value == Windows(Centres(ah, unpack, shifts).value, b)
  {
    var acc: seq<int> := [];
    ghost var cs: seq<int> := [];
    for s := 0 to |shifts|
      invariant |cs| == s && (s > 0 ==> !IsFloatZero(ah.specWidth))
      invariant forall k :: 0 <= k < s ==> ShiftToGrid(ah, unpack, shifts[k]) == Some(cs[k])
      invariant (set x | x in acc) == Windows(cs, b)
    {
      var c := ShiftToGrid(ah, unpack, shifts[s]);
      if c.None? {
        return None;
      }
      var idx := c.value;
      acc := AppendRange(acc, idx - b, idx + b + 1);
      assert (cs + [idx])[..|cs|] == cs;
      cs := cs + [idx];
    }
    if shifts != [] {
      assert cs == Centres(ah, unpack, shifts).value;
    }
    w := Some(set x | x in acc);
  }
}
