/**
 * Peak picking over a spectrum given as a function from grid points to
 * intensities: the box-neighbourhood test of `is_local_maxima`, the staged
 * 1D -> ND use of it, and the sequential scan of `find_peaks_per_node`,
 * each as a function, with the properties the scan's output has.
 */
module PeakPick {

  function Abs(x: real): real
  {
    if x < 0.0 then -x else x
  }

  function Min(a: real, b: real): real
  {
    if a <= b then a else b
  }

  /** `range(lo, hi)`. */
  function Range(lo: int, hi: int): (r: seq<int>)
    ensures |r| == if lo < hi then hi - lo else 0
    decreases hi - lo
  {
    if lo >= hi then [] else [lo] + Range(lo + 1, hi)
  }

  lemma {:induction false} RangeMember(lo: int, hi: int, x: int)
    ensures x in Range(lo, hi) <==> lo <= x < hi
    decreases hi - lo
  {
    if lo < hi {
      RangeMember(lo + 1, hi, x);
    }
  }

  function PrependEach(x: int, tails: seq<seq<int>>): seq<seq<int>>
  {
    seq(|tails|, k requires 0 <= k < |tails| => [x] + tails[k])
  }

  function CartesianFrom(xs: seq<int>, tails: seq<seq<int>>): seq<seq<int>>
  {
    if xs == [] then [] else PrependEach(xs[0], tails) + CartesianFrom(xs[1..], tails)
  }

  /** `itertools.product(*ranges)`: the first axis varies slowest. */
  function Cartesian(ranges: seq<seq<int>>): seq<seq<int>>
    decreases |ranges|
  {
    if |ranges| == 0 then [[]] else CartesianFrom(ranges[0], Cartesian(ranges[1..]))
  }

  lemma {:induction false} CartesianFromMember(xs: seq<int>, tails: seq<seq<int>>, p: seq<int>)
    ensures p in CartesianFrom(xs, tails) <==> |p| > 0 && p[0] in xs && p[1..] in tails
  {
    if xs != [] {
      CartesianFromMember(xs[1..], tails, p);
      if |p| > 0 && p[0] == xs[0] && p[1..] in tails {
        var k :| 0 <= k < |tails| && tails[k] == p[1..];
        assert PrependEach(xs[0], tails)[k] == p;
      }
    }
  }

  lemma {:induction false} CartesianMember(ranges: seq<seq<int>>, p: seq<int>)
    ensures p in Cartesian(ranges) <==> |p| == |ranges| && forall i :: 0 <= i < |ranges| ==> p[i] in ranges[i]
    decreases |ranges|
  {
    if |ranges| > 0 {
      CartesianFromMember(ranges[0], Cartesian(ranges[1..]), p);
      if |p| > 0 {
        CartesianMember(ranges[1..], p[1..]);
        if |p| == |ranges| && forall i :: 0 <= i < |ranges| ==> p[i] in ranges[i] {
          assert forall i :: 0 <= i < |ranges| - 1 ==> p[1..][i] in ranges[1..][i] by {
            forall i | 0 <= i < |ranges| - 1
              ensures p[1..][i] in ranges[1..][i]
            {
              assert p[1..][i] == p[i + 1];
            }
          }
        }
        if p in Cartesian(ranges) {
          forall i | 0 <= i < |ranges|
            ensures p[i] in ranges[i]
          {
            if i > 0 {
              assert p[i] == p[1..][i - 1];
            }
          }
        }
      }
    }
  }

  /** q lies in the box of half-widths `buffers` around `pt`. */
  predicate InBox(q: seq<int>, pt: seq<int>, buffers: seq<int>)
    requires |buffers| >= |pt|
  {
    |q| == |pt| && forall i :: 0 <= i < |pt| ==> pt[i] - buffers[i] <= q[i] <= pt[i] + buffers[i]
  }

  /** A box with a point besides its centre: no buffer negative and at least one positive. */
  predicate NeighbourBox(pt: seq<int>, buffers: seq<int>)
    requires |buffers| >= |pt|
  {
    && (forall i :: 0 <= i < |pt| ==> buffers[i] >= 0)
    && exists i :: 0 <= i < |pt| && buffers[i] > 0
  }

  /** The box holds a point other than its centre exactly when it is a `NeighbourBox`. */
  lemma NeighbourBoxExact(pt: seq<int>, buffers: seq<int>)
    requires |buffers| >= |pt|
    ensures NeighbourBox(pt, buffers) <==> exists q :: InBox(q, pt, buffers) && q != pt
  {
    if NeighbourBox(pt, buffers) {
      var k :| 0 <= k < |pt| && buffers[k] > 0;
      var q := pt[k := pt[k] + 1];
      assert InBox(q, pt, buffers) && q[k] != pt[k];
    }
    if q :| InBox(q, pt, buffers) && q != pt {
      forall i | 0 <= i < |pt|
        ensures buffers[i] >= 0
      {
        assert pt[i] - buffers[i] <= q[i] <= pt[i] + buffers[i];
      }
      var k :| 0 <= k < |pt| && q[k] != pt[k];
      assert pt[k] - buffers[k] <= q[k] <= pt[k] + buffers[k];
    }
  }

  /** The points `is_local_maxima` visits, in the order it visits them. */
  function BoxPoints(pt: seq<int>, buffers: seq<int>): seq<seq<int>>
    requires |buffers| >= |pt|
  {
    Cartesian(seq(|pt|, i requires 0 <= i < |pt| => Range(pt[i] - buffers[i], pt[i] + buffers[i] + 1)))
  }

  /** The visited points are exactly the points of the box. */
  lemma BoxPointsMember(pt: seq<int>, buffers: seq<int>, q: seq<int>)
    requires |buffers| >= |pt|
    ensures q in BoxPoints(pt, buffers) <==> InBox(q, pt, buffers)
  {
    var ranges := seq(|pt|, i requires 0 <= i < |pt| => Range(pt[i] - buffers[i], pt[i] + buffers[i] + 1));
    CartesianMember(ranges, q);
    forall i | 0 <= i < |pt| && i < |q|
      ensures q[i] in ranges[i] <==> pt[i] - buffers[i] <= q[i] <= pt[i] + buffers[i]
    {
      RangeMember(pt[i] - buffers[i], pt[i] + buffers[i] + 1, q[i]);
    }
  }

  /**
   * The shoulder rule for one neighbour value n against the centre value c:
   * for positive peaks 0.2 c <= n <= c, for negative peaks the mirror image,
   * for sign 0 the same bounds on magnitudes; other signs reject nothing.
   */
  predicate NeighbourOk(n: real, c: real, sign: int)
  {
    if sign == 1 then 0.2 * c <= n <= c
    else if sign == -1 then c <= n <= 0.2 * c
    else if sign == 0 then 0.2 * Abs(c) <= Abs(n) <= Abs(c)
    else true
  }

  /** `x * sign < 0`: x lies on the wrong side of zero for a peak of this sign. */
  predicate WrongSide(x: real, sign: int)
  {
    (sign > 0 && x < 0.0) || (sign < 0 && x > 0.0)
  }

  lemma WrongSideProduct(x: real, sign: int)
    ensures x * sign as real < 0.0 <==> WrongSide(x, sign)
  {
    var s := sign as real;
    if sign > 0 {
      assert s >= 1.0;
      assert x < 0.0 ==> x * s <= x;
      assert x >= 0.0 ==> x * s >= 0.0;
    } else if sign < 0 {
      assert s <= -1.0;
      assert x > 0.0 ==> x * s <= -x;
      assert x <= 0.0 ==> x * s >= 0.0;
    }
  }

  /** The verdict of `is_local_maxima` with centre value c. */
  ghost predicate LocalMaxima(g: seq<int> -> real, pt: seq<int>, buffers: seq<int>, sign: int, c: real)
    requires |buffers| >= |pt|
  {
    && !WrongSide(c, sign)
    && forall q :: InBox(q, pt, buffers) && q != pt ==> NeighbourOk(g(q), c, sign)
  }

  /** `grid_buffers[0:1+j] + zl[4-ndim+j]`: the first j+1 buffers, then zeros. */
  function StageBuffers(buffers: seq<int>, j: nat): (r: seq<int>)
    requires j < |buffers|
    ensures |r| == |buffers|
  {
    buffers[..j + 1] + seq(|buffers| - 1 - j, _ => 0)
  }

  /** The staged calls from stage j on: each must accept, stopping at the first refusal. */
  ghost predicate StagedFrom(g: seq<int> -> real, pt: seq<int>, buffers: seq<int>, sign: int, c: real, j: nat)
    requires |buffers| == |pt|
    decreases |pt| - j
  {
    j >= |pt| || (LocalMaxima(g, pt, StageBuffers(buffers, j), sign, c) && StagedFrom(g, pt, buffers, sign, c, j + 1))
  }

  lemma StageBoxInFullBox(pt: seq<int>, buffers: seq<int>, j: nat, q: seq<int>)
    requires |buffers| == |pt| && j < |pt|
    requires forall i :: 0 <= i < |buffers| ==> buffers[i] >= 0
    ensures InBox(q, pt, StageBuffers(buffers, j)) ==> InBox(q, pt, buffers)
  {
    var sb := StageBuffers(buffers, j);
    assert forall i :: 0 <= i < |pt| ==> 0 <= sb[i] <= buffers[i] by {
      forall i | 0 <= i < |pt|
        ensures 0 <= sb[i] <= buffers[i]
      {
        if i <= j {
          assert sb[i] == buffers[i];
        } else {
          assert sb[i] == 0;
        }
      }
    }
  }

  lemma {:induction false} FullImpliesStaged(g: seq<int> -> real, pt: seq<int>, buffers: seq<int>, sign: int, c: real, j: nat)
    requires |buffers| == |pt|
    requires forall i :: 0 <= i < |buffers| ==> buffers[i] >= 0
    requires LocalMaxima(g, pt, buffers, sign, c)
    ensures StagedFrom(g, pt, buffers, sign, c, j)
    decreases |pt| - j
  {
    if j < |pt| {
      forall q | InBox(q, pt, StageBuffers(buffers, j)) && q != pt
        ensures NeighbourOk(g(q), c, sign)
      {
        StageBoxInFullBox(pt, buffers, j, q);
      }
      FullImpliesStaged(g, pt, buffers, sign, c, j + 1);
    }
  }

  lemma {:induction false} StagedImpliesLast(g: seq<int> -> real, pt: seq<int>, buffers: seq<int>, sign: int, c: real, j: nat)
    requires |buffers| == |pt| && j < |pt|
    requires StagedFrom(g, pt, buffers, sign, c, j)
    ensures LocalMaxima(g, pt, StageBuffers(buffers, |pt| - 1), sign, c)
    decreases |pt| - j
  {
    if j < |pt| - 1 {
      StagedImpliesLast(g, pt, buffers, sign, c, j + 1);
    }
  }

  /**
   * The staged calls with buffers widened one axis at a time accept exactly
   * when the single call with the full box accepts (buffers non-negative).
   */
  lemma StagedIffFull(g: seq<int> -> real, pt: seq<int>, buffers: seq<int>, sign: int, c: real)
    requires |buffers| == |pt| > 0
    requires forall i :: 0 <= i < |buffers| ==> buffers[i] >= 0
    ensures StagedFrom(g, pt, buffers, sign, c, 0) <==> LocalMaxima(g, pt, buffers, sign, c)
  {
    assert StageBuffers(buffers, |pt| - 1) == buffers;
    if StagedFrom(g, pt, buffers, sign, c, 0) {
      StagedImpliesLast(g, pt, buffers, sign, c, 0);
    }
    if LocalMaxima(g, pt, buffers, sign, c) {
      FullImpliesStaged(g, pt, buffers, sign, c, 0);
    }
  }

  /** The loop-carried state of `find_peaks_per_node`, plus the input positions of the peaks. */
  datatype ScanState = ScanState(
    peaks: seq<seq<int>>,
    heights: seq<real>,
    at: seq<nat>,
    prev: seq<int>,
    tf: bool,
    minHeight: real)

  /** The fixed arguments of a scan: noise level, buffers, sign and `self.max_count`. */
  datatype ScanParams = ScanParams(noise: real, buffers: seq<int>, sign: int, maxCount: int)

  /** Sum of |a[j] - b[j]| over the axes both points have. */
  function Manhattan(a: seq<int>, b: seq<int>): int
  {
    if a == [] || b == [] then 0
    else (if a[0] >= b[0] then a[0] - b[0] else b[0] - a[0]) + Manhattan(a[1..], b[1..])
  }

  function Sum(s: seq<int>): int
  {
    if s == [] then 0 else s[0] + Sum(s[1..])
  }

  /** Extending two points by one coordinate adds that coordinate's distance. */
  lemma {:induction false} ManhattanSnoc(a: seq<int>, b: seq<int>, x: int, y: int)
    requires |a| == |b|
    ensures Manhattan(a + [x], b + [y]) == Manhattan(a, b) + (if x >= y then x - y else y - x)
  {
    if a != [] {
      assert (a + [x])[1..] == a[1..] + [x];
      assert (b + [y])[1..] == b[1..] + [y];
      ManhattanSnoc(a[1..], b[1..], x, y);
    }
  }

  /** The sign filter a candidate must pass before the neighbourhood test. */
  predicate SignRejects(v: real, noise: real, sign: int)
  {
    (v < noise && sign == 1) || (v > noise && sign == -1) || WrongSide(v, sign)
  }

  /**
   * One iteration of the scan on candidate number i: the adjacency skip
   * while the last tested candidate was accepted, the noise filter, the
   * `max_count` filter, the sign filter, then the staged neighbourhood test.
   * `min_heights[pnum]` is lowered to |noise_level|, not to the height.
   */
  ghost function Step(g: seq<int> -> real, st: ScanState, i: nat, pt: seq<int>, p: ScanParams): ScanState
    requires |pt| == |p.buffers|
  {
    if st.tf && Manhattan(st.prev, pt) < Sum(p.buffers) then st
    else
      var v := g(pt);
      if Abs(v) < Abs(p.noise) then st
      else if |st.peaks| > p.maxCount && Abs(v) < st.minHeight then st
      else if SignRejects(v, p.noise, p.sign) then st
      else if StagedFrom(g, pt, p.buffers, p.sign, v, 0) then
        ScanState(st.peaks + [pt], st.heights + [v], st.at + [i], pt, true, Min(st.minHeight, Abs(p.noise)))
      else st.(tf := false)
  }

  predicate PointsFit(pts: seq<seq<int>>, n: nat)
  {
    forall i :: 0 <= i < |pts| ==> |pts[i]| == n
  }

  /** Before the first candidate: no peaks, `prev_grid_pt` all -2, `tf` false. */
  function InitialState(pts: seq<seq<int>>, minHeight: real): ScanState
  {
    ScanState([], [], [], seq(|pts|, _ => -2), false, minHeight)
  }

  /** The state after the first k candidates. */
  ghost function ScanUpTo(g: seq<int> -> real, pts: seq<seq<int>>, k: nat, p: ScanParams, minHeight: real): ScanState
    requires k <= |pts| && PointsFit(pts, |p.buffers|)
  {
    if k == 0 then InitialState(pts, minHeight)
    else Step(g, ScanUpTo(g, pts, k - 1, p, minHeight), k - 1, pts[k - 1], p)
  }

  /** The scan from candidate i on, starting in state st. */
  ghost function ScanFrom(g: seq<int> -> real, pts: seq<seq<int>>, i: nat, p: ScanParams, st: ScanState): ScanState
    requires i <= |pts| && PointsFit(pts, |p.buffers|)
    decreases |pts| - i
  {
    if i == |pts| then st else ScanFrom(g, pts, i + 1, p, Step(g, st, i, pts[i], p))
  }

  /** Running the rest of the scan on the state after k candidates gives the state after all of them. */
  lemma {:induction false} ScanFromUpTo(g: seq<int> -> real, pts: seq<seq<int>>, k: nat, p: ScanParams, minHeight: real)
    requires k <= |pts| && PointsFit(pts, |p.buffers|)
    ensures ScanFrom(g, pts, k, p, ScanUpTo(g, pts, k, p, minHeight)) == ScanUpTo(g, pts, |pts|, p, minHeight)
    decreases |pts| - k
  {
    if k < |pts| {
      ScanFromUpTo(g, pts, k + 1, p, minHeight);
    }
  }

  /** What the scan promises about one reported peak and its height. */
  ghost predicate PeakOk(g: seq<int> -> real, pt: seq<int>, h: real, p: ScanParams)
  {
    && |pt| == |p.buffers|
    && h == g(pt)
    && Abs(h) >= Abs(p.noise)
    && !WrongSide(h, p.sign)
    && (p.sign == 1 ==> h >= p.noise)
    && (p.sign == -1 ==> h <= p.noise)
    && StagedFrom(g, pt, p.buffers, p.sign, h, 0)
  }

  ghost predicate ScanOutputOk(g: seq<int> -> real, pts: seq<seq<int>>, k: nat, p: ScanParams, minHeight: real, st: ScanState)
  {
    && |st.peaks| == |st.heights| == |st.at|
    && (forall m :: 0 <= m < |st.at| ==> st.at[m] < k <= |pts| && st.peaks[m] == pts[st.at[m]])
    && (forall m, m' :: 0 <= m < m' < |st.at| ==> st.at[m] < st.at[m'])
    && (forall m :: 0 <= m < |st.peaks| ==> PeakOk(g, st.peaks[m], st.heights[m], p))
    && (st.tf ==> |st.peaks| > 0 && st.prev == st.peaks[|st.peaks| - 1])
    && (|st.peaks| > 0 ==> st.minHeight == Min(minHeight, Abs(p.noise)))
    && (|st.peaks| == 0 ==> st.minHeight == minHeight)
  }

  /** One more candidate keeps what the scan promises about its output. */
  lemma StepOutput(g: seq<int> -> real, pts: seq<seq<int>>, k: nat, p: ScanParams, minHeight: real, st: ScanState)
    requires 0 < k <= |pts| && PointsFit(pts, |p.buffers|)
    requires ScanOutputOk(g, pts, k - 1, p, minHeight, st)
    ensures ScanOutputOk(g, pts, k, p, minHeight, Step(g, st, k - 1, pts[k - 1], p))
  {
    var pt := pts[k - 1];
    var st' := Step(g, st, k - 1, pt, p);
    if st'.peaks != st.peaks {
      var v := g(pt);
      assert st' == ScanState(st.peaks + [pt], st.heights + [v], st.at + [k - 1], pt, true, Min(st.minHeight, Abs(p.noise)));
      assert PeakOk(g, pt, v, p);
      var n := |st.peaks|;
      assert forall m :: 0 <= m < n ==> st'.peaks[m] == st.peaks[m] && st'.heights[m] == st.heights[m] && st'.at[m] == st.at[m];
      assert st'.peaks[n] == pt && st'.heights[n] == v && st'.at[n] == k - 1;
    } else {
      assert st'.heights == st.heights && st'.at == st.at && st'.minHeight == st.minHeight;
      assert st'.tf ==> st.tf && st'.prev == st.prev;
    }
  }

  /**
   * The peaks are a subsequence of the candidates in input order, each
   * height is the grid value of its peak and passes the noise and sign
   * filters and the staged test, `tf` means the last peak is `prev_grid_pt`,
   * and `min_heights[pnum]` ends at min(start, |noise_level|) once a peak
   * was found.
   */
  lemma {:induction false} ScanOutput(g: seq<int> -> real, pts: seq<seq<int>>, k: nat, p: ScanParams, minHeight: real)
    requires k <= |pts| && PointsFit(pts, |p.buffers|)
    ensures ScanOutputOk(g, pts, k, p, minHeight, ScanUpTo(g, pts, k, p, minHeight))
  {
    if k > 0 {
      ScanOutput(g, pts, k - 1, p, minHeight);
      StepOutput(g, pts, k, p, minHeight, ScanUpTo(g, pts, k - 1, p, minHeight));
    }
  }

  /** Every reported peak passes the single full-box test (buffers non-negative). */
  lemma ScanPeaksAreLocalMaxima(g: seq<int> -> real, pts: seq<seq<int>>, p: ScanParams, minHeight: real, m: nat)
    requires PointsFit(pts, |p.buffers|) && |p.buffers| > 0
    requires forall i :: 0 <= i < |p.buffers| ==> p.buffers[i] >= 0
    requires m < |ScanUpTo(g, pts, |pts|, p, minHeight).peaks|
    ensures var st := ScanUpTo(g, pts, |pts|, p, minHeight);
      && m < |st.heights| && |st.peaks[m]| == |p.buffers|
      && LocalMaxima(g, st.peaks[m], p.buffers, p.sign, st.heights[m])
  {
    ScanOutput(g, pts, |pts|, p, minHeight);
    var st := ScanUpTo(g, pts, |pts|, p, minHeight);
    StagedIffFull(g, st.peaks[m], p.buffers, p.sign, st.heights[m]);
  }

  /**
   * While the last tested candidate was accepted, a candidate closer to it
   * than sum(grid_buffers) is skipped whatever the spectrum holds there:
   * the step is the same for any two spectra and changes nothing.
   */
  lemma AdjacentSkipped(g1: seq<int> -> real, g2: seq<int> -> real, st: ScanState, i: nat, pt: seq<int>, p: ScanParams)
    requires |pt| == |p.buffers|
    requires st.tf && Manhattan(st.prev, pt) < Sum(p.buffers)
    ensures Step(g1, st, i, pt, p) == st == Step(g2, st, i, pt, p)
  {
  }

  /**
   * The `max_count` filter never skips anything when `max_count` is not
   * negative: `min_heights[pnum]` is at most |noise_level| once a peak is
   * found, and the noise filter already skipped every candidate below it.
   * So the scan is the same for any two such limits.
   */
  lemma {:induction false} MaxCountIrrelevant(g: seq<int> -> real, pts: seq<seq<int>>, k: nat, p: ScanParams, maxCount: int, minHeight: real)
    requires k <= |pts| && PointsFit(pts, |p.buffers|)
    requires p.maxCount >= 0 && maxCount >= 0
    ensures ScanUpTo(g, pts, k, p, minHeight) == ScanUpTo(g, pts, k, p.(maxCount := maxCount), minHeight)
  {
    if k > 0 {
      MaxCountIrrelevant(g, pts, k - 1, p, maxCount, minHeight);
      ScanOutput(g, pts, k - 1, p, minHeight);
    }
  }
}
