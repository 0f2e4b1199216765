/**
 * The `ucsfTool` object: a UCSF spectrum file opened for reading, its
 * headers, one most-recently-used tile list per worker process, and the
 * per-worker minimum peak heights of the peak search. Methods update the
 * fields in place and are proved against the value-level functions of
 * TileStore, PeakPick, Filters, Interpolation and Shifts.
 *
 * The file is the byte sequence `data` (what the handles would read); the
 * file system is a map from names to contents handed to `Open`.
 */
module Ucsf {
  import opened Wrappers
  import opened Bytes
  import opened Addressing
  import opened UcsfHeader
  import opened TileStore
  import opened PeakPick
  import opened Filters
  import opened Interpolation
  import Shifts
  import Restraint

  /** The smallest file `ucsf_open` accepts: a file header and two axis headers. */
  const MinFileSize: nat := 180 + 128 * 2

  /** The starting value of every `min_heights` entry, 10**10. */
  const MinHeightStart: real := 10000000000.0

  /**
   * How `ucsf_open` ends: it returns 0, it falls off its end (None), or the
   * exception handler of `read_axis_header` itself raises (a file whose
   * DimCount is 0 leaves its loop variable unbound).
   */
  datatype OpenResult = ReturnedZero | ReturnedNone | Raised

  /** The file `ucsf_open` looks for: the name passed, else the one set before. */
  function OpenName(inFilename: Option<string>, current: string): string
  {
    if inFilename.Some? then inFilename.value else current
  }

  /**
   * `int(float(grid_pt[0]) / fd_divider)` capped at nproc - 1, with
   * fd_divider = DataPointCount of the first axis / nproc: the worker band
   * a point's first coordinate falls in.
   */
  function WorkerSlot(g0: int, dpc0: nat, procs: nat): (s: int)
    requires dpc0 > 0 && procs > 0
    ensures s <= procs - 1
  {
    var t := Shifts.Trunc(g0 as real / (dpc0 as real / procs as real));
    if t < procs - 1 then t else procs - 1
  }

  /**
   * A first coordinate whose worker slot names one of the procs worker
   * lists, stated without the division (see `SlotListedExact`).
   */
  predicate SlotListed(g0: int, dpc0: nat, procs: nat)
    requires dpc0 > 0 && procs > 0
  {
    g0 * procs > -((procs + 1) * dpc0)
  }

  /**
   * The box around pt that `is_local_maxima` reads has a worker list for
   * its lowest first coordinate, pt[0] - buffers[0], whenever it holds a
   * point besides the centre.
   */
  predicate BoxReadable(pt: seq<int>, buffers: seq<int>, dpc0: nat, procs: nat)
    requires 0 < |pt| <= |buffers| && dpc0 > 0 && procs > 0
  {
    NeighbourBox(pt, buffers) ==> SlotListed(pt[0] - buffers[0], dpc0, procs)
  }

  /** Every stage box of the staged test is `BoxReadable`. */
  predicate StagedReadable(pt: seq<int>, buffers: seq<int>, dpc0: nat, procs: nat)
    requires 0 < |pt| == |buffers| && dpc0 > 0 && procs > 0
  {
    forall j :: 0 <= j < |pt| ==> BoxReadable(pt, StageBuffers(buffers, j), dpc0, procs)
  }

  /**
   * The points `get_interpolated_data` reads have worker lists: the lowest
   * first coordinate among them, pt[0] - 1, has one.
   */
  predicate NeighboursReadable(pt: seq<int>, axes: seq<AxisHeader>, procs: nat)
    requires |axes| > 0 && axes[0].dataPointCount > 0 && procs > 0
  {
    |pt| == |axes| && SlotListed(pt[0] - 1, axes[0].dataPointCount, procs)
  }

  /** Python's indexing of a list of `procs` entries with a slot from -procs up. */
  function WorkerIndex(slot: int, procs: nat): (fd: nat)
    requires -(procs as int) <= slot < procs
    ensures fd < procs
  {
    if slot < 0 then slot + procs else slot
  }

  /** g0 / (dpc0 / procs) == g0 * procs / dpc0 over the reals. */
  lemma BandScale(g0: int, dpc0: int, procs: int)
    requires dpc0 > 0 && procs > 0
    ensures g0 as real / (dpc0 as real / procs as real) == (g0 * procs) as real / dpc0 as real
  {
    var a, b, c := g0 as real, dpc0 as real, procs as real;
    assert (a / (b / c)) * (b / c) == a;
    assert (a * c / b) * (b / c) == a;
  }

  /**
   * A point inside the first axis falls in band floor(g0 * nproc / DataPointCount),
   * so the nproc bands split the first axis into nproc consecutive runs.
   */
  lemma WorkerSlotBand(g0: int, dpc0: nat, procs: nat)
    requires dpc0 > 0 && procs > 0 && 0 <= g0 < dpc0
    ensures WorkerSlot(g0, dpc0, procs) == g0 * procs / dpc0
    ensures 0 <= WorkerSlot(g0, dpc0, procs) < procs
  {
    BandScale(g0, dpc0, procs);
    Shifts.TruncQuotient(g0 * procs, dpc0);
    assert procs * dpc0 - g0 * procs == (dpc0 - g0) * procs > 0;
    QuotientBound(g0 * procs, dpc0, procs);
  }

  /** A point no more than one axis length before the first axis still has a worker list. */
  lemma WorkerSlotFloor(g0: int, dpc0: nat, procs: nat)
    requires dpc0 > 0 && procs > 0 && g0 >= -(dpc0 as int)
    ensures WorkerSlot(g0, dpc0, procs) >= -(procs as int)
  {
    BandScale(g0, dpc0, procs);
    var x := (g0 * procs) as real / dpc0 as real;
    var p, d := procs as real, dpc0 as real;
    assert (g0 + dpc0) * procs >= 0;
    assert x * d == (g0 * procs) as real;
    assert (x + p) * d == x * d + p * d == ((g0 + dpc0) * procs) as real;
    assert x + p >= 0.0;
    Shifts.TruncSpec(x);
  }

  /** A point further along the first axis never falls in a lower worker slot. */
  lemma WorkerSlotMonotone(a: int, b: int, dpc0: nat, procs: nat)
    requires dpc0 > 0 && procs > 0 && a <= b
    ensures WorkerSlot(a, dpc0, procs) <= WorkerSlot(b, dpc0, procs)
  {
    var d := dpc0 as real / procs as real;
    assert a as real / d <= b as real / d;
    Shifts.TruncSpec(a as real / d);
    Shifts.TruncSpec(b as real / d);
  }

  /** The worker slot is at least -procs, a valid Python index of the worker lists, exactly for `SlotListed` points. */
  lemma SlotListedExact(g0: int, dpc0: nat, procs: nat)
    requires dpc0 > 0 && procs > 0
    ensures SlotListed(g0, dpc0, procs) <==> WorkerSlot(g0, dpc0, procs) >= -(procs as int)
  {
    BandScale(g0, dpc0, procs);
    var x := (g0 * procs) as real / dpc0 as real;
    var p, d := procs as real, dpc0 as real;
    assert x * d == (g0 * procs) as real;
    assert (x + p + 1.0) * d == ((g0 * procs) + (procs + 1) * dpc0) as real;
    var y := x + p + 1.0;
    if y > 0.0 {
      assert y * d > 0.0;
    } else {
      assert y * d <= 0.0;
    }
    Shifts.TruncSpec(x);
  }

  /** The two rejection tests of `is_local_maxima` fail together exactly when the shoulder rule holds. */
  lemma ShoulderRule(v: real, c: real, ac: real, sign: int)
    requires ac == Abs(c)
    ensures ((v < c * 0.2 && sign == 1) || (v > c * 0.2 && sign == -1) || (Abs(v) < ac * 0.2 && sign == 0)
             || (v > c && sign == 1) || (v < c && sign == -1) || (Abs(v) > ac && sign == 0))
            <==> !NeighbourOk(v, c, sign)
  {
  }

  /** Every point of box before index k other than the centre passes the shoulder rule. */
  ghost predicate PrefixPasses(g: seq<int> -> real, box: seq<seq<int>>, pt: seq<int>, c: real, sign: int, k: nat)
    requires k <= |box|
  {
    forall k' :: 0 <= k' < k && box[k'] != pt ==> NeighbourOk(g(box[k']), c, sign)
  }

  lemma PrefixPassesStep(g: seq<int> -> real, box: seq<seq<int>>, pt: seq<int>, c: real, sign: int, k: nat)
    requires k < |box| && PrefixPasses(g, box, pt, c, sign, k)
    requires box[k] != pt ==> NeighbourOk(g(box[k]), c, sign)
    ensures PrefixPasses(g, box, pt, c, sign, k + 1)
  {
  }

  /** A fully scanned box with every neighbour passing is a local maximum. */
  lemma BoxPasses(g: seq<int> -> real, pt: seq<int>, buffers: seq<int>, sign: int, c: real, box: seq<seq<int>>)
    requires |buffers| >= |pt| && !WrongSide(c, sign) && box == BoxPoints(pt, buffers)
    requires PrefixPasses(g, box, pt, c, sign, |box|)
    ensures LocalMaxima(g, pt, buffers, sign, c)
  {
    forall q | InBox(q, pt, buffers) && q != pt
      ensures NeighbourOk(g(q), c, sign)
    {
      BoxPointsMember(pt, buffers, q);
      var k :| 0 <= k < |box| && box[k] == q;
    }
  }

  /** One neighbour failing the shoulder rule rules the centre out. */
  lemma NeighbourFails(g: seq<int> -> real, pt: seq<int>, buffers: seq<int>, sign: int, c: real, q: seq<int>)
    requires |buffers| >= |pt| && InBox(q, pt, buffers) && q != pt && !NeighbourOk(g(q), c, sign)
    ensures !LocalMaxima(g, pt, buffers, sign, c)
  {
  }

  /**
   * The adjacency distance of `find_peaks_per_node`: the sum over the first
   * ndim axes of |prev_grid_pt[j] - grid_pt[j]|.
   */
  method GridDistance(prev: seq<int>, pt: seq<int>, ndim: nat) returns (diff: int)
    requires |prev| == |pt| == ndim
    ensures diff == Manhattan(prev, pt)
    ensures diff >= 0
  {
    diff := 0;
    for j := 0 to ndim
      invariant diff == Manhattan(prev[..j], pt[..j]) && diff >= 0
    {
      ManhattanSnoc(prev[..j], pt[..j], prev[j], pt[j]);
      assert prev[..j + 1] == prev[..j] + [prev[j]] && pt[..j + 1] == pt[..j] + [pt[j]];
      diff := diff + (if prev[j] >= pt[j] then prev[j] - pt[j] else pt[j] - prev[j]);
    }
    assert prev[..ndim] == prev && pt[..ndim] == pt;
  }

  /** Every coordinate lies inside its axis: what `random.randrange(0, DataPointCount)` draws. */
  predicate InsideGrid(pt: seq<int>, axes: seq<AxisHeader>)
  {
    |pt| == |axes| && forall j :: 0 <= j < |pt| ==> 0 <= pt[j] < axes[j].dataPointCount as int
  }

  /** The grid values at the sampled points, in order. */
  function Samples(g: seq<int> -> real, points: seq<seq<int>>): (r: seq<real>)
    ensures |r| == |points|
  {
    seq(|points|, i requires 0 <= i < |points| => g(points[i]))
  }

  /** `ht_list`: the absolute values at the points, built one sample at a time. */
  function AbsSamples(g: seq<int> -> real, points: seq<seq<int>>): (r: seq<real>)
    ensures |r| == |points|
  {
    if points == [] then [] else AbsSamples(g, points[..|points| - 1]) + [Abs(g(points[|points| - 1]))]
  }

  lemma AbsSamplesSnoc(g: seq<int> -> real, points: seq<seq<int>>, i: nat)
    requires i < |points|
    ensures AbsSamples(g, points[..i + 1]) == AbsSamples(g, points[..i]) + [Abs(g(points[i]))]
  {
    assert points[..i + 1][..i] == points[..i];
  }

  /** `ht_list` holds the absolute value of every sample, in order. */
  lemma {:induction false} AbsSamplesAll(g: seq<int> -> real, points: seq<seq<int>>)
    ensures AbsSamples(g, points) == AbsAll(Samples(g, points))
  {
    if points != [] {
      var n := |points| - 1;
      AbsSamplesAll(g, points[..n]);
      assert forall k :: 0 <= k < n ==> Samples(g, points[..n])[k] == Samples(g, points)[k];
    }
  }

  /**
   * One axis of `get_interpolated_data`: the parabola through the point and
   * its two neighbours along axis i (the centre kept when the vertex falls
   * outside them), as a shift on that axis and the value at the vertex.
   */
  function AxisEstimate(g: seq<int> -> real, axes: seq<AxisHeader>, unpack: FloatDecode, pt: seq<int>, i: nat): (real, real)
    requires i < |pt| == |axes| && Shifts.Usable(axes[i])
  {
    var (pos, value) := InterpolateAxis(g(pt[i := pt[i] - 1]), g(pt), g(pt[i := pt[i] + 1]));
    (Shifts.GridToShift(axes[i], unpack, pt[i] as real + pos - 1.0), value)
  }

  /** The estimate of axis i, from the interpolation of the three values read along it. */
  lemma AxisEstimateOf(g: seq<int> -> real, axes: seq<AxisHeader>, unpack: FloatDecode, pt: seq<int>, i: nat, pos: real, value: real)
    requires i < |pt| == |axes| && Shifts.Usable(axes[i])
    requires (pos, value) == InterpolateAxis(g(pt[i := pt[i] - 1]), g(pt), g(pt[i := pt[i] + 1]))
    ensures AxisEstimate(g, axes, unpack, pt, i) == (Shifts.GridToShift(axes[i], unpack, pt[i] as real + pos - 1.0), value)
  {
  }

  /** The shifts of every axis and the value of the last one. */
  function Interpolated(g: seq<int> -> real, axes: seq<AxisHeader>, unpack: FloatDecode, pt: seq<int>): (r: (seq<real>, real))
    requires 1 <= |pt| == |axes| && forall k :: 0 <= k < |axes| ==> Shifts.Usable(axes[k])
    ensures |r.0| == |pt|
  {
    (seq(|pt|, i requires 0 <= i < |pt| => AxisEstimate(g, axes, unpack, pt, i).0),
     AxisEstimate(g, axes, unpack, pt, |pt| - 1).1)
  }

  lemma InterpolatedOf(g: seq<int> -> real, axes: seq<AxisHeader>, unpack: FloatDecode, pt: seq<int>,
                       shifts: seq<real>, value: real)
    requires 1 <= |pt| == |axes| && forall k :: 0 <= k < |axes| ==> Shifts.Usable(axes[k])
    requires |shifts| == |pt| && forall k :: 0 <= k < |pt| ==> shifts[k] == AxisEstimate(g, axes, unpack, pt, k).0
    requires value == AxisEstimate(g, axes, unpack, pt, |pt| - 1).1
    ensures Interpolated(g, axes, unpack, pt) == (shifts, value)
  {
    var r := Interpolated(g, axes, unpack, pt);
    forall k | 0 <= k < |pt|
      ensures r.0[k] == shifts[k]
    {
    }
    assert r.0 == shifts;
  }

  /** A step scaled by a factor in [-1, 1] is no longer than the step. */
  lemma ScaledStep(st: real, d: real)
    requires -1.0 <= d <= 1.0
    ensures Abs(st * d) <= Abs(st)
  {
    if st >= 0.0 {
      assert -st <= st * d <= st;
    } else {
      assert st <= st * d <= -st;
    }
  }

  /** Moving a grid position by at most one moves its shift by at most one step. */
  lemma GridToShiftNear(ah: AxisHeader, unpack: FloatDecode, x: real, d: real)
    requires Shifts.Usable(ah) && -1.0 <= d <= 1.0
    ensures Abs(Shifts.GridToShift(ah, unpack, x + d) - Shifts.GridToShift(ah, unpack, x)) <= Abs(Shifts.Step(ah, unpack))
  {
    var st := Shifts.Step(ah, unpack);
    assert st * (x + d) == st * x + st * d;
    ScaledStep(st, d);
  }

  /**
   * The interpolated shift of every axis lies within one grid step of the
   * shift of the grid point itself.
   */
  lemma InterpolatedWithinStep(g: seq<int> -> real, axes: seq<AxisHeader>, unpack: FloatDecode, pt: seq<int>, i: nat)
    requires 1 <= |pt| == |axes| && forall k :: 0 <= k < |axes| ==> Shifts.Usable(axes[k])
    requires i < |pt|
    ensures var s := Interpolated(g, axes, unpack, pt).0[i];
      Abs(s - Shifts.GridToShift(axes[i], unpack, pt[i] as real)) <= Abs(Shifts.Step(axes[i], unpack))
  {
    var pos := InterpolateAxis(g(pt[i := pt[i] - 1]), g(pt), g(pt[i := pt[i] + 1])).0;
    var x := pt[i] as real;
    assert Interpolated(g, axes, unpack, pt).0[i] == Shifts.GridToShift(axes[i], unpack, x + (pos - 1.0));
    GridToShiftNear(axes[i], unpack, x, pos - 1.0);
  }

  /**
   * When the last axis has a strict maximum at the point, the value
   * returned is the parabola's vertex, at least the grid value.
   */
  lemma InterpolatedValueAtMaximum(g: seq<int> -> real, axes: seq<AxisHeader>, unpack: FloatDecode, pt: seq<int>)
    requires 1 <= |pt| == |axes| && forall k :: 0 <= k < |axes| ==> Shifts.Usable(axes[k])
    requires var n := |pt| - 1; g(pt) > g(pt[n := pt[n] - 1]) && g(pt) > g(pt[n := pt[n] + 1])
    ensures Interpolated(g, axes, unpack, pt).1 >= g(pt)
  {
    var n := |pt| - 1;
    InterpolateAtMaximum(g(pt[n := pt[n] - 1]), g(pt), g(pt[n := pt[n] + 1]));
  }

  class UcsfTool {
    /** `struct.Struct('>f').unpack` and its repeated form `unpack_cube_float`. */
    const unpack: FloatDecode

    var isOpened: bool
    var fileSize: nat
    var nproc: nat
    var fileName: string
    /** The bytes behind the file handles. */
    var data: seq<byte>
    var fileHeader: FileHeader
    var axisHeaders: seq<AxisHeader>
    /** `tile_list`: one most-recently-used list per worker. */
    var tileList: seq<seq<Tile>>
    var minHeights: Option<seq<real>>

    /** TileSize and TileCount per axis. */
    function Geometry(): Layout
      reads this`axisHeaders
    {
      LayoutOf(axisHeaders)
    }

    /** The spectrum `get_data` reads: value at every grid point, 0 past the file. */
    function Grid(): seq<int> -> real
      reads this`axisHeaders, this`data
    {
      GridOf(LayoutOf(axisHeaders), data, unpack)
    }

    /** The header fields of a file opened with at least one axis. */
    predicate Opened()
      reads this`isOpened, this`nproc, this`fileSize, this`data, this`fileHeader, this`axisHeaders, this`minHeights
    {
      && isOpened
      && nproc >= 1
      && fileSize == |data| >= MinFileSize
      && fileHeader.FileHeader? && fileHeader.dimCount == |axisHeaders| > 0
      && (forall k :: 0 <= k < |axisHeaders| ==>
            DerivedConsistent(axisHeaders[k]) && Shifts.Usable(axisHeaders[k]))
      && LayoutOk(Geometry())
      && minHeights.Some? && |minHeights.value| == nproc
    }

    /** An opened file whose nproc tile lists are all valid: ready for reads. */
    predicate Ready()
      reads this
    {
      && Opened()
      && |tileList| == nproc
      && PoolValid(Geometry(), data, unpack, tileList)
    }

    /** The state `ucsf_open` leaves after reading every axis header. */
    lemma OpenedReady()
      requires isOpened && nproc >= 1 && fileSize == |data| >= MinFileSize
      requires fileHeader.FileHeader? && fileHeader.dimCount > 0
      requires ReadAxisHeaders(data, fileHeader.dimCount) == Some(axisHeaders)
      requires minHeights == Some(seq(nproc, _ => MinHeightStart)) && tileList == seq(nproc, _ => [])
      ensures Ready()
    {
      ReadAxisHeadersSpec(data, fileHeader.dimCount);
      LayoutOfOk(axisHeaders);
      PoolValidEmpty(Geometry(), data, unpack, nproc);
    }

    /** The fields of a closed (or never opened) tool. */
    predicate Closed()
      reads this
    {
      && !isOpened && fileSize == 0 && data == [] && fileHeader == Placeholder
      && axisHeaders == [] && tileList == []
    }

    /**
     * Every reachable state: closed, ready, or the half-opened state a file
     * with DimCount 0 leaves behind (opened, no axes, no tile lists).
     */
    predicate Valid()
      reads this
    {
      && nproc >= 1
      && (!isOpened ==> Closed())
      && (isOpened && |axisHeaders| == 0 ==>
            && fileSize == |data| >= MinFileSize
            && fileHeader.FileHeader? && fileHeader.dimCount == 0
            && minHeights.Some? && |minHeights.value| == nproc
            && tileList == [])
      && (isOpened && |axisHeaders| > 0 ==> Ready())
    }

    /** `__init__`. */
    constructor (unpack: FloatDecode)
      ensures Valid() && Closed()
      ensures this.unpack == unpack && nproc == 1 && fileName == [] && minHeights == None
    {
      this.unpack := unpack;
      isOpened := false;
      fileSize := 0;
      nproc := 1;
      fileName := [];
      data := [];
      fileHeader := Placeholder;
      axisHeaders := [];
      tileList := [];
      minHeights := None;
    }

    /** `set_filename`: refused (0) while a file is open. */
    method SetFilename(name: string) returns (r: int)
      modifies this`fileName
      ensures old(isOpened) ==> r == 0 && fileName == old(fileName)
      ensures !old(isOpened) ==> r == 1 && fileName == name
    {
      if isOpened {
        return 0;
      }
      fileName := name;
      return 1;
    }

    /** `ucsf_close`: back to the initial fields; `min_heights` becomes [] if it was set. */
    method Close()
      requires nproc >= 1
      modifies this
      ensures Valid() && Closed()
      ensures fileName == [] && nproc == old(nproc)
      ensures minHeights == (if old(minHeights).Some? then Some([]) else None)
    {
      fileSize := 0;
      if minHeights.Some? {
        minHeights := Some([]);
      }
      fileName := [];
      data := [];
      fileHeader := Placeholder;
      axisHeaders := [];
      tileList := [];
      isOpened := false;
    }

    /**
     * `read_axis_header`: one 128-byte block per axis, stopping (0) at the
     * first that does not decode. The source raises for DimCount 0.
     */
    method ReadAxisHeader() returns (ok: bool)
      requires fileHeader.FileHeader? && fileHeader.dimCount > 0
      modifies this`axisHeaders
      ensures ok == ReadAxisHeaders(data, fileHeader.dimCount).Some?
      ensures ok ==> axisHeaders == ReadAxisHeaders(data, fileHeader.dimCount).value
    {
      ReadAxisHeadersSpec(data, fileHeader.dimCount);
      axisHeaders := [];
      var n := fileHeader.dimCount;
      for i := 0 to n
        invariant |axisHeaders| == i
        invariant forall k :: 0 <= k < i ==> ParseAxisHeader(AxisBlock(data, k)) == Some(axisHeaders[k])
      {
        var h := ParseAxisHeader(AxisBlock(data, i));
        if h.None? {
          return false;
        }
        axisHeaders := axisHeaders + [h.value];
      }
      ok := true;
      var r := ReadAxisHeaders(data, n);
      assert |r.value| == n;
      assert forall k :: 0 <= k < n ==> axisHeaders[k] == r.value[k];
    }

    /**
     * The end of `ucsf_open` for a file with at least one axis: closed again
     * when an axis header does not decode, otherwise ready with nproc empty
     * tile lists.
     */
    method OpenAxes() returns (ok: bool)
      requires isOpened && nproc >= 1 && fileSize == |data| >= MinFileSize
      requires fileHeader.FileHeader? && fileHeader.dimCount > 0
      requires minHeights == Some(seq(nproc, _ => MinHeightStart))
      modifies this
      ensures Valid() && nproc == old(nproc)
      ensures ok == ReadAxisHeaders(old(data), old(fileHeader).dimCount).Some?
      ensures !ok ==> Closed() && fileName == [] && minHeights == Some([])
      ensures ok ==>
        && Ready() && data == old(data) && fileSize == old(fileSize) && fileHeader == old(fileHeader)
        && fileName == old(fileName) && minHeights == old(minHeights)
        && axisHeaders == ReadAxisHeaders(data, fileHeader.dimCount).value
        && tileList == seq(nproc, _ => [])
    {
      ok := ReadAxisHeader();
      if !ok {
        Close();
        return;
      }
      tileList := seq(nproc, _ => []);
      OpenedReady();
    }

    /**
     * The part of `ucsf_open` after the file was found, given its bytes:
     * closed again (0) when the file is under 436 bytes, lacks the
     * "UCSF NMR" tag, or an axis header does not decode; raises for
     * DimCount 0 leaving the tool half-opened; otherwise open with nproc
     * empty tile lists and nproc minimum heights of 10**10.
     */
    method OpenBytes(d: seq<byte>, procs: nat) returns (r: OpenResult)
      requires Valid() && !isOpened && procs >= 1
      modifies this
      ensures Valid()
      ensures |d| < MinFileSize ==>
        && r == ReturnedZero && Closed() && fileName == [] && nproc == old(nproc)
        && minHeights == (if old(minHeights).Some? then Some([]) else None)
      ensures |d| >= MinFileSize && ParseFileHeader(d).None? ==>
        && r == ReturnedZero && Closed() && fileName == [] && nproc == old(nproc) && minHeights == Some([])
      ensures |d| >= MinFileSize && ParseFileHeader(d).Some? && ParseFileHeader(d).value.dimCount > 0
              && ReadAxisHeaders(d, ParseFileHeader(d).value.dimCount).None? ==>
        && r == ReturnedZero && Closed() && fileName == [] && nproc == procs && minHeights == Some([])
      ensures |d| >= MinFileSize && ParseFileHeader(d).Some? && ParseFileHeader(d).value.dimCount == 0 ==>
        && r == Raised && isOpened && data == d && fileSize == |d| && fileHeader == ParseFileHeader(d).value
        && fileName == old(fileName) && nproc == procs && minHeights == Some(seq(procs, _ => MinHeightStart))
        && axisHeaders == [] && tileList == []
      ensures |d| >= MinFileSize && ParseFileHeader(d).Some? && ParseFileHeader(d).value.dimCount > 0
              && ReadAxisHeaders(d, ParseFileHeader(d).value.dimCount).Some? ==>
        && r == ReturnedNone && Ready() && data == d && fileSize == |d| && fileHeader == ParseFileHeader(d).value
        && fileName == old(fileName) && nproc == procs && minHeights == Some(seq(procs, _ => MinHeightStart))
        && axisHeaders == ReadAxisHeaders(d, ParseFileHeader(d).value.dimCount).value
        && tileList == seq(procs, _ => [])
    {
      data := d;
      fileSize := |d|;
      if fileSize < MinFileSize {
        Close();
        return ReturnedZero;
      }
      minHeights := Some(seq(procs, _ => MinHeightStart));
      isOpened := true;
      var fh := ParseFileHeader(d);
      if fh.None? {
        Close();
        return ReturnedZero;
      }
      fileHeader := fh.value;
      nproc := procs;
      if fh.value.dimCount == 0 {
        axisHeaders := [];
        return Raised;
      }
      var ok := OpenAxes();
      r := if ok then ReturnedNone else ReturnedZero;
    }

    /**
     * `ucsf_open`: refused (0) when a file is already open, and when the
     * file (the name given, else the one set before) does not exist; the
     * name given is recorded first. Otherwise as `OpenBytes` on the file's
     * contents.
     */
    method Open(inFilename: Option<string>, procs: nat, fs: map<string, seq<byte>>) returns (r: OpenResult)
      requires Valid() && procs >= 1
      modifies this
      ensures Valid()
      ensures old(isOpened) ==> r == ReturnedZero && unchanged(this)
      ensures !old(isOpened) && OpenName(inFilename, old(fileName)) !in fs ==>
        && r == ReturnedZero && Closed() && fileName == OpenName(inFilename, old(fileName))
        && nproc == old(nproc) && minHeights == old(minHeights)
      ensures !old(isOpened) && OpenName(inFilename, old(fileName)) in fs ==>
        var d := fs[OpenName(inFilename, old(fileName))];
        && (|d| < MinFileSize ==>
              && r == ReturnedZero && Closed() && fileName == [] && nproc == old(nproc)
              && minHeights == (if old(minHeights).Some? then Some([]) else None))
        && (|d| >= MinFileSize && ParseFileHeader(d).None? ==>
              && r == ReturnedZero && Closed() && fileName == [] && nproc == old(nproc) && minHeights == Some([]))
        && (|d| >= MinFileSize && ParseFileHeader(d).Some? && ParseFileHeader(d).value.dimCount > 0
            && ReadAxisHeaders(d, ParseFileHeader(d).value.dimCount).None? ==>
              && r == ReturnedZero && Closed() && fileName == [] && nproc == procs && minHeights == Some([]))
        && (|d| >= MinFileSize && ParseFileHeader(d).Some? && ParseFileHeader(d).value.dimCount == 0 ==>
              && r == Raised && isOpened && data == d && fileSize == |d| && fileHeader == ParseFileHeader(d).value
              && fileName == OpenName(inFilename, old(fileName)) && nproc == procs
              && minHeights == Some(seq(procs, _ => MinHeightStart)) && axisHeaders == [] && tileList == [])
        && (|d| >= MinFileSize && ParseFileHeader(d).Some? && ParseFileHeader(d).value.dimCount > 0
            && ReadAxisHeaders(d, ParseFileHeader(d).value.dimCount).Some? ==>
              && r == ReturnedNone && Ready() && data == d && fileSize == |d| && fileHeader == ParseFileHeader(d).value
              && fileName == OpenName(inFilename, old(fileName)) && nproc == procs
              && minHeights == Some(seq(procs, _ => MinHeightStart))
              && axisHeaders == ReadAxisHeaders(d, ParseFileHeader(d).value.dimCount).value
              && tileList == seq(procs, _ => []))
    {
      if isOpened {
        return ReturnedZero;
      }
      if inFilename.Some? {
        var _ := SetFilename(inFilename.value);
      }
      if fileName !in fs {
        return ReturnedZero;
      }
      r := OpenBytes(fs[fileName], procs);
    }

    /** The worker list `get_data` uses for a point. */
    function Fd(pt: seq<int>): nat
      requires Opened() && |pt| > 0
      requires WorkerSlot(pt[0], axisHeaders[0].dataPointCount, nproc) >= -(nproc as int)
      reads this`isOpened, this`nproc, this`fileSize, this`data, this`fileHeader, this`axisHeaders, this`minHeights
    {
      WorkerIndex(WorkerSlot(pt[0], axisHeaders[0].dataPointCount, nproc), nproc)
    }

    /** What a fresh read of the tile holding pt gives. */
    function FreshTile(pt: seq<int>): Tile
      requires Opened() && |pt| >= |axisHeaders|
      reads this`isOpened, this`nproc, this`fileSize, this`data, this`fileHeader, this`axisHeaders, this`minHeights
    {
      var tile := TileIndices(pt, Geometry().tileSizes);
      Tile(tile, FreshValues(Geometry(), data, unpack, tile))
    }

    /**
     * `read_tile_data`: a hit moves the tile to the head of the worker's
     * list; a miss reads the tile (zeros when it is not inside the file),
     * puts it at the head and drops the 257th tile. Either way the tile
     * returned holds exactly what a fresh read gives.
     */
    method ReadTileData(tile: seq<int>, fd: nat) returns (t: Tile)
      requires Ready() && fd < nproc && |tile| == |axisHeaders|
      modifies this`tileList
      ensures Ready()
      ensures t == Tile(tile, FreshValues(Geometry(), data, unpack, tile))
      ensures tileList == old(tileList)[fd := Access(old(tileList)[fd], t)]
    {
      var l := Geometry();
      var list := tileList[fd];
      PoolValidAt(l, data, unpack, tileList, fd);
      var expected := Tile(tile, FreshValues(l, data, unpack, tile));
      for i := 0 to |list|
        invariant forall k :: 0 <= k < i ==> list[k].pos != tile
      {
        if list[i].pos == tile {
          AccessHit(l, data, unpack, list, expected);
          PoolValidUpdate(l, data, unpack, tileList, fd, Access(list, expected));
          if i != 0 {
            tileList := tileList[fd := Promote(list, i)];
          } else {
            assert Promote(list, 0) == list;
          }
          return list[i];
        }
      }
      var values := ReadTile(l, data, fileSize, unpack, tile);
      t := Tile(tile, values);
      AccessMiss(l, data, unpack, list, t);
      PoolValidUpdate(l, data, unpack, tileList, fd, Access(list, t));
      var grown := [t] + list;
      if |grown| > TileCountBuffer {
        grown := grown[..TileCountBuffer] + grown[TileCountBuffer + 1..];
      }
      tileList := tileList[fd := grown];
    }

    /** What `get_data` needs of a point beyond the file being open. */
    predicate Readable(pt: seq<int>)
      requires Opened()
      reads this`isOpened, this`nproc, this`fileSize, this`data, this`fileHeader, this`axisHeaders, this`minHeights
    {
      |pt| >= |axisHeaders| && WorkerSlot(pt[0], axisHeaders[0].dataPointCount, nproc) >= -(nproc as int)
    }

    /**
     * `get_data`: None when no file is open; otherwise the value of the grid
     * point, read through the worker's tile list, which then holds the
     * point's tile at its head.
     */
    method GetData(pt: seq<int>) returns (v: Option<real>)
      requires Valid() && (isOpened ==> Ready() && Readable(pt))
      modifies this`tileList
      ensures Valid() && (isOpened ==> Ready())
      ensures !isOpened ==> v == None && tileList == old(tileList)
      ensures isOpened ==>
        && v == Some(Grid()(pt))
        && tileList == old(tileList)[Fd(pt) := Access(old(tileList)[Fd(pt)], FreshTile(pt))]
    {
      if !isOpened {
        return None;
      }
      var l := Geometry();
      var tile, rem := GridToTileAndRemainIndices(pt, l.tileSizes);
      var slot := WorkerSlot(pt[0], axisHeaders[0].dataPointCount, nproc);
      var fd := if slot < 0 then slot + nproc else slot;
      var remIdx := RemainIndicesToRemainIndex(rem, l.tileSizes);
      var t := ReadTileData(tile, fd);
      SplitInverse(pt, l.tileSizes);
      RowMajorInRange(rem, l.tileSizes);
      v := Some(t.values[remIdx]);
    }

    /** `get_data` on an open file, for the readers below: the grid value, the tool still ready. */
    method ValueAt(pt: seq<int>) returns (v: real)
      requires Ready() && Readable(pt)
      modifies this`tileList
      ensures Ready() && v == Grid()(pt)
    {
      var got := GetData(pt);
      v := got.value;
    }

    /** `BoxReadable` holds exactly when every point of the box other than the centre is readable. */
    lemma BoxReadableExact(pt: seq<int>, buffers: seq<int>)
      requires Ready() && |pt| == |axisHeaders| && |buffers| >= |pt|
      ensures BoxReadable(pt, buffers, axisHeaders[0].dataPointCount, nproc)
              <==> forall q :: InBox(q, pt, buffers) && q != pt ==> Readable(q)
    {
      NeighbourBoxExact(pt, buffers);
      SlotListedExact(pt[0] - buffers[0], axisHeaders[0].dataPointCount, nproc);
      if BoxReadable(pt, buffers, axisHeaders[0].dataPointCount, nproc) {
        forall q | InBox(q, pt, buffers) && q != pt
          ensures Readable(q)
        {
          BoxPointReadable(pt, buffers, q);
        }
      } else {
        var low := seq(|pt|, i requires 0 <= i < |pt| => pt[i] - buffers[i]);
        var k :| 0 <= k < |pt| && buffers[k] > 0;
        assert InBox(low, pt, buffers) && low[k] != pt[k];
        assert !Readable(low);
      }
    }

    lemma BoxPointReadable(pt: seq<int>, buffers: seq<int>, q: seq<int>)
      requires Ready() && |pt| == |axisHeaders| && |buffers| >= |pt|
      requires BoxReadable(pt, buffers, axisHeaders[0].dataPointCount, nproc)
      requires InBox(q, pt, buffers) && q != pt
      ensures Readable(q)
    {
      NeighbourBoxExact(pt, buffers);
      SlotListedExact(pt[0] - buffers[0], axisHeaders[0].dataPointCount, nproc);
      WorkerSlotMonotone(pt[0] - buffers[0], q[0], axisHeaders[0].dataPointCount, nproc);
    }

    /**
     * One neighbour of `is_local_maxima`: its value read, then the two
     * rejection tests (under 20% of the centre, above the centre, on the
     * side sign selects); it passes when neither fires.
     */
    method NeighbourPasses(q: seq<int>, c: real, ac: real, sign: int) returns (pass: bool)
      requires Ready() && Readable(q) && ac == Abs(c)
      modifies this`tileList
      ensures Ready() && Grid() == old(Grid())
      ensures pass == NeighbourOk(Grid()(q), c, sign)
    {
      var v := ValueAt(q);
      ShoulderRule(v, c, ac, sign);
      if (v < c * 0.2 && sign == 1) || (v > c * 0.2 && sign == -1) || (Abs(v) < ac * 0.2 && sign == 0) {
        return false;
      }
      if (v > c && sign == 1) || (v < c && sign == -1) || (Abs(v) > ac && sign == 0) {
        return false;
      }
      return true;
    }

    /**
     * `is_local_maxima` once the centre value c is known: false for a centre
     * of the wrong sign; otherwise every point of the box other than the
     * centre, in `itertools.product` order, must pass the shoulder rule
     * against c, and the loop stops at the first failure.
     */
    method VerdictFor(pt: seq<int>, buffers: seq<int>, sign: int, c: real) returns (ok: bool)
      requires Ready() && |pt| == |axisHeaders| && |buffers| >= |pt|
      requires !WrongSide(c, sign) ==> BoxReadable(pt, buffers, axisHeaders[0].dataPointCount, nproc)
      modifies this`tileList
      ensures Ready()
      ensures ok == LocalMaxima(Grid(), pt, buffers, sign, c)
    {
      WrongSideProduct(c, sign);
      if c * sign as real < 0.0 {
        return false;
      }
      ghost var g := Grid();
      var box := BoxPoints(pt, buffers);
      var ac := Abs(c);
      for k := 0 to |box|
        invariant Ready() && Grid() == g
        invariant PrefixPasses(g, box, pt, c, sign, k)
      {
        var q := box[k];
        if q == pt {
          PrefixPassesStep(g, box, pt, c, sign, k);
          continue;
        }
        BoxPointsMember(pt, buffers, q);
        BoxPointReadable(pt, buffers, q);
        var pass := NeighbourPasses(q, c, ac, sign);
        if !pass {
          NeighbourFails(g, pt, buffers, sign, c, q);
          return false;
        }
        PrefixPassesStep(g, box, pt, c, sign, k);
      }
      BoxPasses(g, pt, buffers, sign, c, box);
      return true;
    }

    /** The centre value of `is_local_maxima`: ref_ht when given, else read from the grid. */
    method CentreValue(pt: seq<int>, refHt: Option<real>) returns (c: real)
      requires Ready() && (refHt.None? ==> Readable(pt))
      modifies this`tileList
      ensures Ready() && Grid() == old(Grid())
      ensures c == (if refHt.Some? then refHt.value else Grid()(pt))
    {
      if refHt.None? {
        c := ValueAt(pt);
      } else {
        c := refHt.value;
      }
    }

    /**
     * `is_local_maxima`: the centre value is ref_ht when given, else the
     * grid value; the answer is false for a centre of the wrong sign and
     * otherwise whether every other point of the box passes the shoulder
     * rule.
     */
    method IsLocalMaxima(pt: seq<int>, buffers: seq<int>, sign: int, refHt: Option<real>) returns (ok: bool, c: real)
      requires Ready() && 2 <= |pt| <= 4 && |pt| == |axisHeaders| && |buffers| >= |pt|
      requires refHt.None? ==> Readable(pt)
      requires !WrongSide(if refHt.Some? then refHt.value else Grid()(pt), sign) ==>
                 BoxReadable(pt, buffers, axisHeaders[0].dataPointCount, nproc)
      modifies this`tileList
      ensures Ready()
      ensures c == (if refHt.Some? then refHt.value else Grid()(pt))
      ensures ok == LocalMaxima(Grid(), pt, buffers, sign, c)
    {
      c := CentreValue(pt, refHt);
      ok := VerdictFor(pt, buffers, sign, c);
    }

    /**
     * The staged test of `find_peaks_per_node`: `is_local_maxima` with
     * ref_ht v on the 1D, 2D, ... boxes in turn (buffers beyond the stage
     * zeroed), stopping at the first stage that fails.
     */
    method StagedTest(pt: seq<int>, buffers: seq<int>, sign: int, v: real) returns (tf: bool)
      requires Ready() && 2 <= |pt| <= 4 && |buffers| == |pt| == |axisHeaders|
      requires !WrongSide(v, sign) ==> StagedReadable(pt, buffers, axisHeaders[0].dataPointCount, nproc)
      modifies this`tileList
      ensures Ready() && Grid() == old(Grid())
      ensures tf == StagedFrom(Grid(), pt, buffers, sign, v, 0)
    {
      ghost var g := Grid();
      tf := false;
      for j := 0 to |pt|
        invariant Ready() && Grid() == g
        invariant j > 0 ==> tf
        invariant StagedFrom(g, pt, buffers, sign, v, 0) == StagedFrom(g, pt, buffers, sign, v, j)
      {
        var sb := StageBuffers(buffers, j);
        var hts;
        tf, hts := IsLocalMaxima(pt, sb, sign, Some(v));
        if !tf {
          return;
        }
      }
    }

    /**
     * One candidate of `find_peaks_per_node`: the adjacency skip, the
     * noise, `max_count` and sign filters, then the staged test. found
     * says the candidate becomes a peak of height v; otherwise the scan
     * state only takes tf' as its `tf`.
     */
    method ScanCandidate(ghost st: ScanState, ghost i: nat, pt: seq<int>, noise: real, buffers: seq<int>, sign: int,
                         maxCount: int, prev: seq<int>, tf: bool, count: nat, minHeight: real)
      returns (found: bool, v: real, tf': bool)
      requires Ready() && 2 <= |buffers| <= 4 && |pt| == |buffers| == |axisHeaders|
      requires (tf ==> |prev| == |pt| && Manhattan(prev, pt) >= Sum(buffers)) ==> Readable(pt)
      requires StagedReadable(pt, buffers, axisHeaders[0].dataPointCount, nproc)
      requires st.prev == prev && st.tf == tf && |st.peaks| == count && st.minHeight == minHeight
      requires tf ==> |prev| == |pt|
      modifies this`tileList
      ensures Ready() && Grid() == old(Grid())
      ensures var st' := Step(Grid(), st, i, pt, ScanParams(noise, buffers, sign, maxCount));
        && (found ==> tf' && st' == ScanState(st.peaks + [pt], st.heights + [v], st.at + [i], pt, true, Min(minHeight, Abs(noise))))
        && (!found ==> st' == st.(tf := tf') && (tf' ==> tf))
    {
      tf' := tf;
      found := false;
      v := 0.0;
      if tf {
        var diff := GridDistance(prev, pt, |buffers|);
        if diff < Sum(buffers) {
          return;
        }
      }
      v := ValueAt(pt);
      var av := Abs(v);
      if av < Abs(noise) {
        return;
      }
      if count > maxCount && av < minHeight {
        return;
      }
      WrongSideProduct(v, sign);
      if (v < noise && sign == 1) || (v > noise && sign == -1) || v * sign as real < 0.0 {
        return;
      }
      tf' := StagedTest(pt, buffers, sign, v);
      found := tf';
    }

    /** `self.min_heights[pnum] = min(self.min_heights[pnum], x)`. */
    method LowerMinHeight(pnum: nat, x: real)
      requires Ready() && pnum < nproc
      modifies this`minHeights
      ensures Ready()
      ensures minHeights == Some(old(minHeights).value[pnum := Min(old(minHeights).value[pnum], x)])
      ensures minHeights.value[pnum] <= old(minHeights).value[pnum] && minHeights.value[pnum] <= x
    {
      minHeights := Some(minHeights.value[pnum := Min(minHeights.value[pnum], x)]);
    }

    /**
     * Candidate number i of `find_peaks_per_node` with the peak recorded
     * and `min_heights[pnum]` lowered when it is accepted: the scan state
     * after i candidates becomes the one after i + 1.
     */
    method ScanNext(pts: seq<seq<int>>, i: nat, noise: real, buffers: seq<int>, sign: int, pnum: nat, maxCount: int,
                    peaks: seq<seq<int>>, heights: seq<real>, ghost at: seq<nat>, prev: seq<int>, tf: bool)
      returns (peaks': seq<seq<int>>, heights': seq<real>, ghost at': seq<nat>, prev': seq<int>, tf': bool)
      requires Ready() && 2 <= |buffers| <= 4 && pnum < nproc
      requires i < |pts| && PointsFit(pts, |buffers|) && |buffers| == |axisHeaders|
      requires (tf ==> |prev| == |buffers| && Manhattan(prev, pts[i]) >= Sum(buffers)) ==> Readable(pts[i])
      requires StagedReadable(pts[i], buffers, axisHeaders[0].dataPointCount, nproc)
      requires tf ==> |prev| == |buffers|
      modifies this`tileList, this`minHeights
      ensures Ready() && Grid() == old(Grid())
      ensures |minHeights.value| == |old(minHeights).value|
      ensures forall k :: 0 <= k < |minHeights.value| && k != pnum ==> minHeights.value[k] == old(minHeights).value[k]
      ensures tf' ==> |prev'| == |buffers|
      ensures Step(Grid(), ScanState(peaks, heights, at, prev, tf, old(minHeights).value[pnum]), i, pts[i],
                   ScanParams(noise, buffers, sign, maxCount))
              == ScanState(peaks', heights', at', prev', tf', minHeights.value[pnum])
    {
      var found, v;
      found, v, tf' := ScanCandidate(ScanState(peaks, heights, at, prev, tf, minHeights.value[pnum]), i, pts[i],
                                     noise, buffers, sign, maxCount, prev, tf, |peaks|, minHeights.value[pnum]);
      peaks', heights', at', prev' := peaks, heights, at, prev;
      if found {
        peaks', heights', at', prev' := peaks + [pts[i]], heights + [v], at + [i], pts[i];
        LowerMinHeight(pnum, Abs(noise));
      }
    }

    /**
     * `find_peaks_per_node` for worker pnum, with `self.max_count` as
     * maxCount: the candidates in order through the adjacency skip, the
     * noise, `max_count` and sign filters and the staged test. The peaks,
     * heights and `min_heights[pnum]` are those of the scan `ScanUpTo`
     * over the spectrum; the other workers' minimum heights are untouched.
     */
    method FindPeaksPerNode(pts: seq<seq<int>>, noise: real, buffers: seq<int>, sign: int, pnum: nat, maxCount: int)
      returns (peaks: seq<seq<int>>, heights: seq<real>)
      requires Ready() && 2 <= |buffers| <= 4 && |buffers| == |axisHeaders| && pnum < nproc
      requires PointsFit(pts, |buffers|)
      requires forall i :: 0 <= i < |pts| ==>
        && SlotListed(pts[i][0], axisHeaders[0].dataPointCount, nproc)
        && StagedReadable(pts[i], buffers, axisHeaders[0].dataPointCount, nproc)
      modifies this`tileList, this`minHeights
      ensures Ready() && Grid() == old(Grid())
      ensures var st := ScanUpTo(Grid(), pts, |pts|, ScanParams(noise, buffers, sign, maxCount), old(minHeights).value[pnum]);
        && peaks == st.peaks && heights == st.heights
        && |minHeights.value| == |old(minHeights).value| && minHeights.value[pnum] == st.minHeight
        && forall k :: 0 <= k < |minHeights.value| && k != pnum ==> minHeights.value[k] == old(minHeights).value[k]
    {
      ghost var g := Grid();
      ghost var p := ScanParams(noise, buffers, sign, maxCount);
      ghost var m0 := minHeights.value[pnum];
      ghost var mh0 := minHeights.value;
      ghost var at: seq<nat> := [];
      peaks, heights := [], [];
      var prev: seq<int> := seq(|pts|, _ => -2);
      var tf := false;
      for i := 0 to |pts|
        invariant Ready() && Grid() == g
        invariant |minHeights.value| == |mh0| && forall k :: 0 <= k < |mh0| && k != pnum ==> minHeights.value[k] == mh0[k]
        invariant tf ==> |prev| == |buffers|
        invariant ScanFrom(g, pts, i, p, ScanState(peaks, heights, at, prev, tf, minHeights.value[pnum]))
                  == ScanFrom(g, pts, 0, p, InitialState(pts, m0))
      {
        SlotListedExact(pts[i][0], axisHeaders[0].dataPointCount, nproc);
        peaks, heights, at, prev, tf := ScanNext(pts, i, noise, buffers, sign, pnum, maxCount, peaks, heights, at, prev, tf);
      }
      ScanFromUpTo(g, pts, 0, p, m0);
    }

    /** A point inside the spectrum is one `get_data` can read. */
    lemma InsideReadable(pt: seq<int>)
      requires Ready() && InsideGrid(pt, axisHeaders)
      ensures Readable(pt)
    {
      WorkerSlotBand(pt[0], axisHeaders[0].dataPointCount, nproc);
    }

    /** The sampling loop of `sample_noise`: the absolute value read at every point, in order. */
    method ReadAbsSamples(points: seq<seq<int>>) returns (htList: seq<real>)
      requires Ready() && forall i :: 0 <= i < |points| ==> Readable(points[i])
      modifies this`tileList
      ensures Ready() && Grid() == old(Grid())
      ensures htList == AbsSamples(Grid(), points)
    {
      ghost var g := Grid();
      htList := [];
      for i := 0 to |points|
        invariant Ready() && Grid() == g
        invariant htList == AbsSamples(g, points[..i])
      {
        var v := ValueAt(points[i]);
        AbsSamplesSnoc(g, points, i);
        htList := htList + [Abs(v)];
      }
      assert points[..|points|] == points;
    }

    /**
     * `sample_noise` on the points drawn (one per sample): the absolute
     * values read at them, sorted, and the one at index sample_count / 2.
     */
    method SampleNoise(points: seq<seq<int>>) returns (noise: real)
      requires Ready() && |points| >= 1
      requires forall i :: 0 <= i < |points| ==> Readable(points[i])
      modifies this`tileList
      ensures Ready() && Grid() == old(Grid())
      ensures noise == NoisePick(Samples(Grid(), points))
    {
      var htList := ReadAbsSamples(points);
      AbsSamplesAll(Grid(), points);
      var sorted := SortAsc(htList);
      SortAscSpec(htList, 0.0);
      noise := sorted[|points| / 2];
    }

    /**
     * The body of `get_interpolated_data`'s loop for axis i: the point and
     * its two neighbours read, interpolated (the centre kept when the
     * vertex falls outside them) and the position turned into a shift.
     */
    method EstimateAxis(pt: seq<int>, i: nat) returns (shift: real, value: real)
      requires Ready() && NeighboursReadable(pt, axisHeaders, nproc) && i < |pt|
      modifies this`tileList
      ensures Ready() && Grid() == old(Grid())
      ensures (shift, value) == AxisEstimate(Grid(), axisHeaders, unpack, pt, i)
    {
      var prevPt := pt[i := pt[i] - 1];
      var nextPt := pt[i := pt[i] + 1];
      var dpc0 := axisHeaders[0].dataPointCount;
      SlotListedExact(pt[0] - 1, dpc0, nproc);
      WorkerSlotMonotone(pt[0] - 1, prevPt[0], dpc0, nproc);
      WorkerSlotMonotone(pt[0] - 1, pt[0], dpc0, nproc);
      WorkerSlotMonotone(pt[0] - 1, nextPt[0], dpc0, nproc);
      ghost var g := Grid();
      var d1 := ValueAt(prevPt);
      assert Grid() == g;
      var d2 := ValueAt(pt);
      assert Grid() == g;
      var d3 := ValueAt(nextPt);
      assert Grid() == g;
      var pos;
      pos, value := Interpolate(d1, d2, d3).0, Interpolate(d1, d2, d3).1;
      if pos < 0.0 || pos > 2.0 {
        pos, value := 1.0, d2;
      }
      assert (pos, value) == InterpolateAxis(g(prevPt), g(pt), g(nextPt));
      shift := Shifts.GridToShift(axisHeaders[i], unpack, pt[i] as real + pos - 1.0);
      AxisEstimateOf(g, axisHeaders, unpack, pt, i, pos, value);
    }

    /**
     * The loop of `get_interpolated_data`: axis by axis, the shift of the
     * interpolated position; value is that of the last axis.
     */
    method EstimateAxes(pt: seq<int>) returns (shifts: seq<real>, value: real)
      requires Ready() && NeighboursReadable(pt, axisHeaders, nproc)
      modifies this`tileList
      ensures Ready() && Grid() == old(Grid())
      ensures |shifts| == |pt| && forall k :: 0 <= k < |pt| ==> shifts[k] == AxisEstimate(Grid(), axisHeaders, unpack, pt, k).0
      ensures value == AxisEstimate(Grid(), axisHeaders, unpack, pt, |pt| - 1).1
    {
      ghost var g := Grid();
      shifts := seq(|pt|, _ => 0.0);
      value := 0.0;
      for i := 0 to |pt|
        invariant Ready() && Grid() == g && |shifts| == |pt|
        invariant forall k :: 0 <= k < i ==> shifts[k] == AxisEstimate(g, axisHeaders, unpack, pt, k).0
        invariant i > 0 ==> value == AxisEstimate(g, axisHeaders, unpack, pt, i - 1).1
      {
        var shift;
        shift, value := EstimateAxis(pt, i);
        shifts := shifts[i := shift];
      }
    }

    /**
     * `get_interpolated_data`: None when no file is open; otherwise, axis
     * by axis, the value and its two neighbours are read, interpolated, and
     * turned into a shift; the value of the last axis is returned with the
     * shifts.
     */
    method GetInterpolatedData(pt: seq<int>) returns (r: Option<(seq<real>, real)>)
      requires Valid() && (isOpened ==> Ready() && NeighboursReadable(pt, axisHeaders, nproc))
      modifies this`tileList
      ensures Valid() && (isOpened ==> Ready()) && Grid() == old(Grid())
      ensures !isOpened ==> r == None && tileList == old(tileList)
      ensures isOpened ==> r == Some(Interpolated(Grid(), axisHeaders, unpack, pt))
    {
      if !isOpened {
        return None;
      }
      var shifts, value := EstimateAxes(pt);
      InterpolatedOf(Grid(), axisHeaders, unpack, pt, shifts, value);
      r := Some((shifts, value));
    }

    /**
     * `shift_restraint_to_grid_restraint`: every axis starts with its whole
     * range; each axis the restraint lists shifts for, up to the first axis
     * it does not cover, is replaced by the windows around those shifts'
     * grid positions. It needs only the axes' usability, which every
     * opened tool's headers have and a closed tool's empty list has
     * trivially.
     */
    method ShiftRestraintToGridRestraint(restraint: Option<seq<seq<real>>>, buffers: seq<int>) returns (r: Restraint.Outcome)
      requires forall k :: 0 <= k < |axisHeaders| ==> Shifts.Usable(axisHeaders[k])
      requires restraint.Some? ==> Restraint.BuffersCover(axisHeaders, restraint.value, buffers)
      ensures r == Restraint.GridRestraint(axisHeaders, unpack, restraint, buffers)
    {
      if restraint.None? {
        return Restraint.Unrestrained;
      }
      var ahl := axisHeaders;
      var grid: seq<set<int>> := [];
      for i := 0 to |ahl|
        invariant |grid| == i
        invariant forall k :: 0 <= k < i ==> grid[k] == Restraint.FullRange(ahl[k].dataPointCount)
      {
        grid := grid + [Restraint.FullRange(ahl[i].dataPointCount)];
      }
      var rs := restraint.value;
      for i := 0 to |ahl|
        invariant |grid| == |ahl|
        invariant forall k :: 0 <= k < i ==>
          !Restraint.RaisesAt(ahl, rs, k) && grid[k] == Restraint.AxisRestraint(ahl, unpack, rs, buffers, k)
        invariant forall k :: i <= k < |ahl| ==> grid[k] == Restraint.FullRange(ahl[k].dataPointCount)
      {
        if i >= |rs| {
          break;
        }
        if rs[i] == [] {
          continue;
        }
        var w := Restraint.AxisWindows(ahl[i], unpack, rs[i], buffers[i]);
        if w.None? {
          assert Restraint.RaisesAt(ahl, rs, i);
          return Restraint.DivisionByZero;
        }
        grid := grid[i := w.value];
      }
      assert forall k :: 0 <= k < |ahl| ==> !Restraint.RaisesAt(ahl, rs, k);
      r := Restraint.Restricted(grid);
      assert grid == seq(|ahl|, k requires 0 <= k < |ahl| => Restraint.AxisRestraint(ahl, unpack, rs, buffers, k));
    }
  }
}
