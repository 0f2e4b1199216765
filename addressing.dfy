/**
 * Grid addressing: splitting a grid point into the tile that holds it and
 * the remainder inside the tile, and the row-major linearisation used both
 * for a tile's place in the file and for a point's place in a tile.
 * Python 2 integer `/` and `%` floor; Dafny's agree for positive divisors,
 * so negative coordinates (the -1 probes at the grid edge) split the same.
 */
module Addressing {

  predicate AllPositive(s: seq<int>)
  {
    forall i :: 0 <= i < |s| ==> s[i] > 0
  }

  /** Every index lies in [0, size) along its axis. */
  predicate InRange(idx: seq<int>, sizes: seq<int>)
  {
    |idx| == |sizes| && forall i :: 0 <= i < |sizes| ==> 0 <= idx[i] < sizes[i]
  }

  function Product(s: seq<int>): int
  {
    if s == [] then 1 else s[0] * Product(s[1..])
  }

  lemma {:induction false} ProductPositive(s: seq<int>)
    requires AllPositive(s)
    ensures Product(s) > 0
  {
    if s != [] {
      ProductPositive(s[1..]);
    }
  }

  lemma {:induction false} ProductSnoc(s: seq<int>, x: int)
    ensures Product(s + [x]) == Product(s) * x
  {
    if s == [] {
      assert [x][1..] == [];
    } else {
      assert (s + [x])[1..] == s[1..] + [x];
      ProductSnoc(s[1..], x);
      assert s[0] * (Product(s[1..]) * x) == (s[0] * Product(s[1..])) * x;
    }
  }

  /** `grid_to_tile_and_remain_indices`, tile part: floor division per axis. */
  function TileIndices(grid: seq<int>, sizes: seq<int>): (t: seq<int>)
    requires |grid| >= |sizes| && AllPositive(sizes)
    ensures |t| == |sizes|
  {
    seq(|sizes|, i requires 0 <= i < |sizes| => grid[i] / sizes[i])
  }

  /** `grid_to_tile_and_remain_indices`, remainder part: floor modulo per axis. */
  function RemainIndices(grid: seq<int>, sizes: seq<int>): (r: seq<int>)
    requires |grid| >= |sizes| && AllPositive(sizes)
    ensures |r| == |sizes|
  {
    seq(|sizes|, i requires 0 <= i < |sizes| => grid[i] % sizes[i])
  }

  /** `tile_and_remain_indices_to_grid`. */
  function TileAndRemainToGrid(tile: seq<int>, rem: seq<int>, sizes: seq<int>): (g: seq<int>)
    requires |tile| >= |sizes| && |rem| >= |sizes|
    ensures |g| == |sizes|
  {
    seq(|sizes|, i requires 0 <= i < |sizes| => tile[i] * sizes[i] + rem[i])
  }

  /**
   * For any integer grid point, negative coordinates included, the
   * remainders lie in [0, TileSize) and tile * TileSize + remainder gives the
   * point back.
   */
  lemma SplitInverse(grid: seq<int>, sizes: seq<int>)
    requires |grid| >= |sizes| && AllPositive(sizes)
    ensures InRange(RemainIndices(grid, sizes), sizes)
    ensures TileAndRemainToGrid(TileIndices(grid, sizes), RemainIndices(grid, sizes), sizes) == grid[..|sizes|]
  {
  }

  /** `grid_to_tile_and_remain_indices`: both tuples built axis by axis. */
  method GridToTileAndRemainIndices(grid: seq<int>, sizes: seq<int>) returns (tile: seq<int>, rem: seq<int>)
    requires |grid| >= |sizes| && AllPositive(sizes)
    ensures tile == TileIndices(grid, sizes) && rem == RemainIndices(grid, sizes)
  {
    tile, rem := [], [];
    for i := 0 to |sizes|
      invariant |tile| == |rem| == i
      invariant forall k :: 0 <= k < i ==> tile[k] == grid[k] / sizes[k] && rem[k] == grid[k] % sizes[k]
    {
      tile := tile + [grid[i] / sizes[i]];
      rem := rem + [grid[i] % sizes[i]];
    }
  }

  /** `tile_and_remain_indices_to_grid`: the grid point built axis by axis. */
  method TileAndRemainIndicesToGrid(tile: seq<int>, rem: seq<int>, sizes: seq<int>) returns (grid: seq<int>)
    requires |tile| >= |sizes| && |rem| >= |sizes|
    ensures grid == TileAndRemainToGrid(tile, rem, sizes)
  {
    grid := [];
    for i := 0 to |sizes|
      invariant |grid| == i
      invariant forall k :: 0 <= k < i ==> grid[k] == tile[k] * sizes[k] + rem[k]
    {
      grid := grid + [tile[i] * sizes[i] + rem[i]];
    }
  }

  lemma MulSign(k: int, s: int)
    requires s > 0
    ensures k >= 1 ==> k * s >= s
    ensures k <= -1 ==> k * s <= -s
  {
  }

  lemma QuotientBound(pos: int, s: int, p: int)
    requires s > 0 && 0 <= pos < p * s
    ensures 0 <= pos / s < p && pos == pos / s * s + pos % s
  {
    var q, m := pos / s, pos % s;
    MulSign(q, s);
    MulSign(q - p, s);
    assert (q - p) * s == q * s - p * s;
  }

  /** Floor division and modulo are the unique quotient and in-range remainder. */
  lemma DivModUnique(g: int, s: int, t: int, r: int)
    requires s > 0 && 0 <= r < s && g == t * s + r
    ensures g / s == t && g % s == r
  {
    var q, m := g / s, g % s;
    MulSign(q - t, s);
    assert (q - t) * s == r - m;
  }

  /**
   * The split is the only one with in-range remainders: any tile point and
   * in-range remainder that `tile_and_remain_indices_to_grid` combines into
   * a grid point are exactly what `grid_to_tile_and_remain_indices` gives.
   */
  lemma SplitUnique(tile: seq<int>, rem: seq<int>, sizes: seq<int>)
    requires |tile| == |sizes| && AllPositive(sizes) && InRange(rem, sizes)
    ensures var g := TileAndRemainToGrid(tile, rem, sizes);
      TileIndices(g, sizes) == tile && RemainIndices(g, sizes) == rem
  {
    var g := TileAndRemainToGrid(tile, rem, sizes);
    forall i | 0 <= i < |sizes|
      ensures g[i] / sizes[i] == tile[i] && g[i] % sizes[i] == rem[i]
    {
      DivModUnique(g[i], sizes[i], tile[i], rem[i]);
    }
  }

  /**
   * Row-major position: the sum over axes of index * (product of the sizes
   * of all later axes), as `remain_indices_to_remain_index` and the tile
   * offset loop of `read_tile_data` compute it. Indices may be negative.
   */
  function RowMajorIndex(idx: seq<int>, sizes: seq<int>): int
    requires |idx| >= |sizes|
  {
    if sizes == [] then 0
    else idx[0] * Product(sizes[1..]) + RowMajorIndex(idx[1..], sizes[1..])
  }

  /**
   * `remain_indices_to_remain_index` (and the same loop over TileCount in
   * `read_tile_data`): an accumulator over the axes, each term built by an
   * inner product loop.
   */
  method RemainIndicesToRemainIndex(indices: seq<int>, sizes: seq<int>) returns (sum: int)
    requires |indices| >= |sizes|
    ensures sum == RowMajorIndex(indices, sizes)
  {
    var n := |sizes|;
    sum := 0;
    for i := 0 to n
      invariant sum + RowMajorIndex(indices[i..], sizes[i..]) == RowMajorIndex(indices, sizes)
    {
      var mult := indices[i];
      for j := i + 1 to n
        invariant mult == indices[i] * Product(sizes[i + 1..j])
      {
        ProductSnoc(sizes[i + 1..j], sizes[j]);
        assert sizes[i + 1..j + 1] == sizes[i + 1..j] + [sizes[j]];
        mult := mult * sizes[j];
      }
      assert sizes[i..][1..] == sizes[i + 1..n] && indices[i..][1..] == indices[i + 1..];
      sum := sum + mult;
    }
  }

  /**
   * Remainders in range map into [0, cube_size): the row-major index of an
   * in-range point is non-negative and below the product of the sizes.
   */
  lemma {:induction false} RowMajorInRange(idx: seq<int>, sizes: seq<int>)
    requires InRange(idx, sizes)
    ensures 0 <= RowMajorIndex(idx, sizes) < Product(sizes)
  {
    if sizes != [] {
      RowMajorInRange(idx[1..], sizes[1..]);
      var p := Product(sizes[1..]);
      var r := RowMajorIndex(idx[1..], sizes[1..]);
      assert 0 <= idx[0] * p <= (sizes[0] - 1) * p;
      assert (sizes[0] - 1) * p + p == sizes[0] * p;
    }
  }

  lemma {:induction false} RowMajorSnoc(idx: seq<int>, sizes: seq<int>, x: int, s: int)
    requires |idx| == |sizes|
    ensures RowMajorIndex(idx + [x], sizes + [s]) == RowMajorIndex(idx, sizes) * s + x
  {
    if sizes == [] {
      assert (idx + [x])[1..] == [] && ([] + [s])[1..] == [];
    } else {
      assert (idx + [x])[1..] == idx[1..] + [x];
      assert (sizes + [s])[1..] == sizes[1..] + [s];
      RowMajorSnoc(idx[1..], sizes[1..], x, s);
      ProductSnoc(sizes[1..], s);
      var p := Product(sizes[1..]);
      var r := RowMajorIndex(idx[1..], sizes[1..]);
      assert idx[0] * (p * s) + (r * s + x) == (idx[0] * p + r) * s + x;
    }
  }

  /**
   * The writers' decoding of a linear index: the last axis gets pos mod its
   * size, and the quotient is decoded over the axes before it.
   */
  function RowMajorDecode(pos: int, sizes: seq<int>): (idx: seq<int>)
    requires AllPositive(sizes)
    ensures |idx| == |sizes|
    decreases |sizes|
  {
    if |sizes| == 0 then []
    else
      var n := |sizes| - 1;
      assert sizes[n] > 0;
      RowMajorDecode(pos / sizes[n], sizes[..n]) + [pos % sizes[n]]
  }

  /**
   * The loop of the writers (`write_projection`, `write_planes`,
   * `write_swapped_axis`, `write_shifted`) that turns a linear cube or
   * point number into per-axis indices by repeated mod and div, last axis
   * first.
   */
  method LinearToIndices(pos: int, sizes: seq<int>) returns (pt: seq<int>)
    requires AllPositive(sizes)
    ensures pt == RowMajorDecode(pos, sizes)
  {
    var n := |sizes|;
    pt := seq(n, _ => 0);
    var p := pos;
    assert sizes[..n] == sizes && pt[n..] == [];
    for j := 0 to n
      invariant |pt| == n
      invariant RowMajorDecode(pos, sizes) == RowMajorDecode(p, sizes[..n - j]) + pt[n - j..]
    {
      var d := n - j - 1;
      assert sizes[..d + 1][..d] == sizes[..d];
      assert RowMajorDecode(p, sizes[..d + 1]) == RowMajorDecode(p / sizes[d], sizes[..d]) + [p % sizes[d]];
      pt := pt[d := p % sizes[d]];
      assert pt[d..] == [p % sizes[d]] + pt[d + 1..];
      p := p / sizes[d];
    }
    assert sizes[..0] == [];
  }

  /** Decoding a row-major index gives back the in-range indices it encodes. */
  lemma {:induction false} DecodeEncode(idx: seq<int>, sizes: seq<int>)
    requires AllPositive(sizes) && InRange(idx, sizes)
    ensures RowMajorDecode(RowMajorIndex(idx, sizes), sizes) == idx
  {
    var n := |sizes|;
    if n > 0 {
      var init, x := idx[..n - 1], idx[n - 1];
      var sInit, s := sizes[..n - 1], sizes[n - 1];
      assert idx == init + [x] && sizes == sInit + [s];
      RowMajorSnoc(init, sInit, x, s);
      var r := RowMajorIndex(init, sInit);
      DivModUnique(r * s + x, s, r, x);
      DecodeEncode(init, sInit);
    }
  }

  /**
   * Encoding the decoding of any position in [0, product) gives the position
   * back, and the decoded indices are in range: together with DecodeEncode,
   * row-major order is a bijection between in-range index tuples and
   * [0, product of the sizes).
   */
  lemma {:induction false} EncodeDecode(pos: int, sizes: seq<int>)
    requires AllPositive(sizes) && 0 <= pos < Product(sizes)
    ensures InRange(RowMajorDecode(pos, sizes), sizes)
    ensures RowMajorIndex(RowMajorDecode(pos, sizes), sizes) == pos
    decreases |sizes|
  {
    var n := |sizes|;
    if n > 0 {
      var sInit, s := sizes[..n - 1], sizes[n - 1];
      assert sizes == sInit + [s];
      ProductSnoc(sInit, s);
      var p := Product(sInit);
      var q, m := pos / s, pos % s;
      QuotientBound(pos, s, p);
      EncodeDecode(q, sInit);
      var d := RowMajorDecode(q, sInit);
      assert RowMajorDecode(pos, sizes) == d + [m];
      RowMajorSnoc(d, sInit, m, s);
    }
  }

  /**
   * The writers visit cube number i and point number j inside it at the grid
   * point whose tile indices decode i over the TileCounts and whose
   * remainders decode j over the TileSizes, so each (cube, point) pair
   * names a distinct grid point.
   */
  lemma WriterPointSplit(i: int, j: int, counts: seq<int>, sizes: seq<int>)
    requires |counts| == |sizes| && AllPositive(counts) && AllPositive(sizes)
    requires 0 <= i < Product(counts) && 0 <= j < Product(sizes)
    ensures var g := TileAndRemainToGrid(RowMajorDecode(i, counts), RowMajorDecode(j, sizes), sizes);
      && RowMajorIndex(TileIndices(g, sizes), counts) == i
      && RowMajorIndex(RemainIndices(g, sizes), sizes) == j
  {
    EncodeDecode(i, counts);
    EncodeDecode(j, sizes);
    SplitUnique(RowMajorDecode(i, counts), RowMajorDecode(j, sizes), sizes);
  }
}
