/**
 * `optimize_tile_size`: choose tile sizes for a file about to be written,
 * starting from half of each axis and halving the largest tile edge until a
 * tile of 4-byte floats is under 32 KiB, then recompute TileCount and
 * FillPointCount. The axis headers are a list of dictionaries updated in
 * place, modelled as an array of header values.
 */
module TileSize {
  import opened Addressing
  import opened UcsfHeader

  const TileByteCap: int := 32 * 1024

  function TileSizes(axes: seq<AxisHeader>): (r: seq<int>)
    ensures |r| == |axes|
    ensures forall i :: 0 <= i < |axes| ==> r[i] == axes[i].tileSize
  {
    seq(|axes|, i requires 0 <= i < |axes| => axes[i].tileSize)
  }

  /** The starting sizes: half of each axis's DataPointCount, rounded down. */
  function InitialTileSizes(dpcs: seq<nat>): (r: seq<int>)
    ensures |r| == |dpcs|
  {
    seq(|dpcs|, i requires 0 <= i < |dpcs| => dpcs[i] / 2)
  }

  /** The header with a new TileSize and the TileCount and FillPointCount it implies; MarginalPoint is not touched. */
  function Retiled(h: AxisHeader, ts: nat): AxisHeader
    requires ts > 0
  {
    var tc := TileCountFor(h.dataPointCount, ts);
    h.(tileSize := ts, tileCount := tc, fillPointCount := ts * tc)
  }

  function Sum(s: seq<int>): int
  {
    if s == [] then 0 else s[0] + Sum(s[1..])
  }

  lemma {:induction false} SumUpdate(s: seq<int>, k: nat, v: int)
    requires k < |s|
    ensures Sum(s[k := v]) == Sum(s) - s[k] + v
  {
    if k > 0 {
      SumUpdate(s[1..], k - 1, v);
      assert s[k := v][1..] == s[1..][k - 1 := v];
    }
  }

  lemma {:induction false} SumNonNegative(s: seq<int>)
    requires forall i :: 0 <= i < |s| ==> s[i] >= 0
    ensures Sum(s) >= 0
  {
    if s != [] {
      SumNonNegative(s[1..]);
    }
  }

  /** A product of sizes between 1 and m is 1 unless m is at least 2. */
  lemma {:induction false} ProductOfSmall(s: seq<int>, m: int)
    requires forall i :: 0 <= i < |s| ==> 1 <= s[i] <= m
    ensures m >= 2 || Product(s) == 1
  {
    if s != [] {
      ProductOfSmall(s[1..], m);
    }
  }


  /** The first loop of `optimize_tile_size`: each TileSize set to half its DataPointCount. */
  method StartSizes(a: array<AxisHeader>, ndim: nat)
    requires ndim <= a.Length
    modifies a
    ensures forall j :: 0 <= j < ndim ==> a[j] == old(a[j]).(tileSize := old(a[j]).dataPointCount / 2)
    ensures forall j :: ndim <= j < a.Length ==> a[j] == old(a[j])
  {
    for i := 0 to ndim
      invariant forall j :: 0 <= j < i ==> a[j] == old(a[j]).(tileSize := old(a[j]).dataPointCount / 2)
      invariant forall j :: i <= j < a.Length ==> a[j] == old(a[j])
    {
      a[i] := a[i].(tileSize := a[i].dataPointCount / 2);
    }
  }

  /** The last loop of `optimize_tile_size`: TileCount and FillPointCount recomputed from TileSize. */
  method Recount(a: array<AxisHeader>, ndim: nat)
    requires ndim <= a.Length
    requires forall j :: 0 <= j < ndim ==> a[j].tileSize >= 1
    modifies a
    ensures forall j :: 0 <= j < ndim ==> a[j] == Retiled(old(a[j]), old(a[j]).tileSize)
    ensures forall j :: ndim <= j < a.Length ==> a[j] == old(a[j])
  {
    for i := 0 to ndim
      invariant forall j :: 0 <= j < i ==> a[j] == Retiled(old(a[j]), old(a[j]).tileSize)
      invariant forall j :: i <= j < a.Length ==> a[j] == old(a[j])
    {
      a[i] := Retiled(a[i], a[i].tileSize);
    }
  }

  /**
   * One measuring pass of the `while True` loop as written: a larger tile
   * size is overwritten with max_tilesize (still 0) instead of the other way
   * round, so every positive size contributes a factor 0 and the measured
   * size is 0 whenever there is an axis.
   */
  method SizingPassAsWritten(sizes: seq<int>) returns (tempSize: int, maxDim: nat)
    requires forall i :: 0 <= i < |sizes| ==> sizes[i] >= 0
    ensures tempSize == (if |sizes| == 0 then 4 else 0)
    ensures tempSize < TileByteCap
  {
    tempSize, maxDim := 4, 0;
    var maxTileSize := 0;
    for i := 0 to |sizes|
      invariant maxTileSize == 0
      invariant tempSize == (if i == 0 then 4 else 0)
    {
      var ts := sizes[i];
      if ts > maxTileSize {
        ts := maxTileSize;
        maxDim := i;
      }
      tempSize := tempSize * ts;
    }
  }

  /**
   * One measuring pass as evidently intended: the byte size of a tile and
   * the first axis with the largest tile size.
   */
  method SizingPass(sizes: seq<int>) returns (tempSize: int, maxDim: nat)
    requires forall i :: 0 <= i < |sizes| ==> sizes[i] >= 1
    ensures tempSize == 4 * Product(sizes)
    ensures |sizes| > 0 ==>
      && maxDim < |sizes|
      && (forall j :: 0 <= j < |sizes| ==> sizes[j] <= sizes[maxDim])
      && (forall j :: 0 <= j < maxDim ==> sizes[j] < sizes[maxDim])
  {
    tempSize, maxDim := 4, 0;
    var maxTileSize := 0;
    for i := 0 to |sizes|
      invariant tempSize == 4 * Product(sizes[..i])
      invariant i == 0 ==> maxTileSize == 0 && maxDim == 0
      invariant i > 0 ==>
        && maxDim < i && maxTileSize == sizes[maxDim]
        && (forall j :: 0 <= j < i ==> sizes[j] <= maxTileSize)
        && (forall j :: 0 <= j < maxDim ==> sizes[j] < maxTileSize)
    {
      var ts := sizes[i];
      if ts > maxTileSize {
        maxTileSize := ts;
        maxDim := i;
      }
      assert sizes[..i + 1] == sizes[..i] + [ts];
      ProductSnoc(sizes[..i], ts);
      tempSize := tempSize * ts;
    }
    assert sizes[..|sizes|] == sizes;
  }

  /**
   * `optimize_tile_size` as written. Because the measuring pass always
   * reports 0 bytes, the `while True` loop ends after its first pass and no
   * tile size is ever halved: every axis gets half its DataPointCount,
   * whatever the resulting tile size.
   */
  method OptimizeTileSizeAsWritten(a: array<AxisHeader>, ndim: nat)
    requires ndim <= a.Length
    requires forall i :: 0 <= i < ndim ==> a[i].dataPointCount >= 2
    modifies a
    ensures forall i :: 0 <= i < ndim ==> a[i] == Retiled(old(a[i]), old(a[i]).dataPointCount / 2)
    ensures forall i :: ndim <= i < a.Length ==> a[i] == old(a[i])
  {
    StartSizes(a, ndim);
    var tempSize, maxDim := SizingPassAsWritten(TileSizes(a[..ndim]));
    // tempSize < 32 KiB here, so the loop's break is taken on the first pass.
    Recount(a, ndim);
  }

  /**
   * The sizes the as-written routine picks for a 1024 x 1024 plane: 512 x 512
   * floats, a 1 MiB tile, far above the 32 KiB the loop is meant to enforce.
   */
  lemma AsWrittenExceedsCap()
    ensures InitialTileSizes([1024, 1024]) == [512, 512]
    ensures 4 * Product(InitialTileSizes([1024, 1024])) >= TileByteCap
  {
    var s := InitialTileSizes([1024, 1024]);
    assert s == [512, 512];
    assert Product(s) == 512 * Product([512]) == 512 * 512;
  }

  /** The invariant of the halving loop: only TileSize has changed, within [1, DataPointCount / 2]. */
  ghost predicate Halving(a: seq<AxisHeader>, orig: seq<AxisHeader>, ndim: nat)
    requires ndim <= |a| == |orig|
  {
    && (forall i :: 0 <= i < ndim ==>
          1 <= a[i].tileSize <= orig[i].dataPointCount / 2 && a[i] == orig[i].(tileSize := a[i].tileSize))
    && (forall i :: ndim <= i < |a| ==> a[i] == orig[i])
  }

  /**
   * The halving loop as evidently intended: while a tile of 4-byte floats is
   * not under 32 KiB, halve the first largest tile size.
   */
  method HalveUntilSmall(a: array<AxisHeader>, ndim: nat)
    requires ndim <= a.Length && Halving(a[..], a[..], ndim)
    modifies a
    ensures Halving(a[..], old(a[..]), ndim)
    ensures 4 * Product(TileSizes(a[..ndim])) < TileByteCap
  {
    ghost var orig := a[..];
    while true
      invariant Halving(a[..], orig, ndim)
      decreases Sum(TileSizes(a[..ndim]))
    {
      var sizes := TileSizes(a[..ndim]);
      var tempSize, maxDim := SizingPass(sizes);
      if tempSize < TileByteCap {
        break;
      }
      ProductOfSmall(sizes, sizes[maxDim]);
      var ts := a[maxDim].tileSize;
      SumNonNegative(TileSizes(a[..ndim])[maxDim := ts / 2]);
      a[maxDim] := a[maxDim].(tileSize := ts / 2);
      assert TileSizes(a[..ndim]) == sizes[maxDim := ts / 2];
      SumUpdate(sizes, maxDim, ts / 2);
    }
  }

  /**
   * `optimize_tile_size` as evidently intended (the largest size is
   * remembered): every tile size is between 1 and half its axis, the tile
   * fits under 32 KiB, and TileCount and FillPointCount are recomputed for
   * the new size.
   */
  method OptimizeTileSize(a: array<AxisHeader>, ndim: nat)
    requires ndim <= a.Length
    requires forall i :: 0 <= i < ndim ==> a[i].dataPointCount >= 2
    modifies a
    ensures forall i :: 0 <= i < ndim ==>
      1 <= a[i].tileSize <= old(a[i]).dataPointCount / 2 && a[i] == Retiled(old(a[i]), a[i].tileSize)
    ensures forall i :: ndim <= i < a.Length ==> a[i] == old(a[i])
    ensures 4 * Product(TileSizes(a[..ndim])) < TileByteCap
  {
    StartSizes(a, ndim);
    HalveUntilSmall(a, ndim);
    ghost var halved := a[..];
    Recount(a, ndim);
    assert TileSizes(a[..ndim]) == TileSizes(halved[..ndim]);
  }
}
