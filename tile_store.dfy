/**
 * Where a tile lives in a UCSF file, what reading it yields, and the
 * per-worker most-recently-used tile list of `read_tile_data`, stated as
 * functions on values. The class in ucsf_tool.dfy updates its lists in
 * place and is proved to follow these functions.
 */
module TileStore {
  import opened Bytes
  import opened Wrappers
  import opened Addressing
  import opened UcsfHeader

  /** `tile_count_buffer`: at most this many tiles are held per worker. */
  const TileCountBuffer: nat := 256

  /** The geometry tile addressing depends on: TileSize and TileCount per axis. */
  datatype Layout = Layout(tileSizes: seq<int>, tileCounts: seq<int>)

  predicate LayoutOk(l: Layout)
  {
    |l.tileSizes| == |l.tileCounts| > 0 && AllPositive(l.tileSizes) && AllPositive(l.tileCounts)
  }

  function LayoutOf(axes: seq<AxisHeader>): Layout
  {
    Layout(seq(|axes|, i requires 0 <= i < |axes| => axes[i].tileSize as int),
           seq(|axes|, i requires 0 <= i < |axes| => axes[i].tileCount as int))
  }

  /** Headers `read_axis_header` accepted give a usable layout. */
  lemma LayoutOfOk(axes: seq<AxisHeader>)
    requires |axes| > 0
    requires forall k :: 0 <= k < |axes| ==> DerivedConsistent(axes[k]) && axes[k].dataPointCount > 0
    ensures LayoutOk(LayoutOf(axes))
  {
    forall k | 0 <= k < |axes|
      ensures axes[k].tileCount > 0
    {
      DerivedFieldBounds(axes[k].dataPointCount, axes[k].tileSize);
    }
  }

  /** `init_pos`: the first data byte, after the file and axis headers. */
  function InitPos(l: Layout): int
  {
    180 + 128 * |l.tileSizes|
  }

  /** `cube_size`: values per tile. */
  function CubeSize(l: Layout): int
  {
    Product(l.tileSizes)
  }

  /** `cube_float_size`: bytes per tile. */
  function CubeFloatSize(l: Layout): int
  {
    4 * CubeSize(l)
  }

  /** `tile_pos` of `read_tile_data`: the byte offset of a tile. */
  function TileOffset(l: Layout, tile: seq<int>): int
    requires |tile| >= |l.tileCounts|
  {
    InitPos(l) + CubeFloatSize(l) * RowMajorIndex(tile, l.tileCounts)
  }

  /** The "not outlier" test: the whole tile lies past offset 0 and inside the file. */
  predicate InFile(l: Layout, fileSize: int, off: int)
  {
    off + CubeFloatSize(l) < fileSize + 1 && off > 0
  }

  /** `unpack_cube_float`: consecutive 4-byte words decoded one by one. */
  function DecodeWords(unpack: FloatDecode, b: seq<byte>): (r: seq<real>)
    requires |b| % 4 == 0
    ensures |r| == |b| / 4
  {
    seq(|b| / 4, i requires 0 <= i < |b| / 4 => unpack(b[4 * i..4 * i + 4]))
  }

  /**
   * The values a read of the tile at `tile` yields: the decoded bytes of the
   * tile when it lies in the file, otherwise `cube_size` zeros.
   */
  function FreshValues(l: Layout, data: seq<byte>, unpack: FloatDecode, tile: seq<int>): (r: seq<real>)
    requires LayoutOk(l) && |tile| == |l.tileCounts|
    ensures |r| == CubeSize(l)
  {
    ProductPositive(l.tileSizes);
    var off := TileOffset(l, tile);
    if InFile(l, |data|, off) then DecodeWords(unpack, data[off..off + CubeFloatSize(l)])
    else seq(CubeSize(l), _ => 0.0)
  }

  /**
   * The miss path of `read_tile_data`: the tile's byte offset from its
   * row-major index, then its CubeSize floats when the whole tile lies past
   * offset 0 and inside the file of fileSize bytes, and zeros otherwise.
   */
  method ReadTile(l: Layout, data: seq<byte>, fileSize: int, unpack: FloatDecode, tile: seq<int>) returns (values: seq<real>)
    requires LayoutOk(l) && |tile| == |l.tileCounts| && fileSize == |data|
    ensures values == FreshValues(l, data, unpack, tile)
  {
    var sum := RemainIndicesToRemainIndex(tile, l.tileCounts);
    var tilePos := InitPos(l) + CubeFloatSize(l) * sum;
    ProductPositive(l.tileSizes);
    values := seq(CubeSize(l), _ => 0.0);
    if tilePos + CubeFloatSize(l) < fileSize + 1 && tilePos > 0 {
      values := DecodeWords(unpack, data[tilePos..tilePos + CubeFloatSize(l)]);
    }
  }

  /** A cached tile: its tile indices (`TilePos`) and its values. */
  datatype Tile = Tile(pos: seq<int>, values: seq<real>)

  /** The first position in the list whose tile has the given indices. */
  function FindTile(list: seq<Tile>, pos: seq<int>): (r: Option<nat>)
    ensures r.Some? ==>
              && r.value < |list| && list[r.value].pos == pos
              && forall k :: 0 <= k < r.value ==> list[k].pos != pos
    ensures r.None? ==> forall k :: 0 <= k < |list| ==> list[k].pos != pos
  {
    if list == [] then None
    else if list[0].pos == pos then Some(0)
    else match FindTile(list[1..], pos)
      case None => None
      case Some(i) => Some(i + 1)
  }

  /** `tile_list.insert(0, tile_list.pop(i))`. */
  function Promote(list: seq<Tile>, i: nat): seq<Tile>
    requires i < |list|
  {
    [list[i]] + list[..i] + list[i + 1..]
  }

  /** `tile_list.insert(0, t)` followed by `pop(tile_count_buffer)` on overflow. */
  function InsertFront(list: seq<Tile>, t: Tile): seq<Tile>
  {
    var l := [t] + list;
    if |l| > TileCountBuffer then l[..TileCountBuffer] + l[TileCountBuffer + 1..] else l
  }

  /** The list after `read_tile_data` for the indices of `t`, where `t` is the fresh read. */
  function Access(list: seq<Tile>, t: Tile): seq<Tile>
  {
    match FindTile(list, t.pos)
    case Some(i) => Promote(list, i)
    case None => InsertFront(list, t)
  }

  predicate DistinctPos(list: seq<Tile>)
  {
    forall i, j :: 0 <= i < j < |list| ==> list[i].pos != list[j].pos
  }

  /**
   * What every worker's list keeps: at most `tile_count_buffer` tiles, no
   * tile twice, and every tile holding exactly what a fresh read gives.
   */
  predicate CacheValid(l: Layout, data: seq<byte>, unpack: FloatDecode, list: seq<Tile>)
  {
    && LayoutOk(l)
    && |list| <= TileCountBuffer
    && DistinctPos(list)
    && forall k :: 0 <= k < |list| ==>
         |list[k].pos| == |l.tileCounts| && list[k].values == FreshValues(l, data, unpack, list[k].pos)
  }

  /** Promotion is a rearrangement: same tiles, same length, no repeats created. */
  lemma PromoteShape(list: seq<Tile>, i: nat)
    requires i < |list|
    ensures var r := Promote(list, i);
      && r[0] == list[i] && |r| == |list| && r[1..] == list[..i] + list[i + 1..]
      && (forall x :: x in r ==> x in list)
      && (DistinctPos(list) ==> DistinctPos(r))
  {
    var r := Promote(list, i);
    var rest := list[..i] + list[i + 1..];
    assert r == [list[i]] + rest;
    assert forall k :: 0 <= k < |rest| ==> rest[k] == list[if k < i then k else k + 1];
    assert forall a :: 0 <= a < |r| ==> r[a] == list[if a == 0 then i else if a <= i then a - 1 else a];
    if DistinctPos(list) {
      forall a, b | 0 <= a < b < |r|
        ensures r[a].pos != r[b].pos
      {
        var ia := if a == 0 then i else if a <= i then a - 1 else a;
        var ib := if b <= i then b - 1 else b;
        assert r[a] == list[ia] && r[b] == list[ib] && ia != ib;
      }
    }
  }

  /** A short, repeat-free list of tiles drawn from a valid list is valid. */
  lemma ValidFromMembers(l: Layout, data: seq<byte>, unpack: FloatDecode, list: seq<Tile>, r: seq<Tile>)
    requires CacheValid(l, data, unpack, list)
    requires |r| <= TileCountBuffer && DistinctPos(r)
    requires forall x :: x in r ==> x in list
    ensures CacheValid(l, data, unpack, r)
  {
    forall k | 0 <= k < |r|
      ensures |r[k].pos| == |l.tileCounts| && r[k].values == FreshValues(l, data, unpack, r[k].pos)
    {
      assert r[k] in list;
    }
  }

  /**
   * A hit moves the tile found to the head: the length and the other
   * tiles' relative order are unchanged, no tile appears twice, and the
   * tile returned holds what a fresh read gives.
   */
  lemma AccessHit(l: Layout, data: seq<byte>, unpack: FloatDecode, list: seq<Tile>, t: Tile)
    requires CacheValid(l, data, unpack, list)
    requires |t.pos| == |l.tileCounts| && t.values == FreshValues(l, data, unpack, t.pos)
    requires FindTile(list, t.pos).Some?
    ensures var r := Access(list, t); var i := FindTile(list, t.pos).value;
      && r[0] == list[i] == t
      && |r| == |list| && r[1..] == list[..i] + list[i + 1..]
      && CacheValid(l, data, unpack, r)
  {
    var i := FindTile(list, t.pos).value;
    PromoteShape(list, i);
    ValidFromMembers(l, data, unpack, list, Promote(list, i));
  }

  /**
   * A miss puts the fresh read at the head and keeps the list's order
   * behind it, dropping the oldest tile when the list was full; no tile
   * appears twice and every tile still holds what a fresh read gives.
   */
  lemma AccessMiss(l: Layout, data: seq<byte>, unpack: FloatDecode, list: seq<Tile>, t: Tile)
    requires CacheValid(l, data, unpack, list)
    requires |t.pos| == |l.tileCounts| && t.values == FreshValues(l, data, unpack, t.pos)
    requires FindTile(list, t.pos).None?
    ensures var r := Access(list, t);
      && r[0] == t
      && |r| == (if |list| < TileCountBuffer then |list| + 1 else TileCountBuffer)
      && r[1..] == list[..|r| - 1]
      && CacheValid(l, data, unpack, r)
  {
    var r := Access(list, t);
    var full := [t] + list;
    assert forall k :: 1 <= k < |full| ==> full[k] == list[k - 1];
    if |full| > TileCountBuffer {
      assert r == full[..TileCountBuffer];
    }
    assert r == full[..|r|];
    assert r[1..] == list[..|r| - 1];
  }

  /** Every worker's list (`tile_list[fd]` for each fd) is valid. */
  predicate PoolValid(l: Layout, data: seq<byte>, unpack: FloatDecode, lists: seq<seq<Tile>>)
    decreases |lists|
  {
    lists == [] || (CacheValid(l, data, unpack, lists[0]) && PoolValid(l, data, unpack, lists[1..]))
  }

  lemma {:induction false} PoolValidAt(l: Layout, data: seq<byte>, unpack: FloatDecode, lists: seq<seq<Tile>>, fd: nat)
    requires PoolValid(l, data, unpack, lists) && fd < |lists|
    ensures CacheValid(l, data, unpack, lists[fd])
    decreases fd
  {
    if fd > 0 {
      PoolValidAt(l, data, unpack, lists[1..], fd - 1);
    }
  }

  /** Replacing one worker's list by a valid one keeps the pool valid. */
  lemma {:induction false} PoolValidUpdate(l: Layout, data: seq<byte>, unpack: FloatDecode, lists: seq<seq<Tile>>, fd: nat, list: seq<Tile>)
    requires PoolValid(l, data, unpack, lists) && fd < |lists| && CacheValid(l, data, unpack, list)
    ensures PoolValid(l, data, unpack, lists[fd := list])
    decreases fd
  {
    if fd == 0 {
      assert lists[fd := list][1..] == lists[1..];
    } else {
      PoolValidUpdate(l, data, unpack, lists[1..], fd - 1, list);
      assert lists[fd := list][1..] == lists[1..][fd - 1 := list];
    }
  }

  /** nproc empty lists, as `ucsf_open` creates them, form a valid pool. */
  lemma {:induction false} PoolValidEmpty(l: Layout, data: seq<byte>, unpack: FloatDecode, n: nat)
    requires LayoutOk(l)
    ensures PoolValid(l, data, unpack, seq<seq<Tile>>(n, _ => []))
    decreases n
  {
    if n > 0 {
      PoolValidEmpty(l, data, unpack, n - 1);
      assert seq<seq<Tile>>(n, _ => [])[1..] == seq<seq<Tile>>(n - 1, _ => []);
    }
  }

  /**
   * `get_data`'s value at a grid point: the tile found by the split,
   * indexed by the row-major position of the remainder.
   */
  function ValueAt(l: Layout, data: seq<byte>, unpack: FloatDecode, pt: seq<int>): real
    requires LayoutOk(l) && |pt| >= |l.tileSizes|
  {
    var tile := TileIndices(pt, l.tileSizes);
    var rem := RemainIndices(pt, l.tileSizes);
    SplitInverse(pt, l.tileSizes);
    RowMajorInRange(rem, l.tileSizes);
    FreshValues(l, data, unpack, tile)[RowMajorIndex(rem, l.tileSizes)]
  }

  /** The spectrum as a total function from grid points to intensities. */
  function GridOf(l: Layout, data: seq<byte>, unpack: FloatDecode): seq<int> -> real
  {
    pt => if LayoutOk(l) && |pt| >= |l.tileSizes| then ValueAt(l, data, unpack, pt) else 0.0
  }

  lemma DecodeWordsAt(unpack: FloatDecode, b: seq<byte>, i: int)
    requires |b| % 4 == 0 && 0 <= i < |b| / 4
    ensures DecodeWords(unpack, b)[i] == unpack(b[4 * i..4 * i + 4])
  {
  }

  lemma SliceOfSlice(data: seq<byte>, off: int, len: int, i: int)
    requires 0 <= off && off + len <= |data| && 0 <= i && 4 * i + 4 <= len
    ensures data[off..off + len][4 * i..4 * i + 4] == data[off + 4 * i..off + 4 * i + 4]
  {
    var a := data[off..off + len][4 * i..4 * i + 4];
    var b := data[off + 4 * i..off + 4 * i + 4];
    assert |a| == 4 == |b|;
    forall j | 0 <= j < 4
      ensures a[j] == b[j]
    {
      assert a[j] == data[off + 4 * i + j];
    }
  }

  /**
   * A point whose tile lies in the file reads the 4 bytes at
   * init_pos + cube_float_size * (tile number) + 4 * (remainder number), the
   * direct address `get_point_data` computes; a point whose tile does not
   * reads 0.
   */
  lemma ValueAtDirect(l: Layout, data: seq<byte>, unpack: FloatDecode, pt: seq<int>)
    requires LayoutOk(l) && |pt| >= |l.tileSizes|
    ensures var tile := TileIndices(pt, l.tileSizes);
      var rem := RowMajorIndex(RemainIndices(pt, l.tileSizes), l.tileSizes);
      var off := TileOffset(l, tile);
      && 0 <= rem < CubeSize(l)
      && (InFile(l, |data|, off) ==>
            0 <= off + 4 * rem && off + 4 * rem + 4 <= |data|
            && ValueAt(l, data, unpack, pt) == unpack(data[off + 4 * rem..off + 4 * rem + 4]))
      && (!InFile(l, |data|, off) ==> ValueAt(l, data, unpack, pt) == 0.0)
  {
    var tile := TileIndices(pt, l.tileSizes);
    var remIdx := RemainIndices(pt, l.tileSizes);
    SplitInverse(pt, l.tileSizes);
    RowMajorInRange(remIdx, l.tileSizes);
    var rem := RowMajorIndex(remIdx, l.tileSizes);
    var off := TileOffset(l, tile);
    if InFile(l, |data|, off) {
      var bytes := data[off..off + CubeFloatSize(l)];
      DecodeWordsAt(unpack, bytes, rem);
      SliceOfSlice(data, off, CubeFloatSize(l), rem);
    }
  }

  /**
   * Tile addressing does not check the grid bounds, only the file bounds.
   * In a 2-D file with 2x2 tiles of 2x2 points (436 header bytes, 64 data
   * bytes), the point (0, 4) just past the last column lands on tile number
   * 2, which is the tile of (2, 0): the two points read the same value.
   */
  lemma PastLastColumnAliases(data: seq<byte>, unpack: FloatDecode)
    requires |data| == 500
    ensures var l := Layout([2, 2], [2, 2]);
      LayoutOk(l) && ValueAt(l, data, unpack, [0, 4]) == ValueAt(l, data, unpack, [2, 0])
  {
    var l := Layout([2, 2], [2, 2]);
    assert TileIndices([0, 4], l.tileSizes) == [0, 2];
    assert TileIndices([2, 0], l.tileSizes) == [1, 0];
    assert RemainIndices([0, 4], l.tileSizes) == [0, 0] == RemainIndices([2, 0], l.tileSizes);
    assert RowMajorIndex([0, 2], [2, 2]) == 2 == RowMajorIndex([1, 0], [2, 2]);
  }

  /**
   * In the same file the point (0, -1) before the first column lands on
   * tile number -1, 16 bytes before the data: the value read there is the
   * second axis header's bytes 116..119 taken as a float.
   */
  lemma BeforeFirstColumnReadsHeader(data: seq<byte>, unpack: FloatDecode)
    requires |data| == 500
    ensures var l := Layout([2, 2], [2, 2]);
      LayoutOk(l) && ValueAt(l, data, unpack, [0, -1]) == unpack(data[424..428])
  {
    var l := Layout([2, 2], [2, 2]);
    assert TileIndices([0, -1], l.tileSizes) == [0, -1];
    assert RemainIndices([0, -1], l.tileSizes) == [0, 1];
    assert RowMajorIndex([0, -1], [2, 2]) == -1;
    assert RowMajorIndex([0, 1], [2, 2]) == 1;
    assert CubeSize(l) == 4;
    assert TileOffset(l, [0, -1]) == 420;
    ValueAtDirect(l, data, unpack, [0, -1]);
  }
}
