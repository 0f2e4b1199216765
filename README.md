# UCSF spectral-file engine

This project models the `ucsfTool` engine of the iPick peak picker and
proves properties of that model. `ucsfTool` reads UCSF NMR spectrum files,
which are big-endian, tiled, multi-dimensional grids of 32-bit float
intensities. The model covers these parts of the engine:

- **Headers.** The 180-byte file header and the 128-byte axis headers are
  decoded, the derived axis fields are recomputed, and the writers
  re-encode both. The modules are `Bytes` and `UcsfHeader`.
- **Addressing.** A grid point is split into a tile and a remainder inside
  the tile. Tiles and the points within them are laid out in row-major
  order. The writers decode a linear index back into a point. The module
  is `Addressing`.
- **Tile reads.** `read_tile_data` reads one tile. Each worker process keeps
  its own most-recently-used list of at most 256 tiles. The module is
  `TileStore`.
- **Tile sizes.** `optimize_tile_size` chooses the tile size of a file about
  to be written. The module is `TileSize`.
- **Shifts.** Positions convert between chemical shifts (ppm) and grid
  positions. The module is `Shifts`.
- **Peak picking.** The box test of `is_local_maxima` is applied stage by
  stage along the axes, inside the sequential scan of
  `find_peaks_per_node`. The module is `PeakPick`.
- **Post-processing.** The height filter, the count filter and the noise
  median. The module is `Filters`.
- **Interpolation.** The parabolic interpolation of a peak position. The
  module is `Interpolation`.
- **Restraint.** `shift_restraint_to_grid_restraint` turns the given shifts
  into one set of grid positions per axis: the windows around the shifts'
  grid positions, or the whole axis when it has none. The module is
  `Restraint`.

The `ucsfTool` object itself is the class `Ucsf.UcsfTool`. Its fields are the
opened state, the file's bytes, the headers, one tile list per worker and
the per-worker minimum heights. Its methods update these fields in place
and are proved against the value-level functions of the modules above.
The spectrum a method reads is `Grid()`: the function from grid points to
the values `get_data` returns. The methods are shown to leave it unchanged.

Three points of meaning:

- **The `max_count` cut-off does nothing.** `find_peaks` sets
  `self.max_count` to 1000 ("maximum peak in a chunk", ucsftool.py:975),
  and `find_peaks_per_node` skips a candidate once more than that many peaks
  were found and the candidate lies below `min_heights[pnum]`
  (ucsftool.py:1141). That filter never fires when `max_count` is not
  negative, because `min_heights[pnum]` is lowered to |noise_level| and not
  to the peak height, and the noise filter has already skipped every
  candidate below that. `MaxCountIrrelevant` proves this.
- **`shift_to_grid` is off by one below zero.** Its half-step rounding
  truncates toward zero, so for a negative grid position the round trip
  through `grid_to_shift` returns the next position up. `GridShiftRoundTrip`
  states this behaviour as it is.
- **Tile addressing checks only the file bounds, not the grid bounds.** A
  point just outside the grid therefore reads another tile's value, or
  header bytes taken as a float. `PastLastColumnAliases` and
  `BeforeFirstColumnReadsHeader` state this.

Floats are opaque 4-byte words. A `FloatDecode` parameter maps them to
reals, and the only property assumed of it is the one the source's
division guards rely on: a word decodes to zero exactly when it is +0.0 or
-0.0. Arithmetic on shifts is exact real arithmetic.

## Model

| member | source | states |
|---|---|---|
| Bytes.BeU32RoundTrip | ucsftool.py:1814-1816 | a 32-bit field written big-endian and read back with `>I` gives the value written |
| Bytes.Pad | ucsftool.py:1812 | `struct.pack('6s')` keeps the first n bytes of the name and fills the rest with NUL: length n, byte i is s[i] or 0 |
| Bytes.StripNul | ucsftool.py:431 | removing NULs never lengthens the name and leaves no NUL byte in it |
| Bytes.PadStripRoundTrip | ucsftool.py:431 | a name of at most 6 bytes without NUL survives padding by the writer and NUL-stripping by the reader |
| UcsfHeader.FileHeaderRoundTrip | ucsftool.py:1792-1805 | a written file header is 180 bytes; reading a file that starts with it passes the "UCSF NMR" check and returns the same DimCount, DataCompCount and FileVersion |
| UcsfHeader.DerivedFieldBounds | ucsftool.py:434-445 | TileCount is the ceiling of DataPointCount / TileSize, so FillPointCount covers the data points and the margin is less than one tile |
| UcsfHeader.ParseAxisHeader | ucsftool.py:425-449 | an axis header decodes exactly when at least 32 bytes were read and TileSize and DataPointCount are non-zero; SpecFreq 0 also fails. A decoded header has consistent derived fields |
| UcsfHeader.ReadAxisHeadersSpec | ucsftool.py:418-478 | reading the axis headers succeeds exactly when there is at least one axis and every 128-byte block decodes; header k then comes from block k |
| UcsfHeader.AxisHeaderRoundTrip | ucsftool.py:1810-1820 | a written axis header is 128 bytes and reads back with the same counts and float words, the name padded and NUL-stripped, and fresh derived fields; it fails exactly when TileSize, DataPointCount or SpecFreq is zero |
| UcsfHeader.AxisHeaderRoundTripExact | ucsftool.py:1810-1820 | a consistent header with a short NUL-free name is read back unchanged |
| UcsfHeader.EncodeAxisHeadersAt | ucsftool.py:1810-1820 | the axis headers written in sequence occupy 128 bytes each, header k at offset 128 k |
| UcsfHeader.HeaderRegionRoundTrip | ucsftool.py:1792-1820 | a file header, then one axis header per dimension, then any data, reads back with the same three counts and the same axes |
| Addressing.GridToTileAndRemainIndices | ucsftool.py:603-613 | the loop builds the floor quotient and floor remainder of every coordinate by its TileSize |
| Addressing.SplitInverse | ucsftool.py:603-613 | for every grid point, negative coordinates included, the remainders lie in [0, TileSize) and tile * TileSize + remainder gives the point back |
| Addressing.TileAndRemainIndicesToGrid | ucsftool.py:653-661 | the loop builds tile * TileSize + remainder on every axis |
| Addressing.SplitUnique | ucsftool.py:653-661 | any tile and in-range remainder combine into a point whose split is exactly that tile and remainder |
| Addressing.RemainIndicesToRemainIndex | ucsftool.py:665-677 | the nested loops compute the row-major index: the sum over axes of index times the product of the later sizes |
| Addressing.RowMajorInRange | ucsftool.py:665-677 | the row-major index of in-range indices lies in [0, cube_size) |
| Addressing.LinearToIndices | ucsftool.py:1436-1448 | the writers' mod/div loop, last axis first, computes the row-major decoding of a linear index |
| Addressing.DecodeEncode | ucsftool.py:1436-1455 | decoding the row-major index of in-range indices gives the indices back |
| Addressing.EncodeDecode | ucsftool.py:1436-1455 | decoding any position in [0, product) gives in-range indices whose row-major index is the position, so row-major order is a bijection |
| Addressing.WriterPointSplit | ucsftool.py:1436-1455 | the grid point the writers build from cube i and point j splits back into exactly that cube's indices and that point's remainders |
| TileStore.LayoutOfOk | ucsftool.py:359-367 | headers that `read_axis_header` accepts give positive TileSizes and TileCounts |
| TileStore.ReadTile | ucsftool.py:568-590 | the miss path yields the tile's cube_size decoded floats when the whole tile lies inside the file past offset 0, and cube_size zeros otherwise |
| TileStore.FreshValues | ucsftool.py:568-590 | a tile read always yields cube_size values |
| TileStore.FindTile | ucsftool.py:560-561 | the search finds the first list position holding the tile, or reports that no position holds it |
| TileStore.PromoteShape | ucsftool.py:564 | moving a tile to the head keeps the length and the set of tiles and creates no repeats |
| TileStore.AccessHit | ucsftool.py:560-565 | a hit moves the tile to the head and keeps the other tiles in order; the list stays valid and the tile holds what a fresh read gives |
| TileStore.AccessMiss | ucsftool.py:593-597 | a miss puts the fresh tile at the head and keeps the old order behind it, dropping the oldest tile only when the list exceeds 256; the list stays valid |
| TileStore.PoolValidEmpty | ucsftool.py:362 | the nproc empty lists that `ucsf_open` creates are valid |
| TileStore.ValueAtDirect | ucsftool.py:734-748 | the value `get_data` reads through the tile cache is the float at init_pos + cube_float_size * tile number + 4 * remainder number, or 0 when the tile is outside the file; this compares only the address with the one `get_point_data` computes, a routine whose call is commented out (ucsftool.py:729-730) |
| TileStore.PastLastColumnAliases | ucsftool.py:568-574 | in a 2x2-tile file, the point (0, 4) past the last column reads the same value as (2, 0): the grid bounds are not checked |
| TileStore.BeforeFirstColumnReadsHeader | ucsftool.py:568-590 | in the same file, (0, -1) reads axis-header bytes 116..119 as a float, because the only check is that the tile is past offset 0 |
| TileSize.StartSizes | ucsftool.py:619-621 | every TileSize becomes DataPointCount / 2 and nothing else changes |
| TileSize.Recount | ucsftool.py:641-648 | TileCount and FillPointCount are recomputed from TileSize on the first ndim axes; the other fields and axes are unchanged |
| TileSize.SizingPassAsWritten | ucsftool.py:623-635 | the measuring pass as written reports 0 bytes whenever there is an axis, so the loop always stops |
| TileSize.SizingPass | ucsftool.py:623-635 | the intended measuring pass reports 4 * the product of the tile sizes and the first axis of largest size |
| TileSize.OptimizeTileSizeAsWritten | ucsftool.py:618-648 | as written, every axis gets TileSize = DataPointCount / 2, whatever the resulting tile size |
| TileSize.AsWrittenExceedsCap | ucsftool.py:630-635 | for a 1024 x 1024 plane the routine as written picks 512 x 512, a tile of at least 32 KiB |
| TileSize.HalveUntilSmall | ucsftool.py:623-638 | the intended halving loop ends with a tile under 32 KiB and changes only TileSizes, each between 1 and DataPointCount / 2 |
| TileSize.OptimizeTileSize | ucsftool.py:618-648 | the intended routine gives every axis a TileSize between 1 and half its axis and a tile under 32 KiB, with TileCount and FillPointCount recomputed |
| Shifts.TruncSpec | ucsftool.py:685 | `int()` on a float truncates toward zero |
| Shifts.TruncQuotient | ucsftool.py:724 | truncating a non-negative real quotient gives the integer quotient |
| Shifts.StepZero | ucsftool.py:681-685 | the ppm step is zero, and `shift_to_grid` divides by zero, exactly when SpecWidth is a zero word |
| Shifts.GridShiftRoundTrip | ucsftool.py:681-705 | `shift_to_grid(grid_to_shift(g))` is g for g >= 0 and g + 1 for g < 0 |
| Shifts.ShiftToGridNearest | ucsftool.py:681-685 | for a shift at or beyond half a step past grid 0, the result is the nearest grid position, ties rounding up |
| PeakPick.BoxPointsMember | ucsftool.py:833-857 | the points `is_local_maxima` visits are exactly the points of the box of half-widths grid_buffers around the centre |
| PeakPick.WrongSideProduct | ucsftool.py:830-831 | `x * sign < 0` holds exactly when x lies on the wrong side of zero for the sign |
| PeakPick.StagedIffFull | ucsftool.py:1149-1155 | the staged tests, with the buffers widened one axis at a time, accept exactly when the single full-box test accepts |
| PeakPick.ScanOutput | ucsftool.py:1117-1162 | the peaks are candidates in input order, each at its grid value and passing the noise and sign filters and the staged test; `tf` means the last peak is `prev_grid_pt`; `min_heights[pnum]` ends at min(start, |noise_level|) once a peak was found |
| PeakPick.ScanPeaksAreLocalMaxima | ucsftool.py:1117-1162 | every reported peak passes the full-box local-maximum test |
| PeakPick.AdjacentSkipped | ucsftool.py:1131-1136 | while the last candidate tested was accepted, a candidate closer than sum(grid_buffers) is skipped whatever the spectrum holds there |
| PeakPick.MaxCountIrrelevant | ucsftool.py:1138-1142 | with `max_count` not negative, the scan's result does not depend on `max_count` |
| Filters.FilterByHeightSpec | ucsftool.py:886-893 | the result is exactly the pairs with |height| >= |max_height|, in input order |
| Filters.SortDescSpec | ucsftool.py:895-906 | sorting by |height| in reverse is a permutation, non-increasing in |height|, and keeps ties in input order |
| Filters.FilterByCountSpec | ucsftool.py:895-906 | `filter_peaks_by_count` returns min(max_count, n) input pairs (none for a negative count), sorted, with no dropped pair higher than a kept one |
| Filters.SortAscSpec | ucsftool.py:822 | `sorted()` is an ascending permutation that keeps the number of elements below and at most any value |
| Filters.NoisePickSpec | ucsftool.py:814-823 | the noise level is one of the absolute samples, with at most n/2 samples below it and more than n/2 at most it: the element of rank n/2 |
| Interpolation.InterpolateSpec | ucsftool.py:107-115 | the parabola passes through the three samples; when it is not degenerate the result is its vertex, a maximum for a2 < 0 and a minimum for a2 > 0 |
| Interpolation.InterpolateMirror | ucsftool.py:107-115 | reversing the samples mirrors the position about the centre sample |
| Interpolation.InterpolateSymmetric | ucsftool.py:107-115 | equal neighbours give position 1 and the centre value, whether or not the parabola is degenerate |
| Interpolation.InterpolateAxis | ucsftool.py:779-783 | the kept position lies in [0, 2] and is the vertex or the centre sample |
| Interpolation.InterpolateAtMaximum | ucsftool.py:779-783 | at a strict maximum along the axis the vertex lies strictly between the neighbours, is kept, and its value is at least the centre value |
| Restraint.WindowsMember | ucsftool.py:919-927 | a position is in the union of windows exactly when it is within the buffer of some centre |
| Restraint.CentresSpec | ucsftool.py:919-927 | a restrained axis's centres are the `shift_to_grid` positions of its shifts; conversion fails exactly for a non-empty list on a zero SpecWidth |
| Restraint.GridRestraintSpec | ucsftool.py:910-929 | no restraint gives None; a restrained axis with zero SpecWidth raises; otherwise a restrained axis holds exactly the positions within its buffer of a shift's grid position, and any other axis holds 0 to DataPointCount - 1 |
| Restraint.AppendRange | ucsftool.py:926-927 | appending `range(lo, hi)` adds exactly those integers to the list's elements |
| Restraint.AxisWindows | ucsftool.py:919-927 | one axis's loops give the union of windows around its centres, or fail exactly when the conversion does |
| Ucsf.WorkerSlotBand | ucsftool.py:455-457 | a point inside the first axis goes to worker floor(g0 * nproc / DataPointCount), between 0 and nproc - 1 |
| Ucsf.WorkerSlotFloor | ucsftool.py:724 | a point at most one axis length before the first axis still indexes an existing worker list |
| Ucsf.WorkerSlotMonotone | ucsftool.py:724 | a point further along the first axis never falls in a lower worker slot |
| Ucsf.SlotListedExact | ucsftool.py:724 | the slot is at least -nproc, a valid index of the nproc tile lists, exactly when g0 * nproc > -(nproc + 1) * DataPointCount |
| PeakPick.NeighbourBoxExact | ucsftool.py:833-857 | the box holds a point besides the centre exactly when no buffer is negative and one is positive |
| Ucsf.UcsfTool.BoxReadableExact | ucsftool.py:856-858 | `BoxReadable` (slot bound at pt[0] - buffers[0] for a box with a neighbour) holds exactly when every point the loop reads is readable |
| Ucsf.ShoulderRule | ucsftool.py:858-866 | the two rejection tests both pass exactly when the neighbour satisfies the shoulder rule |
| Ucsf.GridDistance | ucsftool.py:1133-1135 | the adjacency loop computes the Manhattan distance to the previous peak, which is non-negative |
| Ucsf.InterpolatedWithinStep | ucsftool.py:766-785 | every interpolated shift lies within one grid step of the grid point's own shift |
| Ucsf.InterpolatedValueAtMaximum | ucsftool.py:766-785 | at a strict maximum along the last axis, the value returned is at least the grid value |
| Ucsf.UcsfTool.constructor | ucsftool.py:148-158 | a new tool is closed, with one process, no file name and no minimum heights |
| Ucsf.UcsfTool.SetFilename | ucsftool.py:306-311 | refused with 0, and the name kept, while a file is open; otherwise 1 and the new name |
| Ucsf.UcsfTool.Close | ucsftool.py:163-177 | back to the closed state with the same nproc; `min_heights` becomes empty if it was set |
| Ucsf.UcsfTool.ReadAxisHeader | ucsftool.py:418-478 | succeeds exactly when every axis header decodes, and then holds the decoded headers |
| Ucsf.UcsfTool.OpenAxes | ucsftool.py:355-362 | an axis header that does not decode closes the tool again; otherwise the tool is ready with the decoded axes and nproc empty tile lists |
| Ucsf.UcsfTool.OpenBytes | ucsftool.py:340-378 | a file under 436 bytes, a missing "UCSF NMR" tag or an undecodable axis header gives 0 and a closed tool; DimCount 0 raises; otherwise the tool is open with nproc empty lists and minimum heights of 10**10 |
| Ucsf.UcsfTool.Open | ucsftool.py:322-378 | refused with 0 when already open, or when the file is missing after the given name was recorded; otherwise as OpenBytes on the file's bytes |
| Ucsf.UcsfTool.ReadTileData | ucsftool.py:558-598 | returns exactly what a fresh read of the tile gives; the worker's list is updated as a hit or a miss, and every list stays valid |
| Ucsf.UcsfTool.GetData | ucsftool.py:719-732 | None when closed; otherwise the grid value of the point, with the point's tile at the head of its worker's list |
| Ucsf.UcsfTool.NeighbourPasses | ucsftool.py:858-866 | a neighbour passes exactly when its value satisfies the shoulder rule against the centre |
| Ucsf.UcsfTool.VerdictFor | ucsftool.py:830-866 | the loop's verdict is exactly the local-maximum test of the box around the point; only a centre of the right sign needs its box readable |
| Ucsf.UcsfTool.CentreValue | ucsftool.py:828-829 | the centre value is ref_ht when given, else the grid value, which only then must be readable |
| Ucsf.UcsfTool.IsLocalMaxima | ucsftool.py:827-866 | returns the centre value and whether the point is a local maximum of its box for the sign; the centre must be readable only without ref_ht, the box only for a centre of the right sign |
| Ucsf.UcsfTool.StagedTest | ucsftool.py:1149-1155 | the staged loop accepts exactly when every stage's box test accepts |
| Ucsf.UcsfTool.ScanCandidate | ucsftool.py:1127-1158 | one candidate moves the scan state exactly as one step of the scan; the candidate must be readable only when the adjacency skip does not apply |
| Ucsf.UcsfTool.LowerMinHeight | ucsftool.py:1161 | `min_heights[pnum]` becomes the minimum of its old value and x; the other entries are unchanged |
| Ucsf.UcsfTool.ScanNext | ucsftool.py:1127-1161 | candidate i moves the state after i candidates to the state after i + 1, touching only worker pnum's minimum height |
| Ucsf.UcsfTool.FindPeaksPerNode | ucsftool.py:1117-1162 | the peaks, heights and `min_heights[pnum]` are those of the scan over the spectrum; the other workers' minimum heights and the spectrum are unchanged |
| Ucsf.UcsfTool.InsideReadable | ucsftool.py:817-820 | a point drawn inside the grid can be read by `get_data` |
| Ucsf.UcsfTool.ReadAbsSamples | ucsftool.py:816-821 | `ht_list` holds the absolute value read at every sampled point, in order |
| Ucsf.UcsfTool.SampleNoise | ucsftool.py:814-823 | the result is the rank-n/2 absolute value of the samples read |
| Ucsf.UcsfTool.EstimateAxis | ucsftool.py:771-784 | the three values along axis i are read, interpolated and turned into that axis's shift estimate |
| Ucsf.UcsfTool.EstimateAxes | ucsftool.py:771-785 | the loop's shifts are the per-axis estimates and its value that of the last axis |
| Ucsf.UcsfTool.GetInterpolatedData | ucsftool.py:766-785 | None when closed; otherwise the interpolated shifts of every axis and the value of the last axis; the point's lowest read coordinate, pt[0] - 1, must have a worker slot of at least -nproc |
| Ucsf.UcsfTool.ShiftRestraintToGridRestraint | ucsftool.py:910-929 | the loops compute the grid restraint that GridRestraintSpec characterises |

## Left out

- File handles, `seek`/`tell` and the per-process handle list are left out. The file is the byte sequence `data`, and the file system is a map from names to contents handed to `Open`.
- The `free -tb` memory probe and `cache_data` are left out. Reads through `cache_data` and through the handles give the same bytes, and `ValueAtDirect` relates the two addressings.
- `print_log`, `print_file_info`, `dump_data_2d` and the other diagnostics are left out: they are output only.
- `find_peaks` never passes a grid restraint on to a scan: it runs `for i in range(grid_restraint)` on the list of axes (ucsftool.py:942, and the older copy at ucsftool.py:1076), which raises TypeError for every restraint that is not None. Only `shift_restraint_to_grid_restraint` itself is modelled, as the per-axis sets it returns.
- Multiprocessing (`find_peaks`, `process_find_peaks`) is left out. One worker's scan, `FindPeaksPerNode`, is modelled. `self.max_count` is its parameter, because `find_peaks` sets it.
- Ucsf.UcsfTool.SampleNoise: the random draws of `sample_noise` are a parameter. `InsideReadable` shows that every point drawn is readable. At least one sample is required, because `sample_count / 2` indexes an empty list otherwise.
- IEEE-754 arithmetic is not modelled. Floats are opaque words decoded by a `FloatDecode` parameter, and shift arithmetic is exact over the reals. That includes the float division behind `fd_divider`, modelled in `WorkerSlot`.
- `mean`, `stddev`, `calculate_pixel_size` and the SPARKY peak-list text I/O are left out: they are statistics and presentation.
- The data-writing routines (`write_projection`, `write_planes`, `write_swapped_axis`, `write_shifted` and the like) are left out, apart from their index decoding (`LinearToIndices`) and the header writers.
- `filter_peaks_by_slope` and `filter_peaks_by_sign_ratio` are left out: they are empty stubs.
- Ucsf.UcsfTool.GetInterpolatedData requires the point to have one coordinate per axis and at least one axis. With no axes, the source returns an unbound `value`.
- Restraint.GridRestraintSpec states each axis's restraint as a set. The source returns `list(set(...))`, whose order is unspecified.
- Ucsf.UcsfTool.GetData requires the worker slot of the point's first coordinate to be at least -nproc (`Readable`). A lower slot indexes before the front of `self.tile_list`, and the source raises IndexError at ucsftool.py:560. That raise is not modelled. `SlotListedExact` states the bound as g0 * nproc > -(nproc + 1) * DataPointCount, and `WorkerSlotFloor` shows that it holds for every point at most one axis length before the grid.
- Ucsf.UcsfTool.ScanCandidate, Ucsf.UcsfTool.ScanNext and Ucsf.UcsfTool.FindPeaksPerNode require every stage box of a candidate to be readable (`StagedReadable`), also for a candidate that the noise, `max_count` or sign filter rejects before any box is read. Ucsf.UcsfTool.FindPeaksPerNode also requires every candidate itself to be readable, including one the adjacency skip passes over. The source raises IndexError only for the points it reads; those raises are not modelled.
- Ucsf.UcsfTool.OpenBytes: for DimCount 0 the source raises inside `read_axis_header`'s exception handler. The model returns `Raised` and leaves the tool half-opened, without the later fields.
- Ucsf.UcsfTool.IsLocalMaxima, Ucsf.UcsfTool.StagedTest, Ucsf.UcsfTool.ScanCandidate, Ucsf.UcsfTool.ScanNext and Ucsf.UcsfTool.FindPeaksPerNode require 2 to 4 axes. With 1 axis or more than 4, `is_local_maxima` raises UnboundLocalError at ucsftool.py:854 (`it` is never bound) once the centre passes the sign test; for a centre of the wrong sign it returns `(False, std_ht)` in any dimension. Neither outcome is modelled outside 2 to 4 axes.
- Ucsf.UcsfTool.IsLocalMaxima models the tuple points `find_peaks_per_node` passes, for which the centre is skipped at ucsftool.py:857. A list `grid_pt` never equals the tuples `itertools.product` yields, so `is_local_maxima_by_shifts` (ucsftool.py:877) also tests the centre's own grid value against `ref_ht`. That list case is not modelled, and `PeakPick.LocalMaxima` always skips the centre.
- TileSize.OptimizeTileSizeAsWritten and TileSize.OptimizeTileSize require DataPointCount >= 2 on every axis, and TileSize.Recount requires TileSize >= 1. For a DataPointCount of 0 or 1 the TileSize becomes 0, and the source raises ZeroDivisionError at ucsftool.py:643-645. That raise is not modelled.
- TileSize.OptimizeTileSize, TileSize.OptimizeTileSizeAsWritten, TileSize.StartSizes and TileSize.Recount require the header list to hold at least ndim headers. `write_projection` (ucsftool.py:1417-1425) and `write_planes` (ucsftool.py:1535-1542) pass lists of ndim - 1 headers, and for those the source raises IndexError at ucsftool.py:620. That raise is not modelled.
- Ucsf.UcsfTool.OpenBytes and Ucsf.UcsfTool.Open require nproc >= 1. With nproc <= 0 the source raises IndexError at `self.file_object[0]` (ucsftool.py:340), after recording the name. That raise is not modelled.
- Restraint.GridRestraint, Restraint.GridRestraintSpec and Ucsf.UcsfTool.ShiftRestraintToGridRestraint require a buffer for every restrained axis (`BuffersCover`). Without one the source raises IndexError at ucsftool.py:926. That raise is not modelled.
- Ucsf.UcsfTool.GetData and the readers built on it require a point with at least one coordinate per axis (`Readable`). A shorter point makes the source raise IndexError at ucsftool.py:610. That raise is not modelled.
- The dialogs and the plugin glue (`iPick.py`, `ipick_gui_sparky.py`, `peak_list_dialog.py`, `xcheck.py`) are not part of this model.

## Findings

| source | as written | input that shows it | evidently intended | confidence | as-written member | corrected member |
|---|---|---|---|---|---|---|
| ucsftool.py:630-631 | `if ts > max_tilesize: ts = max_tilesize` overwrites the size with 0 instead of recording it, so the measured tile size is 0 and the halving loop stops after its first pass | a 1024 x 1024 plane keeps tile sizes 512 x 512, a 1 MiB tile; reachable only by a direct call with a full list of ndim headers, since both callers in the file pass ndim - 1 headers and raise IndexError at ucsftool.py:620 first | `max_tilesize = ts`: halve the largest tile edge until a tile is under 32 KiB | not executed | TileSize.OptimizeTileSizeAsWritten, TileSize.AsWrittenExceedsCap | TileSize.OptimizeTileSize |
