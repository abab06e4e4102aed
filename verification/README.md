# Roadster tile engine: a Dafny model

Roadster renders a tile of a map as a raster. Each pixel of the raster holds the
distance from the pixel's geographic point to the nearest road. The roads can
also be drawn on top at a fixed value. This project models the discrete logic of
that engine and proves properties about it. The engine has these parts:

- the prefilter (`pre_filter`), which keeps the roads near the tile;
- the nearest-road distance (`point.distance`);
- the road rasteriser (`plot_roads`), with its clamped GPS-to-pixel map
  `coord2px`, the flattening of clipped geometries into lines, and the walk
  over consecutive vertices;
- the boost, which scales the raster and clamps it into [0, 1];
- the tile driver (`tile.plot`): it resolves the sample count, bails out when
  no road is near, chooses brute force or kriging, builds the seeded sample
  tasks, writes the results back by index, runs the brute-force loop and
  applies the final boost.

Some collaborators are passed in as function-typed parameters. They are called
but not modelled:

- shapely's point-to-geometry distance (`Geo.Distance`);
- the tile polygon's `intersects` and `intersection`;
- `skimage.draw.line` (`Roads.LineDraw`);
- the stream of `random.Random(seed).random()` values (`Tile.Draws`);
- the order in which the worker pool completes the sampling tasks;
- the pykrige fit and grid evaluation (`Tile.Krige`).

Floats are modelled as `real`. Python's `int()` is `Numeric.Trunc`, which
truncates toward zero.

Two behaviours of `plot` are easy to miss:

- A zero `points` value counts as absent. A negative value takes the fraction
  branch, and a non-integer value of at least 1 is truncated.
- A box with a zero extent is not rejected: the brute-force path runs with a
  zero step. The rasteriser divides by zero only once it maps a vertex.

Modules, one file each:

- `Wrappers`: `Option` and `Result`.
- `Numeric`: truncation, clamps, min, max and abs.
- `Geo`: coordinates, the box and the closed `Geometry` datatype.
- `Grid`: the raster, `create_image`, pixel painting and `boost`.
- `Mapping`: the pixel and GPS maps.
- `Prefilter`: `pre_filter`.
- `Nearest`: `point.distance`.
- `Roads`: `plot_roads`.
- `Tile`: `tile.plot` and `_one_distance`.

## Model

| member | source | states |
|---|---|---|
| Numeric.Trunc | roadster/data.py:91 | `int()` truncates toward zero: for x ≥ 0 the result r satisfies r ≤ x < r+1, and for x < 0 it satisfies r-1 < x ≤ r |
| Numeric.TruncClampIsFloorClamp | roadster/data.py:91 | Truncation followed by the clamp `max(0, min(·, hi))` gives the same index as flooring followed by the same clamp |
| Grid.CreateImage | roadster/data.py:48-50 | The image has exactly `h` rows of `w` cells, and every cell is 0 |
| Grid.Boost | roadster/data.py:121-125 | The boost keeps the raster's shape, and every cell lies in [0,1] afterwards. A cell whose scaled value v·level is in [0,1] equals v·level, a cell above 1 becomes 1 and a cell below 0 becomes 0 |
| Grid.BoostFixesBinary | roadster/data.py:121-125 | With level ≥ 1, boosting a raster whose cells are all 0 or 1 returns the raster unchanged |
| Grid.BoostExample | tests/test_data.py:62-67 | On a zero 200×100 raster with one cell at 0.01, a boost of 1000 sets that cell to 1 and keeps the zeros at 0 |
| Mapping.ToPixel | roadster/data.py:79-91 | `coord2px` always returns a pixel inside the grid. The row comes from the latitude and the column from the longitude. Inside the grid it is the cell that contains the coordinate; outside it is the nearest border row or column |
| Mapping.ToPixelInvertsToCoord | roadster/data.py:85-91 | The rasteriser's `coord2px`, applied to the point the brute-force loop evaluates for a pixel, returns that same pixel. So, in exact arithmetic, roads and distances land on the same cells |
| Mapping.ToPixelExample | tests/test_data.py:56-58 | Over box (0,0)-(100,200) on a 200×100 grid, vertex (100,100) maps to [100,99] and vertex (50,50) maps to [50,50] |
| Prefilter.Radius | roadster/data.py:58-61 | The radius is `max(abs(m·gps_w), abs(m·gps_h))`: it is at least each of the two and equals one of them. It is never negative, whatever the signs of the deltas |
| Prefilter.PreFilter | roadster/data.py:63-69 | The result is no longer than the input. A geometry is in the result iff it is in the input and one of the two corners is strictly closer to it than the radius |
| Prefilter.PreFilterIsSubsequence | roadster/data.py:63-69 | The filtered list is a subsequence of the input, so the original order is kept |
| Prefilter.PreFilterIdempotent | roadster/data.py:64-68 | Filtering the filter's output again with the same corners and multiplier returns it unchanged |
| Prefilter.PreFilterCounts | roadster/data.py:64-68 | A near geometry is kept as many times as it occurs in the input, and any other geometry does not occur in the result at all |
| Prefilter.PreFilterLoop | roadster/data.py:53-69 | The append loop of the source computes exactly the filter |
| Prefilter.PreFilterExample | tests/test_data.py:39-46 | With corners (30,0) and (0,30) and multiplier 1, a line at least 30 from both corners is dropped and a line closer than 30 to a corner is kept |
| Nearest.MinDistance | roadster/point.py:13 | The minimum over a non-empty list is at most the distance to every geometry and equals the distance to one of them |
| Nearest.Distance | roadster/point.py:10-13 | An empty list fails, as `min([])` raises. Otherwise the result is a lower bound of the distances to the geometries and is attained by one of them |
| Nearest.MinDistanceZeroIff | roadster/point.py:13 | With a non-negative primitive, the nearest distance is ≥ 0, and it is 0 iff the point has distance 0 to some geometry |
| Nearest.MinDistanceOrderIndependent | roadster/point.py:13 | Any rearrangement of the geometry list, with the same multiset of geometries, gives the same nearest distance |
| Roads.Chop | roadster/data.py:94-97 | Every intersecting geometry contributes its intersection with the tile. Every clipped piece comes from an intersecting geometry. With no intersecting geometry there are no pieces |
| Roads.LineParts | roadster/data.py:99-108 | A clipped line string is its own single part. A multi-line string gives one line-string part per member line, in order. A collection gives its members. A point or an unsupported kind gives no part |
| Roads.MissingTypes | roadster/data.py:106-108 | When no unsupported piece carries a supported tag, a tag is reported as missing iff a clipped piece has that unsupported kind. No reported tag is one the rasteriser handles by name |
| Roads.Walk | roadster/data.py:110-118 | The walk emits one segment per remaining vertex. The first segment starts at the previous pixel, and each segment ends at the mapped vertex where the next one starts |
| Roads.LineSegments | roadster/data.py:109-118 | A line with k ≥ 1 vertices is drawn as exactly k-1 segments. Segment i joins the pixels of vertices i and i+1 |
| Roads.PartSegments | roadster/data.py:109-113 | A part without a coordinate sequence fails. An empty line string fails on its missing first vertex. Otherwise, over a box with a zero extent, mapping the first vertex divides by zero. Over a proper box, a line string gives its line segments and a point gives none |
| Roads.PartsSegments | roadster/data.py:109-118 | The walk succeeds iff every part can be walked; a failure carries the error of the first part that cannot |
| Roads.PartsSegmentsSingle | roadster/data.py:109-118 | A single part is walked exactly as that part alone: its segments on success, its error on failure |
| Roads.PartsSegmentsAppend | roadster/data.py:109-118 | The parts of a piece are walked in order: walking `a + b` gives the segments of `a` followed by those of `b`, and the first failing part's error wins |
| Roads.GeometryCollectionOfLinesSegments | roadster/data.py:100-101 | A clipped geometry collection of line strings is walked as its lines' segments, one line after the other |
| Roads.CurvesSegments | roadster/data.py:98-118 | The clipped pieces are walked in order. The walk succeeds iff the line parts of every piece can be walked; a failure carries the error of the first piece that cannot |
| Roads.Draw | roadster/data.py:114-118 | After the segments are drawn in sequence, a pixel that any segment touches holds exactly `road_value`. Every other pixel keeps its prior value |
| Roads.PlotRoads | roadster/data.py:72-118 | An empty raster fails with a division by zero. Otherwise the rasteriser succeeds iff the walk over the clipped pieces does, and fails with its error. On success the raster keeps its shape, the pixels of the walked segments hold `road_value`, and all other pixels are unchanged |
| Roads.CurvesSegmentsInGrid | roadster/data.py:85-91 | Both endpoints of every walked segment are pixels of the raster |
| Roads.PlotRoadsDrawsEveryTouchedPixel | roadster/data.py:114-117 | If the line primitive stays between its endpoints, then every pixel of every walked segment is in the raster and ends at `road_value` |
| Roads.PlotRoadsNoIntersection | roadster/data.py:94-97 | When no road intersects the tile, the raster is returned unchanged |
| Roads.SkippedPieceDrawsNothing | roadster/data.py:104-108 | A clipped point, or a piece of an unsupported kind, adds no segment and causes no failure |
| Roads.LineStringPieceSegments | roadster/data.py:102-103 | A clipped line string with k ≥ 1 vertices is walked as exactly its k-1 segments |
| Roads.MultiLineStringPieceSegments | roadster/data.py:100-101 | A clipped multi-line string is walked line by line, as the concatenation of its lines' segments |
| Roads.GeometryCollectionPieceSegments | roadster/data.py:100-101 | A clipped geometry collection is walked as its member parts, in order, with the same success or failure |
| Roads.CurvesSegmentsAppend | roadster/data.py:98-118 | Walking two lists of pieces back to back is walking their concatenation: the first list's segments come first, and the first failure wins |
| Roads.PlotRoadsExample | tests/test_data.py:49-59 | The two test lines, drawn over box (0,0)-(100,200) on a zero 200×100 raster, set [100,99] and [50,50] to 1 and leave [0,0] at 0 |
| Tile.SampleCount | roadster/tile.py:43-48 | Without `points`, or with 0, the count is 1% of the pixels rounded down. A value in (0,1) gives the fraction of the pixels truncated, between 0 and h·w. A value ≥ 1 gives its integer part, which is ≥ 1. A negative value gives h·w·points truncated toward zero, so a count ≤ 0 |
| Tile.ModeSelection | roadster/tile.py:78 | Only "kriging" and "auto" ever use kriging, and "kriging" always does. Once "auto" uses kriging on a tile, it also uses it on every tile with at least as many pixels. In "auto" mode, 128×128 and 100×100 tiles are computed exactly and a 200×200 tile is kriged |
| Tile.TasksFrom | roadster/tile.py:103-110 | The tasks come in order, task i carries index i, and sample i uses draws 2i and 2i+1, scaled by the box deltas from corner `ul` |
| Tile.SampleTasks | roadster/tile.py:103-110 | There are exactly n tasks, and task i carries index i, so each index 0..n-1 occurs once |
| Tile.TasksInsideBox | roadster/tile.py:105-109 | When the draws lie in [0,1), every sample point lies within the box on each axis: from corner `ul` inclusive toward corner `lb` exclusive |
| Tile.OneDistance | roadster/tile.py:21-25 | The worker returns the task's index and point unchanged, with the nearest distance from that point to the filtered roads |
| Tile.WriteBackAt | roadster/tile.py:116-117 | Each reported result lands in the row its index names. A row that no result names keeps its prior value |
| Tile.WriteBackOrderIndependent | roadster/tile.py:116-117 | Two result streams that carry the same results fill the sample array identically, whatever order they arrive in |
| Tile.KDataInTaskOrder | roadster/tile.py:103-117 | For every completion order, row k of the sample array holds sample k's point and its nearest-road distance |
| Tile.DistanceField | roadster/tile.py:169-172 | The exact field has h rows of w cells. Each cell (y,x) is the nearest-road distance from `(ul0 + x·w_dot, ul1 + y·h_dot)`: no filtered road is closer, and one road is exactly that far |
| Tile.BruteForce | roadster/tile.py:164-173 | The in-place loop (columns outer, rows inner) produces exactly the exact field, and its counter ends at h·w. Every pixel is written, once |
| Tile.Plot | roadster/tile.py:28-181 | An empty raster fails with a division by zero. With no road near the tile the raster is returned untouched and not boosted. Otherwise the exact mode returns the boosted exact field, and the kriging mode fails on a negative count, on a kriging failure or on a misshapen grid, and otherwise returns the boosted grid. Every successful non-bail-out result lies in [0,1] |
| Tile.PlotOrderIndependent | roadster/tile.py:112-117 | The result of `plot` is the same for every order in which the pool completes the sampling tasks |

## Left out

- Shapely's distance, `intersects`, `intersection` and the tile polygon are foreign calls. They are function parameters. The distance is assumed non-negative only where a lemma needs it.
- `skimage.draw.line` is a parameter. Two of its properties appear only as hypotheses of the lemmas that need them: it stays between its endpoints, and it draws them.
- The pykrige fit and grid evaluation use `OrdinaryKriging` and a float `np.arange` grid. They are one parameter that maps the sample array to a grid, or to a failure. numpy's broadcasting of a 1-row or 1-column grid onto the raster is not modelled: any grid other than h×w is a `GridShapeMismatch`.
- The multiprocessing pool and its `_mapdata` global are concurrency. Only their observable effect is modelled: the results arrive in some rearrangement of the task order and are written back by index. A failing worker is not modelled.
- The random generator is not modelled. The stream that `random.Random(seed)` yields is the parameter `rnd`, and the default seed 42 only selects that stream.
- Verbose printing, histograms and timing are left out. The "missing type" print is modelled as the list `Roads.MissingTypes`.
- Dead code is left out: the `if False:` block (roadster/tile.py:83-101) and the unused `coord2px` of roadster/tile.py:70-76. That `coord2px` clamps its first index to `w - 1` and its second to `h - 1`, the reverse of the live one in roadster/data.py:91. It is never called.
- `load_map`, `list_layers`, `save_image`, the command line, the web service and `setup.py` are I/O and entry points.
- Floats are reals. Rounding is not modelled, for example `h*w*0.01` landing just below a whole number. NaN is not modelled either.
- Grid.CreateImage: takes natural dimensions, while `np.zeros` raises on negative ones.
- Roads.MissingTypes: lists the tag of every unsupported piece. The source prints them as its walk reaches them, so a piece that raises earlier cuts the reports short.
- Roads.PlotRoads: a failure returns no raster. The source raises part-way, after it has already drawn the earlier lines into the caller's buffer.
- Roads.PartSegments: every geometry kind outside Point, LineString, MultiLineString and GeometryCollection is treated as having no coordinate sequence. Shapely also gives a coordinate sequence for a few other kinds, such as a linear ring.
- Tile.Plot: returns the final raster. The source mutates the caller's buffer in place and returns `None` on the non-bail-out path.
- Tile.Plot: requires the completion order to be a rearrangement of the task indices. This is what `imap_unordered` delivers.
