# Voronoi diagram generator — a Dafny model of its core

The generator paints a `width × height` image as a Voronoi diagram. Generator
points ("region centers") are placed randomly or spread out uniformly. Every
pixel is labelled with the nearest center under the chosen metric. Regions
are then coloured, either freely or so that no two touching regions share a
colour; for the second mode an integer program is built over a region
adjacency graph. An optional animation grows the regions frame by frame,
with a growing distance cap.

This project models that core:

- `Geometry`: the integer metrics `manhattan` and `chebyshev`.
- `Labeling`: the labelling pass `set_each_point`, an in-place update of an
  `array2` grid.
- `Growth`: the animation stopping rule. Frames are labelled with caps
  1, 2, … until a frame equals the unbounded labelling.
- `Adjacency`: the region-adjacency builder, with its dense-id `mapping` and
  its edge set.
- `Coloring`: the colouring constraint system, as a predicate over the
  solver's 0/1 matrix, and the extraction of the colour map with its palette
  check.
- `Placement`: the `randomized` and `uniform` placement algorithms, and the
  pixel-count guard of `generate`.
- `Palette`: `hex_to_tuple`, and the loop that converts string colours to
  channel triples in place.

Labels are region indices (`Region(i)`), standing for `id(region)`. An
unassigned cell (`None` in the source) is `Unassigned`. The `d_limit` of
`set_each_point` is a `Cap`: `Unbounded` for `float("inf")`, `AtMost(d)` for
an animation frame.

Random choices are inputs:
- the per-region metric of the mixed mode is a supplied sequence of metrics;
- the `randint` draws of the placement algorithms are a supplied sequence of
  in-bounds points, consumed in order.

## Model

| member | source | states |
|---|---|---|
| `Geometry.ManhattanDistance` | voronoi.py:73-75 | Non-negative; zero exactly when pixel and center coincide; at least each axis difference. |
| `Geometry.ChebyshevDistance` | voronoi.py:81-83 | The expression `min + abs(dx - dy)` equals `max(abs(dx), abs(dy))`; zero exactly when pixel and center coincide. |
| `Geometry.Distance` | voronoi.py:91-99 | Whichever metric a region uses, the distance is zero exactly at the center and bounds both axis differences. |
| `Geometry.DistanceSymmetric` | voronoi.py:73-83 | Both metrics are symmetric in (pixel, center). |
| `Labeling.NearestAmong` | voronoi.py:97-102 | The running-minimum scan over the first k centers ends on an index whose distance is minimal, and strictly below that of every earlier center (a tie never replaces). |
| `Labeling.Scanned` | voronoi.py:95-105 | What one cell holds after the scan: the nearest center when the minimum distance is within the cap, otherwise its prior value. |
| `Labeling.ScanPixel` | voronoi.py:95-105 | One pixel's scan: without centers, or when the minimum distance exceeds the cap, the cell keeps its prior value; otherwise it holds the first center reaching the minimum. |
| `Labeling.SetEachPoint` | voronoi.py:85-105 | Every pixel of the grid ends as that one-pixel scan of its old value; the grid's shape is unchanged. |
| `Labeling.ScannedIgnoresPriorWhenWithin` | voronoi.py:101-105 | When the minimum is within the cap, the result does not depend on the prior value and is the nearest center. |
| `Labeling.GeneratorPixelOwned` | voronoi.py:97-105 | A center's own pixel is always labelled, whatever the cap, with a center at that same position of index at most its own. |
| `Growth.ColumnMax` | voronoi.py:276-299 | The largest entry of one column of the distance field: an upper bound on every entry, attained when the column is not empty. |
| `Growth.GridMax` | voronoi.py:276-299 | The largest entry of the distance field: an upper bound on every entry. |
| `Growth.GridMaxAttained` | voronoi.py:276-299 | A positive maximum of the field is the entry of some pixel. |
| `Growth.MaxDistance` | voronoi.py:276-299 | M, the largest per-pixel minimum distance over the grid: an upper bound on every pixel's minimum distance, reached by some pixel when positive. |
| `Growth.FrameReveals` | voronoi.py:277-285 | The frame for cap d agrees with the unbounded labelling on every pixel whose minimum distance is ≤ d; every other pixel is unassigned. |
| `Growth.RevealIsStable` | voronoi.py:277-295 | Once a pixel is labelled in a frame, every later frame gives it the same label. |
| `Growth.FrameCompleteIff` | voronoi.py:297-299 | The frame for cap d equals the unbounded labelling if and only if d ≥ M. |
| `Growth.DrawFrame` | voronoi.py:278-279 | A fresh grid of the image's shape, every cell the scan of an unassigned cell with cap d. |
| `Growth.SameGrid` | voronoi.py:297 | Returns true exactly when the two grids have the same shape and equal cells. |
| `Growth.GrowthFrames` | voronoi.py:272-299 | The animation loop stops after exactly max(1, M) frames. |
| `Adjacency.Empty` | voronoi.py:127-130 | The builder starts with no edges, no ids and n = 0, in a valid state. |
| `Adjacency.Allocate` | voronoi.py:143-151 | Gives a label the next dense id unless it has one; keeps both directions of `mapping` inverse, with ids exactly 1..n. |
| `Adjacency.Record` | voronoi.py:142-153 | Allocates both ends of an increasing pair, then adds exactly one edge between their ids; nothing earlier is lost. |
| `Adjacency.ExtendsKeepsRecorded` | voronoi.py:142-153 | An edge once recorded stays recorded as the builder proceeds. |
| `Adjacency.BuildAdjacency` | voronoi.py:127-155 | Fails exactly when a compared cell is unassigned (the `TypeError` of `<` on `None`). Otherwise: `mapping` is a bijection between 1..n and labels that are ends of increasing neighbour pairs; every such pair is recorded; every edge comes from one. |
| `Adjacency.NoSelfEdges` | voronoi.py:142 | No edge joins a region to itself. |
| `Adjacency.NoReversedEdges` | voronoi.py:142-153 | (u, v) and (v, u) are never both edges. |
| `Adjacency.EdgesInRange` | voronoi.py:143-153 | Every edge end lies in 1..n. |
| `Coloring.RowSum` | voronoi.py:163 | `lpSum` of one row of variables. |
| `Coloring.Satisfies` | voronoi.py:162-169 | The constraints: every variable binary, one slot per region, no shared slot across an edge, the chromatic number above every used slot. |
| `Coloring.ModeHolds` | voronoi.py:171-174 | The fixed-palette mode pins the chromatic number to the palette size; the minimising mode adds no constraint. |
| `Coloring.LastOne` | voronoi.py:181-184 | The slot the comprehension keeps for a row: the last entry equal to 1, or none. |
| `Coloring.UnitRowHasOneSlot` | voronoi.py:162-163 | A binary row summing to 1 has exactly one 1. |
| `Coloring.SolutionIsColoring` | voronoi.py:162-169 | Any matrix meeting the constraints gives each region exactly one slot, below the chromatic number, and different slots to the ends of every edge. |
| `Coloring.Extract` | voronoi.py:178-184 | Fails with too few colours exactly when the chromatic number exceeds the palette size; on success, only regions with a dense id are coloured, and only with palette entries. |
| `Coloring.ExtractIsProperColoring` | voronoi.py:162-184 | For a solution within the palette, extraction succeeds, colours every region with a dense id, and gives the two ends of every edge palette entries of different slots. |
| `Coloring.EdgeSlotsDiffer` | voronoi.py:164-169 | The ends of an edge, in either orientation, have different slots, both below the chromatic number. |
| `Coloring.CliqueNeedsFourColors` | voronoi.py:162-179 | Four mutually touching regions force a chromatic number of at least 4 in any solution meeting the constraints; with fewer than four colours the error path is taken. Such a solution exists only in the minimising mode. |
| `Coloring.FixedPaletteFits` | voronoi.py:171-184 | In the fixed-palette mode the chromatic number equals the palette size, so extraction of a solution succeeds. |
| `Coloring.FixedModeNeverTooFew` | voronoi.py:174-179 | In the fixed-palette mode the too-few-colours error is never raised, whatever values the solver left. |
| `Coloring.FixedModeInfeasibleUnchecked` | voronoi.py:171-184 | As written: in the fixed-palette mode with a 4-clique and fewer than four colours, no values meet the constraints. If the chromatic number is left at the palette size, the "Not enough colors" error is not raised. Extraction then goes on with the leftover values: it builds a colour map, or `colors[color]` raises `IndexError`. |
| `Coloring.ExtractSolved` | voronoi.py:176-184 | Extraction that reads the solve status: fails with too few colours exactly when the model is unsolved or the chromatic number exceeds the palette; otherwise it is `Extract`. |
| `Coloring.CliqueRefusedInEitherMode` | voronoi.py:162-184 | With the status read, a 4-clique and fewer than four colours end in the error in both modes. |
| `Coloring.SolvedExtractIsProperColoring` | voronoi.py:162-184 | With the status read, a solved model within the palette still yields a colour for every dense region, with palette entries of different slots at the two ends of every edge. |
| `Placement.RandomizedPoints` | voronoi.py:18-29 | Keeps draws not already kept: the points are distinct and in bounds, at most `regions` of them, exactly `regions` unless the draws run out, and exactly the first occurrences among the draws consumed, in draw order. |
| `Placement.SqDist` | voronoi.py:51 | Squared distance: zero exactly when the points coincide. |
| `Placement.NearestSqDistIsMin` | voronoi.py:49-54 | `NearestSqDist` is the minimum squared distance to the accepted points: a lower bound that is attained. |
| `Placement.NearestSquaredDistance` | voronoi.py:49-54 | The running-minimum loop computes that minimum. |
| `Placement.RoundResult` | voronoi.py:56-63 | The points after one round: the kept candidate appended, or the points unchanged. |
| `Placement.UniformRun` | voronoi.py:35-63 | The points `uniform` accepts: rounds of 10 · len(points) + 1 draws each, until `regions` points or the draws run out. |
| `Placement.BestIsUnique` | voronoi.py:56-58 | At most one candidate of a round is the one kept. |
| `Placement.BestIn` | voronoi.py:36-58 | The candidate a round keeps, if any, is in range and not a duplicate. |
| `Placement.BestInIsBest` | voronoi.py:36-58 | It is the earliest non-duplicate with the strictly largest minimum distance; there is none exactly when every candidate is a duplicate. |
| `Placement.BestCandidate` | voronoi.py:36-58 | The candidate loop picks that candidate. |
| `Placement.RoundExtends` | voronoi.py:56-63 | A round appends at most one point, keeps the earlier points in place, and keeps them distinct. |
| `Placement.RoundInBounds` | voronoi.py:56-63 | A round appends only a candidate, so in-bounds points stay in bounds. |
| `Placement.UniformRoundStep` | voronoi.py:35-63 | One executed round consumes 10 · len(points) + 1 draws and appends exactly the candidate `BestIn` keeps, or nothing; the points stay distinct and in bounds, earlier points unchanged, and the first round takes the first draw. |
| `Placement.UniformPoints` | voronoi.py:31-65 | The loop's result is `UniformRun` of the draws (rounds of `RoundResult`): distinct, in bounds, at most `regions`, starting with the first draw. |
| `Placement.DistinctPointsFit` | voronoi.py:233-234 | Distinct in-bounds points number at most width · height. |
| `Placement.CapacityGuardIsExact` | voronoi.py:233-234 | `regions` distinct in-bounds points exist if and only if width · height ≥ regions. |
| `Placement.PlaceCenters` | voronoi.py:232-237 | Fails exactly when width · height < regions; otherwise the points are distinct, in bounds and at most `regions`. With `uniform` they are exactly `UniformRun` of the draws. With `randomized` every point is a draw, and either there are `regions` of them or every draw is among them. |
| `Palette.StripHashes` | voronoi.py:121 | `str.strip("#")`: the leading, then the trailing run of `#` removed. |
| `Palette.DropLeadingHashes` | voronoi.py:121 | Removes exactly the leading run of `#`. |
| `Palette.DropTrailingHashes` | voronoi.py:121 | Removes exactly the trailing run of `#`. |
| `Palette.Slice` | voronoi.py:122 | Python slicing: the characters from `lo` to `hi`, cut short at the end of the string. |
| `Palette.HexDigit` | voronoi.py:122 | Accepts exactly the characters 0-9, a-f and A-F, with a value below 16. |
| `Palette.DigitsValue` | voronoi.py:122 | A run of hex digits has a value below 16 to the power of its length; it has a value exactly when every character is a hex digit. |
| `Palette.ParseInt16` | voronoi.py:122 | `int(field, 16)`: any value it yields is below 16 to the power of the field's length, in absolute value. |
| `Palette.HexToTuple` | voronoi.py:120-122 | A parsed colour has channels between -15 and 255. |
| `Palette.WellFormedHexParses` | voronoi.py:120-122 | A text that strips to six hex digits, in either case, parses to three channels in 0..255, each the base-16 value of its pair. |
| `Palette.HexRoundTrip` | voronoi.py:120-122 | Formatting a colour with channels in 0..255 as `#rrggbb` and parsing it back gives the colour. |
| `Palette.LeadingHashIgnored` | voronoi.py:121 | A leading `#` does not change the result. |
| `Palette.TrailingHashIgnored` | voronoi.py:121 | A trailing `#` does not change the result. |
| `Palette.ShortTextRefused` | voronoi.py:121-122 | A text of at most four characters after stripping is refused. |
| `Palette.Converted` | voronoi.py:246-247 | One slot's conversion: triples are kept; a string is converted exactly when it parses. |
| `Palette.ConvertedIsStable` | voronoi.py:244-249 | A second conversion changes nothing. |
| `Palette.ConvertColors` | voronoi.py:244-249 | On success, every entry is replaced by its conversion. Otherwise the first failing index is reported, with the entries before it converted and the rest untouched. |

## Left out

- `euclidean` and `euclidean45degrees` (voronoi.py:69-71, 77-79) are floating-point metrics and are not modelled.
- `hypot` in `uniform` (voronoi.py:51) is replaced by the squared integer distance. It orders candidates the same way without floating point.
- Randomness (`randint`, `choice`, `random`, `randomseed`) is not modelled. The per-region metrics and the placement draws are inputs, so the `seed` parameter has no counterpart.
- `Placement.RandomizedPoints`: does not promise `regions` points. The source loops until it has them; the model stops when the supplied draws run out, because termination depends on the random stream.
- `Placement.UniformPoints`: for the same reason, it promises at most `regions` points, not exactly `regions`.
- The random colour mode (voronoi.py:252-254) is a `choice` per region and is not modelled.
- The integer program's construction and its solve (voronoi.py:125, 156-160, 171-176) are a foreign solver. The constraints are the predicate `Coloring.Satisfies`, and the solver's values (matrix and chromatic number) are inputs. The solve status is the input `solved` of `Coloring.ExtractSolved`. The minimising mode's optimality is not modelled.
- Mapping normalized centers to pixels (voronoi.py:230) is float arithmetic and is not modelled.
- Rendering and I/O are not modelled: PIL images, `putpixel`, `save`, `add_border` (voronoi.py:186-202, 259-303), `os.makedirs`, and the console messages of `Utilities`. `Utilities.error` ends the program; the model returns a failure value instead.
- `id(region)` labels are region indices. The source's single `mapping` dictionary holds both directions; the model keeps two maps, since indices may coincide with dense ids. The test `i1 < i2` therefore compares indices, not object addresses. This can change each edge's orientation and the order in which dense ids are handed out. Nothing outside the solver's input observes either.
- `Palette.ParseInt16`: models Python's `int(s, 16)` only for ASCII. It leaves out non-ASCII whitespace and non-ASCII digits, which Python also accepts. It is exact for ASCII fields of at most two characters, the only ones `hex_to_tuple` produces.
- `Palette.HexToTuple`: also accepts a sign or surrounding whitespace in a field, as `int` does, and ignores characters after the sixth. The colour it returns can therefore have a negative channel.
- With a single region the adjacency graph is empty and the extracted colour map is empty; the later lookup that fails in the source (voronoi.py:263) is rendering and is not modelled.
- The repository's example scripts only call `generate` with settings and are not modelled.

## Findings

| source | as written | input that shows it | evidently intended | confidence | as-written member | corrected member |
|---|---|---|---|---|---|---|
| voronoi.py:174-178 | The `status` of the solve is never read. In the `no_adjacent_same` mode the model pins the chromatic number to `len(colors)`, so the test `chromatic_number.value() > len(colors)` is the only guard against an infeasible model. | Four mutually touching regions, a palette of three colours, mode `no_adjacent_same`: the constraints have no solution. If the solver leaves `chromatic_number` at `len(colors)`, the "Not enough colors" error is not raised. The colour map is then built from the leftover values, or `colors[color]` raises `IndexError`. | An infeasible model ends in the "Not enough colors" error, as in the minimising mode. | not executed; what CBC leaves in the variables of an infeasible model is not modelled | `Coloring.FixedModeInfeasibleUnchecked` | `Coloring.ExtractSolved`, `Coloring.CliqueRefusedInEitherMode` |
