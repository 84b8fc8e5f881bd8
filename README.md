# density — a Dafny model of its sequential cores

`density` is a set of small tools for palaeomagnetic and volume data.
Points are binned into a voxel grid of counts. A connected "blob" of the
densest cells is grown over that grid. An empirical cumulative
distribution is built from the counts. The principal axes of an eigen
decomposition are laid out as (value, declination, dip) triples. A Vol
volume header is kept in network byte order. A 256-entry colour map is
filled from ramp lines. A waypoint animation is scheduled. A tolerance
test and a depth splitter complete the set.

This project models the parts of those tools that compute and change
state. It proves what their code promises.

| file | module | models |
|---|---|---|
| `density.dfy` | `VoxelDensity` | `Density`: the flattened voxel grid, `getCell`, `addPoint`, `getCellXYZ`, `getCellCenter` |
| `density_flagged.dfy` | `FlaggedDensity` | `DensityFlagged`: flags, the `used` list, the arg-max scans and `buildBlob` |
| `cdf.dfy` | `EmpiricalCdf` | `Cdf`: the sorted value/percent table and both `getCDF` lookups |
| `eigs.dfy` | `Eigs` | `GetIndex`, `GetEig`, the nine-slot layout of `GetEigs` |
| `angles.dfy` | `Angles` | `rad2deg`/`deg2rad`, `normRadAngle`, the `xyz2tpr` quadrant logic, `flip`, `isEqual` |
| `is_equal.dfy` | `IsEqualTool` | the exit status of the `is_equal` command |
| `vol_header.dfy` | `VolFormat` | byte order (`hton_uint32`/`ntoh_uint32`), the 52-byte header, its constructor and getters |
| `color_map.dfy` | `ColorMap` | `ColorPallet`: the four colour tables, `setRGBA`/`getRGBA`, the ramp fill, `checkColorModel`, the line loop |
| `inventor_utilities.dfy` | `InventorUtilities` | `ToVector`/`ToSbVec3f`, `InterpolateVec`, `InterpolatePos`, the quaternion lerp |
| `render.dfy` | `Render` | `InRange`, the step check, the waypoint-segment schedule of the renderer |
| `split_depth.dfy` | `SplitDepth` | the argument guards and the per-line routing of the depth splitter |
| `wrappers.dfy` | `Wrappers` | the `Option` type the other modules share |

## How the model is built

**Numbers.**
- `float` and `double` are `real`; there is no rounding.
- `size_t` is the subset type `SizeT` of naturals below 2^64. A conversion from `float` truncates toward zero and then reduces modulo 2^64.
- `uint32_t` fields are four bytes. The number a host reads from them depends on its byte order, an `Endian` parameter standing for the `BIGENDIAN`/`LITTLEENDIAN` build switch.

**Assertions.** Each `assert` in the code is a `requires`: it is what the code demands of its callers. Examples are the side limits of the `Density` constructor and the distinct eigen values of `GetIndex`.

**Objects that change in place are classes.**
- `Density` keeps `counts` as an `array<nat>` and updates `totalPointsInside`.
- `DensityFlagged` holds its grid, a `flags` array and the `used` sequence. C++ inheritance becomes composition (`grid`).
- `Cdf` keeps its `value`/`percent` sequences.
- `ColorPallet` keeps four 256-entry arrays and its colour model.

**Pure code is functions and lemmas.** The loops of the source are methods, with invariants, proved against those functions.

**Outside calls are parameters.**
- Trigonometry: `atan`, and `theta` for `acos`.
- Parsing: `atof`, `istringstream >>`, Python `float`.
- `hsv2rgb`; existence of a file.
- The neighbour function and `NUM_NEIGHBORS` of the density grid.

Where the code and its documentation disagree, the model follows the code. The differences are listed under "## Findings" and in the notes below. The one exception is the step check of the renderer: `Render.Run` uses the corrected check, because the step of 0 that the written check lets through makes the renderer loop forever, which a terminating model cannot follow (see "## Left out").

Notes where the code is followed rather than its comments:
- `Density::getCellX/Y/Z` divide before subtracting (`x - xR[0]/dx`). `GetCell` uses them as written.
- `getCellXYZ` subtracts `cz*depth`. `CellXYZ` does too, and `CellCenter` is built on it, as `getCellCenter` is.
- `DensityFlagged::getLargestNeighbor` uses a neighbour's count as a cell index (DensityFlagged.C:113-117). `GetLargestNeighbor` keeps that, and `buildBlob` never calls it.
- The fourth level check of `insertCmapEntryRGBA` and `handleHSVA_Line` is `0 > v2 || 2 < v1` (volmakecmap.C:213, 286). Because of the earlier checks it can never reject: `LevelsAcceptedMeaning` proves that the checks accept exactly `0 <= v1 < v2` with `v1 <= 1`, so a second level above 1 passes.
- `checkColorModel` tests `ALPHA` before `LUM_ALPHA`, so `LUM_ALPHA` can never be selected (`LumAlphaUnreachable`).

## Model

| member | source | states |
|---|---|---|
| VoxelDensity.Trunc | Density.H:33-35 | the C cast to an integer truncates toward zero: the result is the integer part of the real, for either sign |
| VoxelDensity.ToSizeT | Density.H:33-35 | a real in [0, 2^64) converts to `size_t` as its floor |
| VoxelDensity.SumIncrement | Density.C:96-97 | bumping one count raises the total of the counts by exactly one, which keeps `totalPointsInside` equal to the sum |
| VoxelDensity.SumZeros | Density.C:86-88 | a grid of zero counts has total 0, matching `totalPointsInside = 0` after construction |
| VoxelDensity.CellCountBound | Density.C:71-73 | with every side below 10000 the grid has fewer than 10^12 cells, so `badValue()` (2^64-1) is never a valid cell index |
| VoxelDensity.Flatten | Density.C:122-124 | the row-major offset of a cell inside a W×H×D grid is below W·H·D, and dividing it by W·H and then W recovers the coordinates |
| VoxelDensity.DivModUnique | Density.C:131-134 | quotient and remainder are unique, the fact behind decomposing a flat index |
| VoxelDensity.Density.constructor | Density.C:66-89 | given sides below 10000 and min < max per axis: sides and box are stored, there are width·height·depth cells, every count is 0 and the inside total is 0 |
| VoxelDensity.Density.CellXIntended | Density.H:33 | the evidently intended `(x - min)/dx`: a point in [min, max) of the x axis lies in a cell below `width` |
| VoxelDensity.Density.GetCell | Density.C:112-128 | the result is `badValue()` exactly when the point lies outside the closed box; otherwise it is xIndex + yIndex·W + zIndex·W·H from the as-written `getCellX/Y/Z`, below the asserted bound 10^9 |
| VoxelDensity.Density.GetCellInGrid | Density.C:118-124 | when the three cell coordinates lie in the grid, `getCell` names a valid cell, and the intended decomposition gives back those coordinates |
| VoxelDensity.Density.FlattenInRange | Density.C:122-124 | a cell inside the grid has an offset that does not wrap, indexes `counts`, and is inverted by the intended decomposition |
| VoxelDensity.Density.CellXYZFirstLayer | Density.C:130-135 | on the first layer (index < W·H) `getCellXYZ` as written gives z = 0 and inverts x + y·W |
| VoxelDensity.Density.CellXYZIntendedInverts | Density.C:130-135 | the decomposition that subtracts cz·W·H gives in-grid coordinates whose flat offset is the index, for every valid cell |
| VoxelDensity.Density.CellCenterInsideCell | Density.C:140-146 | each coordinate of `getCellCenter` lies strictly inside the extent [c·d, (c+1)·d) of its cell, measured from the origin |
| VoxelDensity.Density.InBox | Density.C:114-116 | no contract of its own: the closed box of the three range tests; `GetCell` states that it decides `badValue()` |
| VoxelDensity.Density.CellX | Density.H:33 | no contract of its own: `getCellX` as written; `GetCell` uses it and `CellXPrecedenceCounterexample` shows it differs from `CellXIntended` |
| VoxelDensity.Density.CellY | Density.H:34 | no contract of its own: `getCellY` as written, the same form as `CellX` |
| VoxelDensity.Density.CellZ | Density.H:35 | no contract of its own: `getCellZ` as written, the same form as `CellX` |
| VoxelDensity.Density.Offset | Density.C:122-124 | no contract of its own: x + y·W + z·W·H in `size_t`; `FlattenInRange` states that it does not wrap inside the grid and is inverted by `CellXYZIntended` |
| VoxelDensity.Density.CellXYZ | Density.C:130-135 | no contract of its own: `getCellXYZ` as written; `CellXYZFirstLayer` states it inverts the offset on the first layer, `CellXYZDepthCounterexample` that it does not beyond |
| VoxelDensity.Density.CellXYZIntended | Density.C:130-135 | no contract of its own: the corrected decomposition; `CellXYZIntendedInverts` and `FlattenInRange` state that it inverts the offset |
| VoxelDensity.Density.CellCenter | Density.C:140-146 | no contract of its own: `getCellCenter`; `CellCenterInsideCell` states where each coordinate lies |
| VoxelDensity.Density.AddPoint | Density.C:91-99 | returns true exactly for a point inside the box; then exactly the count of its cell and the inside total rise by one; a point outside changes nothing; the total stays the sum of the counts |
| VoxelDensity.CellXPrecedenceCounterexample | Density.H:33 | on a 2-cell axis of length 4 the point x = 3 gets cell 3 as written and cell 1 as intended, and `addPoint` cannot accept it |
| VoxelDensity.CellXYZDepthCounterexample | Density.C:132 | on a 2×2×2 grid index 4 decomposes to (0, 1, 1) as written but is cell (0, 0, 1) |
| FlaggedDensity.ClearFlag | DensityFlagged.C:161-171 | removing one flagged cell lowers the flagged sum by its count and the number of flags by one |
| FlaggedDensity.NoFlags | DensityFlagged.C:176 | with no flag set both the number of flags and the flagged sum are 0 |
| FlaggedDensity.BlobSums | DensityFlagged.C:153-171 | when the flagged cells are exactly the duplicate-free `used` list, the sum over `used` equals the sum over flagged cells and the number of flags equals `used.size()` — the two asserted equalities |
| FlaggedDensity.AddToBlob | DensityFlagged.C:189-190 | flagging an unflagged cell and appending it keeps flags and `used` in step, with one flag more |
| FlaggedDensity.BlobStart | DensityFlagged.C:182-184 | flagging a non-empty cell of an unflagged grid starts a blob: one used cell, its flag set |
| FlaggedDensity.BlobGrow | DensityFlagged.C:186-191 | flagging a non-empty unflagged neighbour of the blob and appending it keeps the blob connected, duplicate-free and in step with the flags |
| FlaggedDensity.CountTrueBound | DensityFlagged.C:153-158 | the number of flags never exceeds the number of cells |
| FlaggedDensity.ConsistentFlags | DensityFlagged.C:153-171 | while flags and `used` agree, the flags are exactly those of the cells in `used`, so "unflagged" means "not yet in the blob" |
| FlaggedDensity.GreedyGrow | DensityFlagged.C:186-191 | appending the cell the neighbour search picked keeps every cell of the blob the search's pick over the cells before it |
| FlaggedDensity.DensityFlagged.constructor | DensityFlagged.C:66-78 | a fresh grid of zero counts with the given sides, one false flag per cell, an empty `used` list and the given neighbour function |
| FlaggedDensity.DensityFlagged.SetFlag | DensityFlagged.H:62 | writes flag `i` only (default true); counts and `used` are untouched |
| FlaggedDensity.DensityFlagged.UsedIndex | DensityFlagged.H:71-72 | for i below `used.size()`, returns a cell of the blob, and a flagged one while flags and `used` agree |
| FlaggedDensity.DensityFlagged.GetLargest | DensityFlagged.C:81-90 | `badValue()` exactly when every count is 0; otherwise a cell with the highest count, and the first such cell |
| FlaggedDensity.DensityFlagged.GetLargestUnflagged | DensityFlagged.C:92-101 | `badValue()` exactly when every unflagged count is 0; otherwise the first unflagged cell with the highest unflagged count |
| FlaggedDensity.DensityFlagged.GetLargestNeighbor | DensityFlagged.C:105-122 | as written: the result is some neighbour's count, taken as a valid cell index whose own count is highest among such indices, and the first in neighbour order with that count (strict `>`); `badValue()` when all of those are empty |
| FlaggedDensity.DensityFlagged.GetLargestUnflaggedNeighbor | DensityFlagged.C:124-137 | `badValue()` only when every valid unflagged neighbour is empty; otherwise a valid unflagged neighbour with a count above 0 that is highest among them, and the first in neighbour order with that count |
| FlaggedDensity.DensityFlagged.GetLargestNeighborOfFlagged | DensityFlagged.C:139-151 | `badValue()` only when every unflagged neighbour of the blob is empty; otherwise (`Densest`) a non-empty unflagged neighbour of a blob cell whose count is highest among all of them, and the first with that count in the order blob cell, then neighbour |
| FlaggedDensity.DensityFlagged.SearchCell | DensityFlagged.C:143-149 | one pass over blob cell i keeps the search state: a strictly higher local maximum replaces the pick, an equal one does not |
| FlaggedDensity.DensityFlagged.SearchDone | DensityFlagged.C:142-150 | after all blob cells the pick is `Densest`, or `badValue()` with every unflagged neighbour empty |
| FlaggedDensity.DensityFlagged.GetNumFlagged | DensityFlagged.C:153-159 | the number of set flags, equal to `used.size()` as asserted |
| FlaggedDensity.DensityFlagged.GetFlaggedCount | DensityFlagged.C:161-171 | the sum of counts over `used`, which equals the sum over flagged cells as asserted |
| FlaggedDensity.DensityFlagged.BuildBlob | DensityFlagged.C:175-193 | from an unflagged, non-empty grid: the blob starts at a first densest cell; every later cell is the one `getLargestNeighborOfFlagged` picks over the cells before it (`Greedy`: the densest unflagged neighbour, first on ties); flags and `used` agree without duplicates; the blob held less than `size_t(percent·inside)` before its last cell was added, and ends reaching it or with no non-empty unflagged neighbour left |
| FlaggedDensity.DensityFlagged.GrowBlob | DensityFlagged.C:186-191 | the growth loop keeps the blob greedy and below the target before its last cell, and terminates with the target reached or the blob's neighbourhood exhausted |
| FlaggedDensity.DensityFlagged.GrowStep | DensityFlagged.C:186-190 | one pass stops when the flagged count reaches the target or no neighbour is left; otherwise it adds the densest neighbour, keeping the loop invariant |
| FlaggedDensity.DensityFlagged.FlagAndUse | DensityFlagged.C:189-190 | one growth step sets exactly the new cell's flag and appends it to `used`, keeping the blob invariant and the greedy order; the blob before it was below the target |
| FlaggedDensity.DensityFlagged.IsFlagged | DensityFlagged.H:61 | no contract of its own: the flag of a valid cell; the unflagged tests of `GetLargestUnflagged` and `GetLargestUnflaggedNeighbor` state what it decides |
| FlaggedDensity.DensityFlagged.NumUsed | DensityFlagged.H:70 | no contract of its own: `used.size()`; `GetNumFlagged` states that it equals the number of flags |
| EmpiricalCdf.CountLe | Cdf.C:104 | the number of data at or below a value is at most the number of data |
| EmpiricalCdf.InsertFacts | Cdf.C:82 | inserting into a sorted sequence keeps it sorted, adds the element to the multiset, and adds one to each count at or above it |
| EmpiricalCdf.SortFacts | Cdf.C:81-82 | the sort of the copy yields a sorted permutation of the data with the same counts at every value |
| EmpiricalCdf.CountLeAppend | Cdf.C:104 | counting over a concatenation adds the counts of the parts |
| EmpiricalCdf.CountLeAll | Cdf.C:111-112 | when every datum is at most x, all are counted, which gives the last percent 1.0 |
| EmpiricalCdf.CountLeNone | Cdf.C:122 | when every datum exceeds x none are counted |
| EmpiricalCdf.SortedCount | Cdf.C:102-104 | in sorted data the count at or below x is the index of the first element above x, which gives the pushed `i/size` |
| EmpiricalCdf.CountLeMonotone | Cdf.C:104 | the count grows with its bound |
| EmpiricalCdf.CountLeGap | Cdf.C:123 | raising the bound across a gap in the data leaves the count unchanged |
| EmpiricalCdf.CountLePositive | Cdf.H:11-12 | a value present in the data has a count of at least one, so no percent is 0 |
| EmpiricalCdf.StrictlyIncreasingUnique | Cdf.H:9-10 | two strictly increasing sequences holding the same elements are equal |
| EmpiricalCdf.TableUnique | Cdf.C:80-113 | the data and the flag determine the value/percent table |
| EmpiricalCdf.TablePercents | Cdf.H:11-12 | every percent lies in (0, 1] and the percents rise strictly with the values |
| EmpiricalCdf.CountLeSplitAt | Cdf.C:102-104 | a value present in the data counts more than the value one below it |
| EmpiricalCdf.Position | Cdf.C:117-118 | where the linear scan stops: the first table entry not below `val`, or the table size |
| EmpiricalCdf.CdfCorrectedIsFraction | Cdf.C:116-126 | with the lower entry's percent between entries, the lookup is the fraction of the data at or below `val`, on every query the table covers |
| EmpiricalCdf.AboveTable | Cdf.C:120 | past the last entry every datum is counted: 1.0 is the true fraction |
| EmpiricalCdf.BelowTable | Cdf.C:122 | with zeros counted, below the first entry no datum is counted: 0.0 is the true fraction |
| EmpiricalCdf.BetweenEntries | Cdf.C:123 | strictly between two entries the fraction is that of the lower entry |
| EmpiricalCdf.CdfAsWritten | Cdf.C:116-126 | no contract of its own: `getCDF` as written; `CdfAsWrittenOutcomes` states its four outcomes |
| EmpiricalCdf.CdfCorrected | Cdf.C:116-126 | no contract of its own: `getCDF` returning the lower entry's percent between entries; `CdfCorrectedIsFraction` states that it is the fraction of the data at or below the query |
| EmpiricalCdf.CdfAsWrittenOutcomes | Cdf.C:120-123 | the four outcomes of `getCDF` as written: 1 past the table, the percent on an entry, 0 below the first entry, the lower entry's value between two entries |
| EmpiricalCdf.CdfAsWrittenDiffers | Cdf.C:123 | the as-written lookup differs from the corrected one only strictly between entries |
| EmpiricalCdf.CdfValueCounterexample | Cdf.C:123 | for data [2, 4] the table is [2, 4] / [0.5, 1.0]; at 3 the code returns 2.0 where the fraction is 0.5 |
| EmpiricalCdf.Cdf.constructor | Cdf.C:80-113 | given a non-empty input when zeros are counted, the object holds the table of its data |
| EmpiricalCdf.Cdf.BuildTables | Cdf.C:81-112 | on a sorted copy, the caller's data untouched: the result is the table of the data (strictly increasing values; percent = fraction at or below each value). It is empty exactly when zeros are skipped and all data are 0; otherwise the last entry is the data maximum with percent 1.0 |
| EmpiricalCdf.Cdf.FirstNonZero | Cdf.C:93-94 | the index of the first non-zero entry, every entry before it being 0 |
| EmpiricalCdf.Cdf.CollectRuns | Cdf.C:100-112 | the scan closes one run per distinct value: values strictly increasing, exactly the values of the scanned suffix, each percent the fraction at or below its value, and the last entry the maximum with 1.0 |
| EmpiricalCdf.Cdf.GetCdf | Cdf.C:116-126 | the scan returns 1 past the table, the entry's percent on a match, 0 below the first entry, and the lower entry's value between entries (as written) |
| EmpiricalCdf.Cdf.GetCdfBracketed | Cdf.C:128-145 | the same result as `top`; `bottom` is 0 at offset 0, else the percent of the entry before, so `bottom <= top` on matched values and past the table |
| EmpiricalCdf.SortedCopy | Cdf.C:81-82 | the sorted copy has the data's length, elements and counts |
| EmpiricalCdf.AllZero | Cdf.C:95 | a sorted copy of only zeros comes from data of only zeros |
| EmpiricalCdf.ScanStep | Cdf.C:102-109 | one step of the scan keeps its invariant, closing a run on a change of value |
| EmpiricalCdf.ScanEnd | Cdf.C:111-112 | closing the last run completes the table of the scanned suffix |
| EmpiricalCdf.SuffixMembers | Cdf.C:88-97 | the values of the scanned suffix are the data values, less 0 when zeros are skipped |
| EmpiricalCdf.FromSorted | Cdf.C:100-112 | the completed table of the sorted copy is the table of the data, and bounds every datum |
| EmpiricalCdf.BoundedByLast | Cdf.C:111 | every datum is at most the last entry of the sorted copy |
| EmpiricalCdf.PercentsCarryOver | Cdf.C:104 | fractions over the sorted copy are fractions over the data |
| EmpiricalCdf.PositionIs | Cdf.C:118 | the stopping index of the scan is `Position` |
| Eigs.GetIndex | Eigs.C:102-126 | for three distinct values, the index of the smallest, of one neither smallest nor largest, or of the largest |
| Eigs.GetIndexPermutation | Eigs.C:109-121 | the three kinds pick the indices 0, 1 and 2 in some order |
| Eigs.GetIndexOrder | Eigs.C:109-121 | the picked values rise from minimum to intermediate to maximum |
| Eigs.GetIndexTests | Eigs.C:220-253 | the index choices for the five orderings the regression test checks |
| Eigs.GetEig | Eigs.C:128-141 | copies the negated column `GetIndex(which)` and returns its eigen value; it always succeeds |
| Eigs.DirectionInLowerHemisphere | Eigs.C:161-165 | every stored direction has a declination in [0, 360) and a dip that is not negative |
| Eigs.DirectionOfColumn | Eigs.C:160-162 | the direction of the vector `GetEig` copies out is that of the chosen column |
| Eigs.DirectionOf | Eigs.C:161-165 | no contract of its own: declination `rad2deg(phi)` and dip `90 - rad2deg(theta)`, flipped; `DirectionInLowerHemisphere` states its range |
| Eigs.Direction | Eigs.C:160-165 | no contract of its own: the direction of column `GetIndex(which)`; `DirectionOfColumn` ties it to `GetEig` and `GetEigs` stores it |
| Eigs.GetEigs | Eigs.C:154-182 | slots 0, 3, 6 hold the minimum, intermediate and maximum eigen values, rising, each followed by the flipped declination and dip of its vector |
| Angles.RadDegRoundTrip | Eigs.C:77-78 | over the reals `deg2rad` and `rad2deg` are exact inverses |
| Angles.Rad2Deg | VecAngle.H:33 | no contract of its own: `rad2deg`; `RadDegRoundTrip` and `ConversionsDoNotWrap` state its meaning |
| Angles.Deg2Rad | VecAngle.H:39 | no contract of its own: `deg2rad`; `RadDegRoundTrip` and `ConversionsDoNotWrap` state its meaning |
| Angles.IsEqual | VecAngle.H:90-92 | no contract of its own: `isEqual`; `IsEqualMeaning` states its meaning |
| Angles.ConversionsDoNotWrap | VecAngle.H:28-39 | neither conversion wraps: a full turn more in radians is 360 more in degrees, and back |
| Angles.IsEqualMeaning | VecAngle.H:86-92 | `isEqual` holds exactly when the distance is below the tolerance; it is symmetric and never holds for a tolerance that is not positive |
| Angles.NormRadAngle | VecAngle.C:57-62 | the result lies in [0, 2π] and differs from the input by whole turns; inputs already in range come back unchanged; negative inputs land below 2π, inputs above 2π land above 0 |
| Angles.NormRadDetermined | VecAngle.H:52-56 | the contract of `normRadAngle` pins its result: two whole-turn shifts in the same half-open range are equal |
| Angles.NormRadAngleTests | VecAngle.C:111-112 | -π and 3π both wrap to π |
| Angles.Phi | VecAngle.C:80-87 | with `atan` in (-π/2, π/2), the polar angle lies in [0, 2π) |
| Angles.PhiQuadrant | VecAngle.H:74-75 | with a sign-preserving `atan`, phi names the half plane of (x, y): 0 is +x, π/2 is +y, π is -x |
| Angles.Flip | Eigs.C:143-151 | the dip comes out non-negative and of the same size; a negative dip turns the declination by 180; a declination from -180 up comes out non-negative, and one in [0, 360) stays there |
| Angles.FlipIdempotent | VecAngle.H:41-49 | a flipped pair is in the lower hemisphere: flipping again changes nothing |
| IsEqualTool.ExitStatus | is_equal.c:14-30 | the exit status is success or failure, and failure unless exactly three arguments are given |
| IsEqualTool.ExitStatusMeaning | is_equal.c:18-29 | success exactly when three arguments are given and value1 lies strictly within sigma of value2 |
| IsEqualTool.ExitStatusProperties | is_equal.c:9-12 | a tolerance that is not positive always fails, and the two values may be swapped |
| VolFormat.FromDigits | VolHeader.H:47-54 | four bytes stand for a number below 2^32 |
| VolFormat.DigitsRoundTrip | VolHeader.H:47-54 | bytes and the number they stand for determine each other |
| VolFormat.Value | VolHeader.C:66-76 | the number a host reads from a word is below 2^32 |
| VolFormat.LayoutRoundTrip | VolHeader.C:66-76 | storing a number and reading it back on the same host gives the number, and conversely |
| VolFormat.Hton32Involution | VolHeader.C:66-110 | `hton_uint32` applied twice is the identity, and `ntoh_uint32` undoes it both ways |
| VolFormat.Hton32 | VolHeader.C:90-110 | no contract of its own: `hton_uint32`; `Hton32Involution`, `Hton32IsNetworkOrder` and `Hton32SwapsBytes` state its meaning |
| VolFormat.Ntoh32 | VolHeader.C:66-76 | no contract of its own: `ntoh_uint32`; `Hton32Involution` and `StoredReadsBack` state its meaning |
| VolFormat.Fill | VolHeader.C:135-146 | no contract of its own: the field stores of the constructor; `ConstructThenGet` and `NewHeaderImageIsPortable` state what they store |
| VolFormat.Hton32IsNetworkOrder | VolHeader.C:90-110 | on either host a converted number lies in memory as the big-endian bytes of that number |
| VolFormat.Hton32SwapsBytes | VolHeader.C:96-105 | on a little-endian host the converted value is the byte-reversed number |
| VolFormat.Hton32Tests | VolHeader.C:196-198 | the big-endian check 0x00010203 holds; on a little-endian host the same value, and the header length 52, come out byte-reversed |
| VolFormat.Image | VolHeader.C:188-189 | the record's image is 52 bytes, (7 + 6) fields of 4 |
| VolFormat.ToUint32 | VolHeader.C:139-141 | the `uint32_t` cast keeps numbers below 2^32 and otherwise reduces modulo 2^32 |
| VolFormat.NewHeaderAsWritten | VolHeader.C:133-147 | the constructor as written completes exactly when the stored header length, read back without conversion, is 52 |
| VolFormat.NewHeaderAsWrittenFailsOnLittleEndian | VolHeader.C:137 | the as-written assertion holds on a big-endian host and fails on a little-endian one |
| VolFormat.NewHeader | VolHeader.C:133-147 | the constructed header's length field reads back in host order as 52 |
| VolFormat.StoredReadsBack | VolHeader.C:154-160 | a number stored in network order reads back unchanged through `ntoh_uint32` |
| VolFormat.ConstructThenGet | VolHeader.C:133-160 | on either host the getters return magic 0x0b7e7759, header length 52, 8 bits per voxel, 0 index bits, and width/height/images as the given sizes cast to 32 bits (unchanged below 2^32) |
| VolFormat.NewHeaderImageIsPortable | VolHeader.H:17 | a constructed header is the same 52 bytes in memory on either host |
| ColorMap.LumAlphaContainsAlpha | volmakecmap.C:271-272 | every string containing `LUM_ALPHA` contains `ALPHA` |
| ColorMap.LumAlphaUnreachable | volmakecmap.C:268-277 | no line selects `LUM_ALPHA` (or an unknown model) |
| ColorMap.ModelNamedLumAlpha | volmakecmap.C:271-272 | the line `COLOR_MODEL = LUM_ALPHA` selects ALPHA |
| ColorMap.LevelsAcceptedMeaning | volmakecmap.C:283-286 | the four level checks accept exactly 0 <= v1 < v2 with v1 <= 1; a second level of 1.5 passes |
| ColorMap.RampBetween | volmakecmap.C:289-301 | the ramp passes through both end points and between the levels stays between the two end values |
| ColorMap.RampForm | volmakecmap.C:289-292 | slope and intercept give the line through the first end point with the rise of the second |
| ColorMap.RampRising | volmakecmap.C:295-301 | for a rising ramp, values between the levels lie between the end values |
| ColorMap.RampFalling | volmakecmap.C:295-301 | for a falling ramp, values between the levels lie between the end values |
| ColorMap.FillEntryMeaning | volmakecmap.C:295-301 | for accepted levels and components in [0, 1], entries on the ramp get the ramp value in [0, 1] (the cap never bites), the end levels get the end values, and entries off the ramp keep their value |
| ColorMap.FillTable | volmakecmap.C:295-301 | every entry of the table is the capped ramp value if its level lies on the ramp, and its old value otherwise |
| ColorMap.ColorPallet.constructor | volmakecmap.C:139-141 | four fresh 256-entry tables of zeros, colour model RGBA |
| ColorMap.ColorPallet.SetRgba | volmakecmap.C:116-125 | refuses an offset of 256 or more and writes nothing; otherwise writes entry `offset` of each table and nothing else |
| ColorMap.ColorPallet.GetRgba | volmakecmap.C:127-136 | refuses an offset of 256 or more; otherwise returns exactly the stored entry, each component in [0, 1] |
| ColorMap.ColorPallet.CheckColorModel | volmakecmap.C:268-277 | true exactly for a line naming a model; the model then becomes the one named first in the order ALPHA, LUM_ALPHA, RGBA, HSVA; otherwise it is unchanged |
| ColorMap.ColorPallet.InsertCmapEntryRgba | volmakecmap.C:279-306 | accepts exactly the levels passing the four checks, changing nothing otherwise; when accepted, each entry whose level lies on the ramp gets the capped ramp of each component, and the others keep their values |
| ColorMap.ColorPallet.HandleRgbaLine | volmakecmap.C:243-265 | a line that does not parse, has a number outside [0, 1] or fails the level checks is refused with the tables unchanged; otherwise its ramp is filled in |
| ColorMap.ColorPallet.HandleHsvaLine | volmakecmap.C:198-241 | the same level checks, then each entry on the ramp gets `hsv2rgb` of the capped hue/saturation/value and the capped alpha; others unchanged |
| ColorMap.ColorPallet.HandleLine | volmakecmap.C:154-169 | a comment changes nothing; a `COLOR_MODEL` line switches to the named model and fills nothing; any other line keeps the model, changes no table under ALPHA or LUM_ALPHA, and fails only under an unknown model; under RGBA an accepted ramp line fills its ramp into all four tables and a refused one changes nothing, and likewise under HSVA with the `hsv2rgb` colours |
| ColorMap.ColorPallet.LoadLines | volmakecmap.C:143-170 | a file that cannot be opened fails with the model and tables unchanged; an opened file succeeds, and the colour model stays a known one throughout |
| InventorUtilities.ToVector | InventorUtilities.C:107-115 | the list always has three components |
| InventorUtilities.VectorRoundTrip | InventorUtilities.C:98-115 | `ToSbVec3f` and `ToVector` are inverse to each other on three-element lists |
| InventorUtilities.ToSbVec3f | InventorUtilities.C:98-105 | no contract of its own: `ToSbVec3f` on a three-element list; `VectorRoundTrip` states its meaning |
| InventorUtilities.Lerp | InventorUtilities.C:149-152 | no contract of its own: `a + (b - a)·percent`; `LerpBetween` states its meaning |
| InventorUtilities.InterpolateVec | InventorUtilities.C:118-122 | no contract of its own: `v1 + (v2 - v1)·percent`; `InterpolateVecAgrees` states that it is `InterpolatePos` on the three-element lists |
| InventorUtilities.LerpBetween | InventorUtilities.C:149-152 | a component starts at a, ends at b, and lies between them for a percentage in [0, 1] |
| InventorUtilities.Interpolated | InventorUtilities.C:148-154 | the result has the length of the inputs |
| InventorUtilities.InterpolatePos | InventorUtilities.C:141-156 | for lists of equal length, the loop builds the componentwise interpolation |
| InventorUtilities.InterpolatedEndpoints | InventorUtilities.C:149-152 | at 0 the result is the first list, at 1 the second, and in between each component lies between its two ends |
| InventorUtilities.InterpolateVecAgrees | InventorUtilities.C:118-122 | interpolating vectors directly agrees with interpolating their three-element lists |
| InventorUtilities.InterpolateQuaternion | InventorUtilities.C:125-138 | the four quaternion components are interpolated componentwise |
| Render.InRange | render.C:194-201 | holds exactly when `check` lies between the two bounds, inclusive, in either order |
| Render.InRangeProperties | render.C:198-199 | the bounds may be swapped, both are included, and equal bounds admit only themselves |
| Render.InterpolatedInRange | render.C:214-221 | every interpolated camera component at a percentage in [0, 1] lies between its two waypoint components |
| Render.StepZeroNeverEnds | render.C:274-275 | a given step of 0 is accepted, and then the percentage never reaches 1 |
| Render.PercentAfterPasses | render.C:376 | `PercentAfter(step, k)` is the inner loop's percentage after k passes: 0 at the start, one `step` more per pass |
| Render.StepAcceptedAsWritten | render.C:274-275 | no contract of its own: the written check, a given step in [0, 1]; `StepZeroNeverEnds` and `StepAcceptedEnds` state its meaning |
| Render.StepAccepted | render.C:274-275 | no contract of its own: the corrected check, a given step in (0, 1]; `StepAcceptedEnds` states that it differs from the written one only at 0 and that every step it accepts ends the loop |
| Render.StepAcceptedEnds | render.C:274-275 | the intended check refuses exactly the given step 0 on top of the written one, and every accepted step reaches 1 after finitely many additions |
| Render.StepsLeftDecrease | render.C:376 | each addition of the step leaves one step fewer before 1 |
| Render.QuotientOfProduct | render.C:376 | a product divided by a non-zero factor gives the other factor |
| Render.PercentsFromShape | render.C:376 | the visited percentages are cur + k·step, all below 1, and the one after the last reaches 1 |
| Render.SegmentPercentsShape | render.C:369-391 | a segment's percentages start at 0, the k-th is `PercentAfter(step, k)`, all stay in [0, 1), and the one after the last reaches 1 |
| Render.SegmentFrames | render.C:376-390 | one frame per percentage |
| Render.Route | render.C:353-356 | with the loop option the first waypoint is appended at the end; otherwise the route is the waypoints |
| Render.PlanSegmentsLayout | render.C:369-391 | segments come in order: frame j·m + k interpolates waypoint j towards j + 1 at the k-th percentage |
| Render.PlanSegments | render.C:369-391 | no contract of its own: the frames of each segment in route order; `PlanSegmentsLayout` and `PlanSegmentsPercents` state their layout and range |
| Render.Plan | render.C:347-410 | no contract of its own: the planned segments plus the final frame; `PlanShape` and `PlanPercents` state its layout and range |
| Render.SegmentLoop | render.C:376-390 | the inner loop renders one frame per percentage of the segment |
| Render.Schedule | render.C:347-410 | fewer than two waypoints is an error; otherwise the frames are the planned segments, plus a final frame at the last waypoint without the loop option |
| Render.Run | render.C:270-410 | a step refused by the corrected check is an error; then the schedule as above (a given step of 0 is refused here, see "## Left out") |
| Render.PlanShape | render.C:353-410 | segment j of the route supplies frames j·m to j·m + m - 1; without the loop option the last frame sits at the last waypoint |
| Render.PlanPercents | render.C:369-391 | every frame of the schedule is rendered at a percentage in [0, 1) |
| Render.PlanSegmentsPercents | render.C:369-391 | frames built from percentages in [0, 1) keep them there |
| SplitDepth.CheckArguments | splitdepth.py:26-47 | ready exactly when there are four arguments, the depth parses and neither output exists; a wrong count is refused as such; an existing output is named |
| SplitDepth.ParsedPrefix | splitdepth.py:53-55 | the lines routed before the first line whose first field does not parse |
| SplitDepth.RouteLines | splitdepth.py:53-59 | the loop appends each parsed line verbatim, in order, to the first output if its depth is below the threshold and to the second otherwise, and stops at the first line that does not parse |
| SplitDepth.Below | splitdepth.py:56-58 | no contract of its own: the parsed lines with depth below the threshold, in order; `BelowAppend` and `RoutingPartitions` state its meaning |
| SplitDepth.AtOrAbove | splitdepth.py:56-59 | no contract of its own: the parsed lines at or above the threshold, in order; `AtOrAboveAppend` and `RoutingPartitions` state its meaning |
| SplitDepth.BelowAppend | splitdepth.py:53-57 | routing a concatenation concatenates the first outputs: relative order is kept |
| SplitDepth.AtOrAboveAppend | splitdepth.py:53-59 | the same for the second output |
| SplitDepth.RoutingPartitions | splitdepth.py:56-59 | every parsed line goes to exactly one output: together they are a rearrangement of the input, below the threshold in the first, at or above in the second |
| SplitDepth.Run | splitdepth.py:26-59 | a refused command line produces only the refusal; otherwise the two outputs are the lines below, and at or above, the parsed depth among the lines before the first unparsable one, and the run reports whether it stopped early |
| SplitDepth.NoOverwrite | splitdepth.py:39-47 | an existing output file stops the script before anything is opened for writing |

## Left out

- Input and output are not modelled: console messages, the `cout` of `buildBlob`, `printCellCounts`, `printBlob`, `Cdf::print` and `Cdf::writeForGraphing`. They compute nothing that is kept.
- File access is not modelled. The colour-map file arrives as an optional list of lines, the splitter's input file as a list of lines, and file existence as a predicate.
- Parsing is a parameter: `atof`, `istringstream >>` and Python's `float` of the first field. The lines themselves are kept verbatim.
- Floating point is `real`. There is no IEEE rounding, infinities or NaN, so `float(i)/d.size()` is an exact fraction. The "jitter" cap of the colour ramp is still modelled.
- Trigonometry is left out: `sqrt`, `acos` and `atan` in `xyz2tpr`. `atan` is a parameter with range (-π/2, π/2), and `theta` is a parameter. `ldi2xyz`, `rotateXY` and the `radius` output are not modelled.
- The GSL eigen decomposition is not modelled. Its vectors and values arrive as sequences.
- `Angles.Flip` returns the new pair rather than updating two reference parameters. The `double` and `float` overloads are the same function over the reals.
- `hton_float`/`ntoh_float` and the float getters (`getScaleX` … `getRotZ`) are left out: they reinterpret float bits. The scale and rotation fields hold the bytes of `1.0f` in network order.
- `VolHeader(filename, ok)` is not modelled: it is unimplemented and asserts false.
- `VolFormat.GetMagicNumber` … `VolFormat.GetIndexBits` have no contract of their own. What they return after construction is stated by `ConstructThenGet`.
- `hsv2rgb` is a parameter: it is a call into the scene library's colour class.
- `ColorMap.ColorPallet.HandleLine`: the ALPHA and LUM_ALPHA handlers only print a message and return false, so they change nothing here. Their result is ignored by the loop.
- `ColorMap.ColorPallet.LoadLines` states only the open failure, success and the colour model; what each line does to the tables is stated by `HandleLine` and the handlers it calls.
- `ColorMap.FillTable` runs the fill loop once per table. The source fills all four tables in one loop; the entries written are the same.
- `ColorMap.ColorPallet.LoadLines`: `getline` into a 256-byte buffer stops reading at a line of 256 characters or more. The model stops there, and does not model the partial line the stream leaves behind.
- `Render.Run` checks a given step with the corrected `StepAccepted`, which refuses 0. The code accepts a given step of 0 (render.C:274-275) and then never leaves the inner loop of the first segment (render.C:376); that run does not terminate and is not modelled by `Run`. `StepZeroNeverEnds` states it instead: the written check accepts 0 and the percentage after every pass, `PercentAfter(0, k)`, stays below 1.
- `Render.Run` assumes the default step, when none is given on the command line, is positive. The default is set in scene-graph code outside this model.
- Scene rendering is left out: the camera set-up, `slerp` of the orientation, `SbRotation`, writing frames to disk (and its failure path), draggers and option parsing. A frame is modelled as the (from, to, percentage) triple it is rendered from.
- `getCellNeighbor` and `NUM_NEIGHBORS` are not part of this model. They are parameters of `DensityFlagged` (a neighbour function and a count).
- The `Density` methods that are declared but not shown are not part of this model: `writeVol`, `writeVolScale`, `buildCDF`, `rescale`, `getMinCount`, `getMaxCount` and `Density(filename, ok)`.
- `getSize` is `counts.Length`, and `resize` is the `Density` constructor.
- `getWidth`, `getHeight`, `getDepth` and `getCountInside` are the fields `width`, `height`, `depth` and `totalPointsInside`. The constructor's contract states their values.
- `getCellCount` and `isValidCell` are `CellCount` and `IsValidCell`, which have no contract of their own: `CellCount(i)` requires `IsValidCell(i)`.
- `VoxelDensity.Density.AddPoint` requires what `addPoint` asserts: `getCell`'s offset bound of 10^9 and a valid cell. Because of the `getCellX` precedence, a point in the box can fail these. The model refuses such points rather than modelling the out-of-range write.
- `FlaggedDensity.DensityFlagged.BuildBlob` requires a grid with a non-zero count. On an empty grid `getLargest` returns `badValue()` and `setFlag(badValue())` fails its assertion.
- `size_t` overflow of the sums in `getFlaggedCount` and `getNumFlagged` is not modelled. With fewer than 10^12 cells and counts bounded by the points added, it cannot happen in practice.
- The disabled free function `cdf` is not modelled.
- The GSL random numbers, bootstrap, Hext statistic, histogram and other file tools of the repository are not part of this model.

## Findings

| source | as written | input that shows it | evidently intended | confidence | as-written member | corrected member |
|---|---|---|---|---|---|---|
| Cdf.C:123 | between two table entries `getCDF` returns `value[offset-1]`, a data value | data [2, 4], query 3: returns 2.0 | `percent[offset-1]`, the fraction 0.5 | high; not executed | EmpiricalCdf.CdfValueCounterexample | EmpiricalCdf.CdfCorrectedIsFraction |
| Density.H:33 | `size_t((x-xR[0]/dx))` divides before subtracting | 2 cells over x in [0, 4], x = 3: cell 3, outside the grid | `size_t((x-xR[0])/dx)`: cell 1 | high; not executed | VoxelDensity.CellXPrecedenceCounterexample | VoxelDensity.Density.CellXIntended |
| Density.C:132 | `getCellXYZ` subtracts `cz*getDepth()` | 2×2×2 grid, index 4: gives (0, 1, 1) | subtract `cz*W*H`: (0, 0, 1) | high; not executed | VoxelDensity.CellXYZDepthCounterexample | VoxelDensity.Density.CellXYZIntendedInverts |
| VolHeader.C:137 | `assert(52==header_length)` tests the field after conversion to network order | any little-endian host: the field reads as 0x34000000 | compare `ntoh_uint32(header_length)` with 52 | high; not executed | VolFormat.NewHeaderAsWrittenFailsOnLittleEndian | VolFormat.NewHeader |
| render.C:274-275 | a step percent of 0 passes the range check | `--percent 0`: the inner loop `percent += 0` never ends | refuse 0 as well: step in (0, 1] | medium; not executed | Render.StepZeroNeverEnds | Render.StepAcceptedEnds |
