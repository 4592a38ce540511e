# area2waypoint shot-point engine and command line, in Dafny

area2waypoint turns a DJI area (mapping) mission into a waypoint mission.
Each route of the area mission carries path points and action groups. The
converter places one shot point wherever the mission's distance trigger would
take a photo. It then writes one waypoint archive, or one archive per route
in split mode.

This project models two parts of it:

- **The shot-point engine** (`src/wpml/compute.py`).
  - It chooses the distance trigger of a route, picking the widest
    `multipleDistance` group that takes a photo.
  - It walks the in-range path points and takes an interpolated shot every
    `spacing` metres of arc length.
  - It substitutes the group's gimbal angles where a segment leaves them unset.
  - Without a trigger it falls back to one shot per waypoint.
  - It composes the routes, and lets a metadata CSV replace the first
    route's shots.
- **The command line's rules** (`src/cli.py`): the default output file name,
  the per-route labels and file names of split mode, and the exit-code chain
  of `main`.

Modules:

- `Wrappers`: the `Option` and `Result` types.
- `Parse` (parse.dfy): the records the WPML reader produces.
- `Compute` (compute.dfy): interpolation and the resampler.
- `Waylines` (waylines.dfy): trigger selection, one route, the CSV rows and
  all routes.
- `Paths` (paths.dfy): the part of `pathlib` the command line uses.
- `Cli` (cli.dfy): output naming and `main`.

### How the functions relate to the source

The source's loops are methods with loop invariants. Each method is proved
equal to a specification function:

- `ComputeShotsFromMultipleDistance` (the `for` over segments and the
  `while` over thresholds) equals `Resample`.
- `ComputeShotPointsPerWayline` equals `PerWayline`.
- `LoadShotsFromCsv` equals `RowsToShots`.
- `Run` satisfies `BuildOutcome` over the `Plan` of writer calls.

The properties are then proved about those functions:

- the closed-form shot count;
- a reference description of every shot by its arc length;
- the first shot;
- the gimbal defaults;
- the selection rule;
- order and membership of the composed routes;
- the naming rules.

The haversine distance is a parameter `dist` of type `Distance`. That type
is every function of two coordinate pairs that never returns a negative
value. All numbers are `real`.

## Model

| member | source | states |
|---|---|---|
| Compute.SegmentLength | src/wpml/compute.py:69 | a segment's length is the distance between its endpoints' coordinates, and is never negative |
| Compute.Interpolate | src/wpml/compute.py:35-47 | the field-by-field blend `p0 + t * (p1 - p0)` of the six pose fields; its properties are stated by InterpolateEndpoints and InterpolateBetween |
| Compute.InterpolateEndpoints | src/wpml/compute.py:35-47 | interpolation at t = 0 gives every field of p0 (lon, lat, height, heading, pitch, yaw), and at t = 1 every field of p1 |
| Compute.InterpolateBetween | src/wpml/compute.py:35-47 | for t in [0, 1], every interpolated field lies between the two points' values of that field |
| Compute.Clamp | src/wpml/compute.py:73 | max(0, min(1, t)) lies in [0, 1]; it is t inside the interval, 0 below it and 1 above it |
| Compute.SegmentParamFacts | src/wpml/compute.py:72-73 | the shot parameter is in [0, 1]; a zero-length segment gives t = 1; a threshold at the segment start gives t = 0; a threshold inside the segment gives t * length = distance into the segment |
| Compute.SegmentShot | src/wpml/compute.py:72-88 | the shot at a threshold on one segment: the interpolated pose at the clamped parameter with the gimbal rule; its properties are stated by SegmentParamFacts and SegmentShotGimbal |
| Compute.SegmentShotGimbal | src/wpml/compute.py:74-87 | a shot is the interpolated pose except for the gimbal; pitch is the default exactly when both ends have zero pitch, else the interpolated pitch; yaw is decided the same way against the yaw default, independently |
| Compute.InRange | src/wpml/compute.py:59 | the filtered points are never more than the input points |
| Compute.InRangeMembers | src/wpml/compute.py:59 | a point is kept exactly when it is an input point with start <= index <= end |
| Compute.InRangeConcat | src/wpml/compute.py:59 | the filter keeps the given order: filtering a concatenation is the concatenation of the filtered parts |
| Compute.InRangeOfSortedIsSlice | src/wpml/compute.py:59 | on index-sorted points the filtered points are one contiguous run: skip the points below start, then keep the leading points up to end |
| Compute.ThresholdCount | src/wpml/compute.py:71-89 | the number of times the inner loop fires is 0 exactly when the segment end is below the next threshold; otherwise the last threshold taken is reached and the one after it is not |
| Compute.Resample | src/wpml/compute.py:60-61 | fewer than two in-range points produce no shots |
| Compute.TickInvariant | src/wpml/compute.py:63-91 | after n segments, the walked length is the path length of those segments and the next threshold is (number of shots) additions of the spacing; after the first segment the last threshold taken is within the walked length and the next is beyond it |
| Compute.WalkLength | src/wpml/compute.py:79-89 | the shot list holds exactly as many shots as the threshold counter has advanced |
| Compute.PathLengthMonotone | src/wpml/compute.py:91 | arc length never decreases along the path |
| Compute.ResampleCount | src/wpml/compute.py:63-91 | with at least two in-range points the resampler emits floor(L / spacing) + 1 shots, where L is the path's total arc length |
| Compute.ArcSegment | src/wpml/compute.py:67-71 | the segment holding arc length x is the first whose end reaches x, searching from the given segment |
| Compute.ArcSegmentFinds | src/wpml/compute.py:67-71 | an arc length that lies in segment i is found in segment i |
| Compute.ThresholdIsMultiple | src/wpml/compute.py:63-89 | the threshold of shot k is exactly k * spacing |
| Compute.ResampleAtArcLengths | src/wpml/compute.py:63-93 | the k-th shot is the interpolated shot at arc length k * spacing on the segment holding that length, and that length is within the path |
| Compute.ResampleFirstShot | src/wpml/compute.py:63-77 | the first shot is taken at arc length 0 on the first segment; when that segment has positive length, the shot is the first in-range point's pose, with the gimbal default rule applied |
| Compute.ResampleUnsetPitch | src/wpml/compute.py:76 | when no in-range point sets a pitch, every shot takes the default pitch |
| Compute.ResampleUnsetYaw | src/wpml/compute.py:77 | when no in-range point sets a yaw, every shot takes the default yaw |
| Compute.FiresExactly | src/wpml/compute.py:71 | the while guard holds for the e-th firing exactly when e is below the closed-form count |
| Compute.TakeShot | src/wpml/compute.py:72-88 | the body of the inner loop computes the shot at the current threshold: the clamped parameter, the interpolated pose and the gimbal rule |
| Compute.ShootSegment | src/wpml/compute.py:71-89 | the inner loop appends the shots at every threshold the segment's end reaches and leaves the first threshold it does not reach |
| Compute.WalkStep | src/wpml/compute.py:67-91 | one pass of the outer loop turns the state after i segments into the state after i + 1 |
| Compute.ComputeShotsFromMultipleDistance | src/wpml/compute.py:50-93 | the method's shots are the resampler applied to the points with start <= index <= end, in their given order |
| Waylines.Candidates | src/wpml/compute.py:98-105 | a group is a candidate exactly when its trigger is multipleDistance, it has a parameter that is positive, and it takes a photo; the list is empty exactly when no group qualifies |
| Waylines.IsCandidate | src/wpml/compute.py:101-104 | the four qualifying conditions of a group; used by Candidates and SelectBest |
| Waylines.SelectBestMultipleDistanceGroup | src/wpml/compute.py:96-108 | a selected group is a qualifying group of the input |
| Waylines.WidestIn | src/wpml/compute.py:108 | the maximum by range width is one of the candidates |
| Waylines.Widest | src/wpml/compute.py:108 | the left-to-right `max` by range width that keeps the earlier group on a tie; see WidestIn and SelectBest |
| Waylines.SelectBest | src/wpml/compute.py:96-108 | the selection is None exactly when no group qualifies; otherwise no qualifying group is wider, and it is the first qualifying group of that width, as `max` keeps |
| Waylines.FallbackShots | src/wpml/compute.py:158-168 | one shot per point, in order; lon, lat and height are copied, heading is the waypoint heading, pitch is -90 when the point's pitch is 0 and copied otherwise, and yaw is copied |
| Waylines.ComputeShotsForWayline | src/wpml/compute.py:141-168 | a route's shots are the resampler on the selected group's range, spacing and gimbal angles, or the fallback when no group qualifies |
| Waylines.WaylineShots | src/wpml/compute.py:141-168 | the shots of one route, the specification of ComputeShotsForWayline; see WaylineShotCount, WaylineResampled, WaylineUnsetPitch and WaylineUnsetYaw |
| Waylines.WaylineShotCount | src/wpml/compute.py:141-168 | without a selected group a route has one shot per point; with one, its shots are empty when fewer than two points are in range, and floor(L / spacing) + 1 otherwise |
| Waylines.WaylineResampled | src/wpml/compute.py:145-156 | with a selected group, the route's shots are the resampler's on that group's range, spacing and angles |
| Waylines.WaylineUnsetPitch | src/wpml/compute.py:146-156 | the pitch default of a route is its selected group's pitch: where no in-range point sets a pitch, every shot has the group's pitch |
| Waylines.WaylineUnsetYaw | src/wpml/compute.py:146-156 | the yaw default of a route is its selected group's yaw, decided independently of pitch |
| Waylines.RowToShot | src/wpml/compute.py:177-192 | a lat or lon column absent from the header reads as 0; altitude prefers rel_alt, then alt, then height, then 0; pitch defaults to -90 and yaw to 0; heading prefers flight_yaw, then heading, then 0 |
| Waylines.RowRoundTrip | src/cli.py:35 | a row with the documented columns (lat, lon, rel_alt, gimbal_yaw, gimbal_pitch, flight_yaw) reads back as the shot it was written from |
| Waylines.RowIgnoresOtherColumns | src/wpml/compute.py:177-182 | columns other than the nine the mapping reads do not change the shot |
| Waylines.RowsToShots | src/wpml/compute.py:176-192 | one shot per row |
| Waylines.LoadShotsFromCsv | src/wpml/compute.py:173-193 | the row loop yields each row's shot, in file order |
| Waylines.RouteShotsConcat | src/wpml/compute.py:133-138 | routes keep their order: the result for two runs of routes is the first run's result followed by the second's |
| Waylines.RouteShotsMembers | src/wpml/compute.py:133-138 | every listed route is an input route with its own non-empty shots; every input route with non-empty shots is listed |
| Waylines.RouteShots | src/wpml/compute.py:133-138 | the routes with non-empty shots, each with its shots; see RouteShotsConcat, RouteShotsMembers and RouteShotsSnoc |
| Waylines.PerWaylineCsv | src/wpml/compute.py:126-131 | with a CSV the result is the first route paired with one shot per row, or nothing when there is no route; other routes are dropped |
| Waylines.PerWayline | src/wpml/compute.py:121-138 | the composed result, the specification of ComputeShotPointsPerWayline; see PerWaylineCsv for the CSV branch and RouteShotsMembers for the other |
| Waylines.RouteShotsSnoc | src/wpml/compute.py:134-137 | one more route appends its entry, if its shots are non-empty, at the end |
| Waylines.ComputeShotPointsPerWayline | src/wpml/compute.py:121-138 | the loop's result is the CSV override when a CSV exists, and otherwise the routes with non-empty shots in route order |
| Waylines.ComputeShotPoints | src/wpml/compute.py:111-118 | the CSV's shots when a CSV exists, otherwise the shots of the mission's top-level points and groups, which the reader copies from the first wayline that has points (src/wpml/parse.py:265-269) |
| Paths.Name | src/cli.py:87 | a path's name contains no separator |
| Paths.Parent | src/cli.py:84-87 | the parent keeps the path's anchor |
| Paths.Join | src/cli.py:61 | `p / s` for a separator-free string, where "" and "." leave p unchanged; see JoinPart |
| Paths.JoinPart | src/cli.py:61 | joining a proper component gives a path with that name, whose parent is the original path |
| Paths.LastIndexOf | src/cli.py:60 | rfind: -1 or the position of the character, with no later occurrence |
| Paths.Suffix | src/cli.py:58 | the pathlib suffix of a name, from its last dot unless that dot leads or ends the name; see StemSuffix and StemOfExtension |
| Paths.Stem | src/cli.py:58 | the pathlib stem of a name, which has no separator when the name has none; see StemSuffix and StemOfExtension |
| Paths.StemSuffix | src/cli.py:58 | a name is its stem followed by its suffix |
| Paths.StemOfExtension | src/cli.py:84 | `stem.ext`, for a non-empty stem and an extension without dots, has that stem and suffix `.ext` |
| Cli.RemoveAll | src/cli.py:84 | deleting a pattern never introduces characters |
| Cli.RemoveAllNone | src/cli.py:84 | a string without an occurrence of the pattern is left unchanged |
| Cli.RemoveAllAppended | src/cli.py:84 | one trailing `_waypoints` is removed from a stem in which no other occurrence starts |
| Cli.NatToString | src/cli.py:86 | the printed position is a non-empty string of decimal digits |
| Cli.NatToStringInjective | src/cli.py:86 | different positions print differently |
| Cli.DefaultStem | src/cli.py:58-60 | the default stem rule; see DefaultStemRule |
| Cli.DefaultStemRule | src/cli.py:58-60 | a stem ending in `_area` or `_mapping` loses exactly that suffix; any other stem is unchanged |
| Cli.DefaultOutput | src/cli.py:61 | the input's directory joined with `<stem>_waypoints.kmz`; see DefaultOutputPlacement |
| Cli.OutputPath | src/cli.py:56-61 | the explicit `-o` path verbatim, else DefaultOutput; see DefaultOutputPlacement and Run |
| Cli.DefaultOutputPlacement | src/cli.py:56-61 | the default output is in the input's directory, named `<stem>_waypoints.kmz`, and its own stem is `<stem>_waypoints` |
| Cli.RouteLabel | src/cli.py:86 | a route label contains no separator |
| Cli.SplitBase | src/cli.py:84 | the output's directory joined with the output stem with every `_waypoints` deleted; see SplitRoutePlacement and RemoveAllAppended |
| Cli.SplitRoutePath | src/cli.py:87 | `<base>_<label>.kmz` beside the base; see SplitRoutePlacement, SplitLabelRecovered and SplitRoutePathsDistinct |
| Cli.RouteLabelsDistinct | src/cli.py:86 | two routes share a label exactly when both are wayline 0, or both are oblique at the same position in the list |
| Cli.SplitRoutePlacement | src/cli.py:84-87 | a split file is `<base>_<label>.kmz` in the output's directory, where base is the output stem with `_waypoints` deleted; when that leaves "" or ".", the file lands one directory up, named after the output's directory |
| Cli.SplitNameIsPart | src/cli.py:87 | a split file name is a single non-empty path component |
| Cli.SplitLabelRecovered | src/cli.py:87 | the label can be read back from the split file's name |
| Cli.SplitRoutePathsDistinct | src/cli.py:87 | different labels give different files |
| Cli.PlanAt | src/cli.py:85-94 | the split-mode plan has one call per route, and call i is that route's call |
| Cli.Plan | src/cli.py:83-103 | the writer calls `main` makes when none raises; see PlanAt and PlanShape |
| Cli.PlanShape | src/cli.py:83-103 | in split mode there is one call per route, each with that route alone, and two calls share a file exactly when both routes are wayline 0; in single mode there is one call carrying every route to the output path |
| Cli.StopsAtFailure | src/cli.py:85-107 | the first raising writer call ends the builds with exit code 1 |
| Cli.AllSucceed | src/cli.py:85-109 | when every writer call returns, every planned call is made and the exit code is 0 |
| Cli.BuildOutcome | src/cli.py:82-109 | calls follow the plan up to the first that raises; code 0 exactly when every planned call succeeds; the contract of BuildEachRoute and Run |
| Cli.BuildEachRoute | src/cli.py:84-107 | the split loop makes the planned calls in order, stops at the first that raises with code 1, and returns 0 only when all succeed |
| Cli.Run | src/cli.py:56-109 | exit code 1 with no writer call when parsing or the CSV raises, or when no route has shots; otherwise the writer calls follow the plan up to the first that raises, and the code is 0 exactly when none raises |

## Left out

- The haversine formula (src/wpml/compute.py:22-32) is floating-point trigonometry. It is the parameter `dist`, of which the model assumes only that it is non-negative.
- Floating-point rounding: all coordinates, angles and lengths are `real`. The shot count floor(L / spacing) + 1 holds over the reals; rounding in `next_shot_at += spacing_m` can shift it by one.
- Compute.ComputeShotsFromMultipleDistance: requires `spacing > 0`. The source's inner `while` never ends otherwise. Its only caller passes the trigger parameter of a selected group, which is positive by the selection rule.
- Reading the KMZ archive and its XML (the parsing functions of src/wpml/parse.py) is not modelled. The reader's records are datatypes, and its index sort (src/wpml/parse.py:255) is the `SortedByIndex` predicate, used by `InRangeOfSortedIsSlice`.
- CSV file mechanics are not modelled: opening the file, `csv.DictReader`, `float()` parsing and `exists()`. A row is a map from column names to numbers already parsed. A file that exists is `Some(rows)`. A file whose reading or number parsing raises is `CsvUnreadable`, on which `main` returns 1.
- The archive writer (src/wpml/build.py) is not modelled: serialisation, zip writing, identifiers and timestamps. Each call is recorded as a `BuildCall`, and whether it raises is the parameter `buildSucceeds`.
- Argument parsing, printing to stdout and stderr, and the `__main__` guard of src/cli.py are not modelled.
- A parse error is modelled as `parsed == None`; what the reader raises on is not part of this model.
- Paths: `pathlib` is modelled for paths whose components are normalised (non-empty, never ".", no separators), with the stem and suffix rule of Python 3.8 to 3.12: a leading dot or a trailing dot does not start a suffix. POSIX separators only: '/' is the one separator, so Windows backslashes and drive anchors are not modelled.
- setup.py and src/wpml/__init__.py (packaging and re-exports) are not part of this model.

## Behaviour notes

The model follows the code in these places:

- A metadata CSV that exists overrides the routes even when it has no rows. The composed result is then the first route with no shots, which is not empty, so `main` still calls the writer (`PerWayline`, `Run`).
- A selected trigger whose range holds fewer than two points yields no shots. There is no fallback to the waypoints; the route is then omitted from the composed result (`Resample`, `RouteShotsMembers`).
- Two routes with wayline id 0 both get the label "ortho" and the same file name, so the second write goes to the first one's file (`PlanShape`).
