/**
 * Per-route composition of shot points (src/wpml/compute.py:96-193): pick
 * the distance trigger of a route, resample its path or fall back to its
 * waypoints, and let a metadata CSV replace the first route's shots.
 */
module Waylines {
  import opened Wrappers
  import opened Parse
  import opened Compute

  // ---------------------------------------------------------------------
  // Trigger selection
  // ---------------------------------------------------------------------

  /** An action group that takes a photo every `triggerParam` metres. */
  predicate IsCandidate(ag: ActionGroup)
  {
    && ag.triggerType == "multipleDistance"
    && ag.triggerParam.Some? && ag.triggerParam.value > 0.0
    && ag.hasTakePhoto
  }

  /** The width of a group's index range, the key of the selection. */
  function Span(ag: ActionGroup): int
  {
    ag.endIndex - ag.startIndex
  }

  /** The candidate groups, in their given order. */
  function Candidates(groups: seq<ActionGroup>): (c: seq<ActionGroup>)
    ensures forall ag :: ag in c <==> ag in groups && IsCandidate(ag)
    ensures c == [] <==> forall ag :: ag in groups ==> !IsCandidate(ag)
  {
    if groups == [] then []
    else
      var rest := Candidates(groups[..|groups| - 1]);
      var last := groups[|groups| - 1];
      assert groups == groups[..|groups| - 1] + [last];
      if IsCandidate(last) then rest + [last] else rest
  }

  /**
   * A left-to-right maximum by Span that replaces the current best only
   * when a later group is strictly wider.
   */
  function Widest(c: seq<ActionGroup>): ActionGroup
    requires c != []
  {
    if |c| == 1 then c[0]
    else
      var best := Widest(c[..|c| - 1]);
      if Span(c[|c| - 1]) > Span(best) then c[|c| - 1] else best
  }

  /** `_select_best_multiple_distance_group`. */
  function SelectBestMultipleDistanceGroup(groups: seq<ActionGroup>): (r: Option<ActionGroup>)
    ensures r.Some? ==> IsCandidate(r.value) && r.value in groups
  {
    var c := Candidates(groups);
    if c == [] then None else WidestIn(c); Some(Widest(c))
  }

  lemma {:induction false} WidestIn(c: seq<ActionGroup>)
    requires c != []
    ensures Widest(c) in c
  {
    if |c| > 1 {
      WidestIn(c[..|c| - 1]);
    }
  }

  /** No qualifying group of `groups` is wider than g. */
  predicate NoneWider(groups: seq<ActionGroup>, g: ActionGroup)
  {
    forall ag :: ag in groups && IsCandidate(ag) ==> Span(ag) <= Span(g)
  }

  /** Every qualifying group before position i is strictly narrower than groups[i]. */
  predicate FirstOfWidth(groups: seq<ActionGroup>, i: int)
  {
    0 <= i < |groups| && forall j :: 0 <= j < i && IsCandidate(groups[j]) ==> Span(groups[j]) < Span(groups[i])
  }

  lemma FirstOfWidthExtend(init: seq<ActionGroup>, last: ActionGroup, i: int)
    requires FirstOfWidth(init, i)
    ensures FirstOfWidth(init + [last], i) && (init + [last])[i] == init[i]
  {
    var groups := init + [last];
    assert forall j :: 0 <= j <= i ==> groups[j] == init[j];
  }

  /**
   * The selection: None exactly when no group qualifies; otherwise a
   * qualifying group at least as wide as every other one, and the first
   * such group in the given order.
   */
  lemma {:induction false} SelectBest(groups: seq<ActionGroup>)
    ensures var r := SelectBestMultipleDistanceGroup(groups);
            && (r.None? <==> forall ag :: ag in groups ==> !IsCandidate(ag))
            && (r.Some? ==> NoneWider(groups, r.value) && exists i :: FirstOfWidth(groups, i) && groups[i] == r.value)
  {
    if groups != [] {
      var init := groups[..|groups| - 1];
      var last := groups[|groups| - 1];
      assert groups == init + [last];
      SelectBest(init);
      var r' := SelectBestMultipleDistanceGroup(init);
      if !IsCandidate(last) {
        SelectAppendOther(init, last);
      } else if r'.None? {
        SelectAppendFirstCandidate(init, last);
      } else {
        var i :| FirstOfWidth(init, i) && init[i] == r'.value;
        SelectAppendCandidate(init, last, i);
      }
    }
  }

  /** Appending a group that does not qualify changes nothing. */
  lemma SelectAppendOther(init: seq<ActionGroup>, last: ActionGroup)
    requires !IsCandidate(last)
    requires var r' := SelectBestMultipleDistanceGroup(init);
             && (r'.None? <==> forall ag :: ag in init ==> !IsCandidate(ag))
             && (r'.Some? ==> NoneWider(init, r'.value) && exists i :: FirstOfWidth(init, i) && init[i] == r'.value)
    ensures var r := SelectBestMultipleDistanceGroup(init + [last]);
            && (r.None? <==> forall ag :: ag in init + [last] ==> !IsCandidate(ag))
            && (r.Some? ==> NoneWider(init + [last], r.value)
                            && exists i :: FirstOfWidth(init + [last], i) && (init + [last])[i] == r.value)
  {
    var groups := init + [last];
    assert groups[..|groups| - 1] == init;
    assert Candidates(groups) == Candidates(init);
    var r' := SelectBestMultipleDistanceGroup(init);
    if r'.Some? {
      var i :| FirstOfWidth(init, i) && init[i] == r'.value;
      FirstOfWidthExtend(init, last, i);
    }
  }

  /** Appending the first qualifying group selects it. */
  lemma SelectAppendFirstCandidate(init: seq<ActionGroup>, last: ActionGroup)
    requires IsCandidate(last)
    requires forall ag :: ag in init ==> !IsCandidate(ag)
    ensures var r := SelectBestMultipleDistanceGroup(init + [last]);
            && r == Some(last) && NoneWider(init + [last], last) && FirstOfWidth(init + [last], |init|)
  {
    var groups := init + [last];
    assert groups[..|groups| - 1] == init;
    assert Candidates(groups) == [last];
    assert forall j :: 0 <= j < |init| ==> groups[j] == init[j];
  }

  /** Appending a qualifying group when init already has a selection i: the new one wins only when strictly wider. */
  lemma SelectAppendCandidate(init: seq<ActionGroup>, last: ActionGroup, i: int)
    requires IsCandidate(last)
    requires var r' := SelectBestMultipleDistanceGroup(init);
             r'.Some? && NoneWider(init, r'.value) && FirstOfWidth(init, i) && init[i] == r'.value
    ensures var r := SelectBestMultipleDistanceGroup(init + [last]);
            && r.Some? && NoneWider(init + [last], r.value)
            && exists i :: FirstOfWidth(init + [last], i) && (init + [last])[i] == r.value
  {
    var groups := init + [last];
    assert groups[..|groups| - 1] == init;
    var c' := Candidates(init);
    var c := Candidates(groups);
    assert c == c' + [last];
    assert c[..|c| - 1] == c';
    var best := SelectBestMultipleDistanceGroup(init).value;
    assert best == Widest(c');
    if Span(last) > Span(best) {
      assert SelectBestMultipleDistanceGroup(groups).value == last;
      assert forall j :: 0 <= j < |init| ==> groups[j] == init[j];
      assert FirstOfWidth(groups, |init|);
    } else {
      assert SelectBestMultipleDistanceGroup(groups).value == best;
      FirstOfWidthExtend(init, last, i);
    }
  }

  // ---------------------------------------------------------------------
  // One route
  // ---------------------------------------------------------------------

  /** A waypoint taken as a shot when no distance trigger applies. */
  function FallbackShot(p: PathPoint): ShotPoint
  {
    ShotPoint(p.lon, p.lat, p.executeHeight, p.waypointHeadingAngle,
              if p.gimbalPitch != 0.0 then p.gimbalPitch else -90.0, p.gimbalYaw)
  }

  /** The fallback comprehension of `_compute_shots_for_wayline`. */
  function FallbackShots(points: seq<PathPoint>): (shots: seq<ShotPoint>)
    ensures |shots| == |points|
    ensures forall i :: 0 <= i < |points| ==>
              && shots[i].lon == points[i].lon && shots[i].lat == points[i].lat
              && shots[i].executeHeight == points[i].executeHeight
              && shots[i].heading == points[i].waypointHeadingAngle
              && (points[i].gimbalPitch == 0.0 ==> shots[i].gimbalPitch == -90.0)
              && (points[i].gimbalPitch != 0.0 ==> shots[i].gimbalPitch == points[i].gimbalPitch)
              && shots[i].gimbalYaw == points[i].gimbalYaw
  {
    seq(|points|, i requires 0 <= i < |points| => FallbackShot(points[i]))
  }

  /**
   * The shots of one route: the resampler on the selected group's index
   * range, spacing and gimbal angles, or the fallback without a group.
   */
  function WaylineShots(dist: Distance, points: seq<PathPoint>, groups: seq<ActionGroup>): seq<ShotPoint>
  {
    match SelectBestMultipleDistanceGroup(groups)
    case None => FallbackShots(points)
    case Some(ag) =>
      Resample(dist, InRange(points, ag.startIndex, ag.endIndex), ag.triggerParam.value,
               ag.gimbalPitch, ag.gimbalYaw)
  }

  /** `_compute_shots_for_wayline`. */
  method ComputeShotsForWayline(dist: Distance, points: seq<PathPoint>, groups: seq<ActionGroup>)
    returns (shots: seq<ShotPoint>)
    ensures shots == WaylineShots(dist, points, groups)
  {
    var ag := SelectBestMultipleDistanceGroup(groups);
    if ag.Some? {
      var g := ag.value;
      shots := ComputeShotsFromMultipleDistance(dist, points, g.startIndex, g.endIndex, g.triggerParam.value,
                                                g.gimbalPitch, g.gimbalYaw);
    } else {
      shots := FallbackShots(points);
    }
  }

  /**
   * Without a qualifying group a route has one shot per point; with one,
   * as many shots as the in-range path holds spacings, plus one.
   */
  lemma WaylineShotCount(dist: Distance, points: seq<PathPoint>, groups: seq<ActionGroup>)
    ensures var r := SelectBestMultipleDistanceGroup(groups);
            var shots := WaylineShots(dist, points, groups);
            && (r.None? ==> |shots| == |points|)
            && (r.Some? ==>
                  var seg := InRange(points, r.value.startIndex, r.value.endIndex);
                  && (|seg| < 2 ==> shots == [])
                  && (|seg| >= 2 ==> |shots| == (PathLength(dist, seg, |seg| - 1) / r.value.triggerParam.value).Floor + 1))
  {
    var r := SelectBestMultipleDistanceGroup(groups);
    if r.Some? {
      var seg := InRange(points, r.value.startIndex, r.value.endIndex);
      ResampleCount(dist, seg, r.value.triggerParam.value, r.value.gimbalPitch, r.value.gimbalYaw);
    }
  }

  /** With a qualifying group, a route's shots are the resampler's on its range. */
  lemma WaylineResampled(dist: Distance, points: seq<PathPoint>, groups: seq<ActionGroup>)
    requires SelectBestMultipleDistanceGroup(groups).Some?
    ensures var ag := SelectBestMultipleDistanceGroup(groups).value;
            WaylineShots(dist, points, groups)
              == Resample(dist, InRange(points, ag.startIndex, ag.endIndex), ag.triggerParam.value,
                          ag.gimbalPitch, ag.gimbalYaw)
  {
  }

  /**
   * The pitch default of a route is its selected group's pitch: on a range
   * whose points all leave pitch unset, every shot takes the group's pitch.
   */
  lemma WaylineUnsetPitch(dist: Distance, points: seq<PathPoint>, groups: seq<ActionGroup>)
    requires SelectBestMultipleDistanceGroup(groups).Some?
    requires var ag := SelectBestMultipleDistanceGroup(groups).value;
             var seg := InRange(points, ag.startIndex, ag.endIndex);
             forall j :: 0 <= j < |seg| ==> seg[j].gimbalPitch == 0.0
    ensures var shots := WaylineShots(dist, points, groups);
            forall k :: 0 <= k < |shots| ==> shots[k].gimbalPitch == SelectBestMultipleDistanceGroup(groups).value.gimbalPitch
  {
    var ag := SelectBestMultipleDistanceGroup(groups).value;
    WaylineResampled(dist, points, groups);
    ResampleUnsetPitch(dist, InRange(points, ag.startIndex, ag.endIndex), ag.triggerParam.value,
                       ag.gimbalPitch, ag.gimbalYaw);
  }

  /** The same for yaw, decided independently of pitch. */
  lemma WaylineUnsetYaw(dist: Distance, points: seq<PathPoint>, groups: seq<ActionGroup>)
    requires SelectBestMultipleDistanceGroup(groups).Some?
    requires var ag := SelectBestMultipleDistanceGroup(groups).value;
             var seg := InRange(points, ag.startIndex, ag.endIndex);
             forall j :: 0 <= j < |seg| ==> seg[j].gimbalYaw == 0.0
    ensures var shots := WaylineShots(dist, points, groups);
            forall k :: 0 <= k < |shots| ==> shots[k].gimbalYaw == SelectBestMultipleDistanceGroup(groups).value.gimbalYaw
  {
    var ag := SelectBestMultipleDistanceGroup(groups).value;
    WaylineResampled(dist, points, groups);
    ResampleUnsetYaw(dist, InRange(points, ag.startIndex, ag.endIndex), ag.triggerParam.value,
                     ag.gimbalPitch, ag.gimbalYaw);
  }

  // ---------------------------------------------------------------------
  // Metadata CSV rows
  // ---------------------------------------------------------------------

  /** A CSV row with every present column already read as a number. */
  type CsvRow = map<string, real>

  /** `row.get(key, default)`. */
  function Get(row: CsvRow, key: string, default: real): real
  {
    if key in row then row[key] else default
  }

  /** The row-to-shot mapping of `_load_shots_from_csv`. */
  function RowToShot(row: CsvRow): (s: ShotPoint)
    ensures s.lat == Get(row, "lat", 0.0) && s.lon == Get(row, "lon", 0.0)
    ensures "rel_alt" in row ==> s.executeHeight == row["rel_alt"]
    ensures "rel_alt" !in row && "alt" in row ==> s.executeHeight == row["alt"]
    ensures "rel_alt" !in row && "alt" !in row && "height" in row ==> s.executeHeight == row["height"]
    ensures "rel_alt" !in row && "alt" !in row && "height" !in row ==> s.executeHeight == 0.0
    ensures s.gimbalPitch == Get(row, "gimbal_pitch", -90.0) && s.gimbalYaw == Get(row, "gimbal_yaw", 0.0)
    ensures "flight_yaw" in row ==> s.heading == row["flight_yaw"]
    ensures "flight_yaw" !in row && "heading" in row ==> s.heading == row["heading"]
    ensures "flight_yaw" !in row && "heading" !in row ==> s.heading == 0.0
  {
    ShotPoint(
      Get(row, "lon", 0.0),
      Get(row, "lat", 0.0),
      Get(row, "rel_alt", Get(row, "alt", Get(row, "height", 0.0))),
      Get(row, "flight_yaw", Get(row, "heading", 0.0)),
      Get(row, "gimbal_pitch", -90.0),
      Get(row, "gimbal_yaw", 0.0))
  }

  /** A shot written out with the columns the command line documents. */
  function ShotToRow(s: ShotPoint): CsvRow
  {
    map["lat" := s.lat, "lon" := s.lon, "rel_alt" := s.executeHeight,
        "gimbal_yaw" := s.gimbalYaw, "gimbal_pitch" := s.gimbalPitch, "flight_yaw" := s.heading]
  }

  /** Reading back a row with the documented columns gives the shot it records. */
  lemma RowRoundTrip(s: ShotPoint)
    ensures RowToShot(ShotToRow(s)) == s
  {
    var row := ShotToRow(s);
    assert row["lat"] == s.lat && row["lon"] == s.lon && row["rel_alt"] == s.executeHeight;
    assert row["gimbal_yaw"] == s.gimbalYaw && row["gimbal_pitch"] == s.gimbalPitch;
    assert row["flight_yaw"] == s.heading;
  }

  /** Columns outside the nine the mapping reads do not change the shot. */
  lemma RowIgnoresOtherColumns(row: CsvRow, key: string, v: real)
    requires key !in {"lat", "lon", "rel_alt", "alt", "height", "gimbal_pitch", "gimbal_yaw", "flight_yaw", "heading"}
    ensures RowToShot(row[key := v]) == RowToShot(row)
  {
  }

  /** One shot per row, in file order. */
  function RowsToShots(rows: seq<CsvRow>): (shots: seq<ShotPoint>)
    ensures |shots| == |rows|
  {
    seq(|rows|, i requires 0 <= i < |rows| => RowToShot(rows[i]))
  }

  /** The row loop of `_load_shots_from_csv`. */
  method LoadShotsFromCsv(rows: seq<CsvRow>) returns (shots: seq<ShotPoint>)
    ensures shots == RowsToShots(rows)
  {
    shots := [];
    for i := 0 to |rows|
      invariant |shots| == i
      invariant forall k :: 0 <= k < i ==> shots[k] == RowToShot(rows[k])
    {
      shots := shots + [RowToShot(rows[i])];
    }
  }

  // ---------------------------------------------------------------------
  // All routes
  // ---------------------------------------------------------------------

  /** The routes with at least one shot, each with its shots, in route order. */
  function RouteShots(dist: Distance, waylines: seq<ParsedWayline>): seq<(ParsedWayline, seq<ShotPoint>)>
  {
    if waylines == [] then []
    else
      var wl := waylines[|waylines| - 1];
      var shots := WaylineShots(dist, wl.points, wl.actionGroups);
      RouteShots(dist, waylines[..|waylines| - 1]) + (if shots != [] then [(wl, shots)] else [])
  }

  /**
   * `compute_shot_points_per_wayline`. `csv` is the metadata CSV's rows when
   * a CSV path is given and the file exists, and None otherwise.
   */
  function PerWayline(dist: Distance, parsed: ParsedWaylines, csv: Option<seq<CsvRow>>)
    : seq<(ParsedWayline, seq<ShotPoint>)>
  {
    if csv.Some? then
      if parsed.waylines != [] then [(parsed.waylines[0], RowsToShots(csv.value))] else []
    else RouteShots(dist, parsed.waylines)
  }

  /**
   * Routes keep their order: the result for two runs of routes is the
   * result for the first run followed by the result for the second.
   */
  lemma {:induction false} RouteShotsConcat(dist: Distance, a: seq<ParsedWayline>, b: seq<ParsedWayline>)
    ensures RouteShots(dist, a + b) == RouteShots(dist, a) + RouteShots(dist, b)
  {
    if b == [] {
      assert a + b == a;
    } else {
      var b' := b[..|b| - 1];
      assert (a + b)[..|a + b| - 1] == a + b';
      assert (a + b)[|a + b| - 1] == b[|b| - 1];
      RouteShotsConcat(dist, a, b');
    }
  }

  /**
   * Every listed route carries its own non-empty shots, and a route is
   * listed exactly when its shots are non-empty.
   */
  lemma {:induction false} RouteShotsMembers(dist: Distance, waylines: seq<ParsedWayline>)
    ensures forall e :: e in RouteShots(dist, waylines) ==>
              e.0 in waylines && e.1 != [] && e.1 == WaylineShots(dist, e.0.points, e.0.actionGroups)
    ensures forall wl :: wl in waylines && WaylineShots(dist, wl.points, wl.actionGroups) != [] ==>
              (wl, WaylineShots(dist, wl.points, wl.actionGroups)) in RouteShots(dist, waylines)
  {
    if waylines != [] {
      var init := waylines[..|waylines| - 1];
      assert waylines == init + [waylines[|waylines| - 1]];
      RouteShotsMembers(dist, init);
    }
  }

  /** The CSV override: the first route with the CSV's shots, the others dropped. */
  lemma PerWaylineCsv(dist: Distance, parsed: ParsedWaylines, rows: seq<CsvRow>)
    ensures var r := PerWayline(dist, parsed, Some(rows));
            && |r| == (if parsed.waylines == [] then 0 else 1)
            && (r != [] ==> r[0].0 == parsed.waylines[0] && |r[0].1| == |rows|
                            && forall k :: 0 <= k < |rows| ==> r[0].1[k] == RowToShot(rows[k]))
  {
  }

  /** One more route: its entry, if any, goes at the end. */
  lemma RouteShotsSnoc(dist: Distance, waylines: seq<ParsedWayline>, i: nat)
    requires i < |waylines|
    ensures var wl := waylines[i];
            var shots := WaylineShots(dist, wl.points, wl.actionGroups);
            RouteShots(dist, waylines[..i + 1])
              == RouteShots(dist, waylines[..i]) + (if shots != [] then [(wl, shots)] else [])
  {
    assert waylines[..i + 1][..i] == waylines[..i];
    assert waylines[..i + 1][i] == waylines[i];
  }

  /** The loop of `compute_shot_points_per_wayline`. */
  method ComputeShotPointsPerWayline(dist: Distance, parsed: ParsedWaylines, csv: Option<seq<CsvRow>>)
    returns (result: seq<(ParsedWayline, seq<ShotPoint>)>)
    ensures result == PerWayline(dist, parsed, csv)
  {
    if csv.Some? {
      var shots := LoadShotsFromCsv(csv.value);
      if parsed.waylines != [] {
        return [(parsed.waylines[0], shots)];
      }
      return [];
    }
    var waylines := parsed.waylines;
    result := [];
    for i := 0 to |waylines|
      invariant result == RouteShots(dist, waylines[..i])
    {
      var wl := waylines[i];
      var shots := ComputeShotsForWayline(dist, wl.points, wl.actionGroups);
      RouteShotsSnoc(dist, waylines, i);
      if shots != [] {
        result := result + [(wl, shots)];
      }
    }
    assert waylines[..|waylines|] == waylines;
  }

  /**
   * `compute_shot_points`: the CSV's shots, or the shots of the mission's
   * top-level points and groups, which the reader copies from the first
   * wayline that has points.
   */
  method ComputeShotPoints(dist: Distance, parsed: ParsedWaylines, csv: Option<seq<CsvRow>>)
    returns (shots: seq<ShotPoint>)
    ensures csv.Some? ==> shots == RowsToShots(csv.value)
    ensures csv.None? ==> shots == WaylineShots(dist, parsed.points, parsed.actionGroups)
  {
    if csv.Some? {
      shots := LoadShotsFromCsv(csv.value);
    } else {
      shots := ComputeShotsForWayline(dist, parsed.points, parsed.actionGroups);
    }
  }
}
