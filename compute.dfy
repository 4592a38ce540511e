/**
 * The shot-point engine of src/wpml/compute.py:10-93: linear interpolation
 * between two path points, and the resampler that walks the in-range points
 * of a route and takes a shot every `spacing` metres of arc length.
 *
 * All coordinates and angles are `real`; floating-point rounding is not
 * modelled. The haversine distance is a parameter of type `Distance`.
 */
module Compute {
  import opened Wrappers
  import opened Parse

  /** A fully resolved camera position and pose. */
  datatype ShotPoint = ShotPoint(
    lon: real,
    lat: real,
    executeHeight: real,
    heading: real,
    gimbalPitch: real,
    gimbalYaw: real)

  /**
   * Ground distance in metres between (lon1, lat1) and (lon2, lat2). The
   * source computes it with the haversine formula; the model only relies on
   * the distance never being negative.
   */
  type Distance = f: (real, real, real, real) -> real
    | forall lon1, lat1, lon2, lat2 :: f(lon1, lat1, lon2, lat2) >= 0.0
    witness (lon1: real, lat1: real, lon2: real, lat2: real) => 0.0

  /** Length of the path segment from p0 to p1. */
  function SegmentLength(dist: Distance, p0: PathPoint, p1: PathPoint): (len: real)
    ensures len >= 0.0
  {
    dist(p0.lon, p0.lat, p1.lon, p1.lat)
  }

  // ---------------------------------------------------------------------
  // Real-arithmetic facts the solver needs spelled out.
  // ---------------------------------------------------------------------

  lemma MulMonotone(a: real, b: real, s: real)
    requires s > 0.0 && a <= b
    ensures a * s <= b * s
  {
  }

  lemma MulStrict(a: real, b: real, s: real)
    requires s > 0.0 && a < b
    ensures a * s < b * s
  {
  }

  lemma DistributeMul(a: int, b: int, s: real)
    ensures (a + b) as real * s == a as real * s + b as real * s
  {
  }

  /** An n with (n - 1) s <= x < n s is floor(x / s) + 1. */
  lemma FloorFromBounds(x: real, s: real, n: int)
    requires s > 0.0 && (n - 1) as real * s <= x < n as real * s
    ensures (x / s).Floor == n - 1
  {
    var q := x / s;
    assert q * s == x;
    if q < (n - 1) as real {
      MulStrict(q, (n - 1) as real, s);
    }
    if q >= n as real {
      MulMonotone(n as real, q, s);
    }
  }

  // ---------------------------------------------------------------------
  // Interpolation (compute.py `_interpolate`).
  // ---------------------------------------------------------------------

  /** The pose a path point carries, read as a shot. */
  function PointPose(p: PathPoint): ShotPoint
  {
    ShotPoint(p.lon, p.lat, p.executeHeight, p.waypointHeadingAngle, p.gimbalPitch, p.gimbalYaw)
  }

  function Lerp(a: real, b: real, t: real): real
  {
    a + t * (b - a)
  }

  predicate Between(x: real, a: real, b: real)
  {
    (a <= x <= b) || (b <= x <= a)
  }

  lemma LerpBetween(a: real, b: real, t: real)
    requires 0.0 <= t <= 1.0
    ensures Between(Lerp(a, b, t), a, b)
  {
    if a <= b {
      LerpRising(a, b, t);
    } else {
      LerpFalling(a, b, t);
    }
  }

  lemma LerpRising(a: real, b: real, t: real)
    requires 0.0 <= t <= 1.0 && a <= b
    ensures a <= Lerp(a, b, t) <= b
  {
    var d := b - a;
    ScaledWithin(t, d);
    var u := t * d;
    assert 0.0 <= u <= d;
    assert Lerp(a, b, t) == a + u;
  }

  lemma LerpFalling(a: real, b: real, t: real)
    requires 0.0 <= t <= 1.0 && b < a
    ensures b <= Lerp(a, b, t) <= a
  {
    var d := a - b;
    ScaledWithin(t, d);
    var u := t * d;
    assert 0.0 <= u <= d;
    assert Lerp(a, b, t) == a - u;
  }

  lemma ScaledWithin(t: real, d: real)
    requires 0.0 <= t <= 1.0 && d >= 0.0
    ensures 0.0 <= t * d <= d
  {
    if d > 0.0 {
      MulMonotone(0.0, t, d);
      MulMonotone(t, 1.0, d);
    }
  }

  /** Every field of `r` lies between the corresponding fields of p0 and p1. */
  predicate PoseBetween(r: ShotPoint, p0: PathPoint, p1: PathPoint)
  {
    && Between(r.lon, p0.lon, p1.lon)
    && Between(r.lat, p0.lat, p1.lat)
    && Between(r.executeHeight, p0.executeHeight, p1.executeHeight)
    && Between(r.heading, p0.waypointHeadingAngle, p1.waypointHeadingAngle)
    && Between(r.gimbalPitch, p0.gimbalPitch, p1.gimbalPitch)
    && Between(r.gimbalYaw, p0.gimbalYaw, p1.gimbalYaw)
  }

  /** `_interpolate`: the field-by-field linear blend of two path points at parameter t. */
  function Interpolate(p0: PathPoint, p1: PathPoint, t: real): ShotPoint
  {
    ShotPoint(
      Lerp(p0.lon, p1.lon, t),
      Lerp(p0.lat, p1.lat, t),
      Lerp(p0.executeHeight, p1.executeHeight, t),
      Lerp(p0.waypointHeadingAngle, p1.waypointHeadingAngle, t),
      Lerp(p0.gimbalPitch, p1.gimbalPitch, t),
      Lerp(p0.gimbalYaw, p1.gimbalYaw, t))
  }

  /** Interpolation gives exactly p0 at t = 0 and exactly p1 at t = 1. */
  lemma InterpolateEndpoints(p0: PathPoint, p1: PathPoint)
    ensures Interpolate(p0, p1, 0.0) == PointPose(p0)
    ensures Interpolate(p0, p1, 1.0) == PointPose(p1)
  {
  }

  /** For t in [0, 1] every interpolated field lies between the corresponding fields of p0 and p1. */
  lemma InterpolateBetween(p0: PathPoint, p1: PathPoint, t: real)
    requires 0.0 <= t <= 1.0
    ensures PoseBetween(Interpolate(p0, p1, t), p0, p1)
  {
    LerpBetween(p0.lon, p1.lon, t);
    LerpBetween(p0.lat, p1.lat, t);
    LerpBetween(p0.executeHeight, p1.executeHeight, t);
    LerpBetween(p0.waypointHeadingAngle, p1.waypointHeadingAngle, t);
    LerpBetween(p0.gimbalPitch, p1.gimbalPitch, t);
    LerpBetween(p0.gimbalYaw, p1.gimbalYaw, t);
  }


  /** `max(0, min(1, t))`. */
  function Clamp(t: real): (r: real)
    ensures 0.0 <= r <= 1.0
    ensures 0.0 <= t <= 1.0 ==> r == t
    ensures t < 0.0 ==> r == 0.0
    ensures t > 1.0 ==> r == 1.0
  {
    if t > 1.0 then 1.0 else if t < 0.0 then 0.0 else t
  }

  /**
   * The interpolation parameter of the shot at arc length `threshold` in a
   * segment of length `segLen` that starts at arc length `accumulated`.
   */
  function SegmentParam(segLen: real, accumulated: real, threshold: real): real
  {
    Clamp(if segLen > 0.0 then (threshold - accumulated) / segLen else 1.0)
  }

  /**
   * The parameter lies in [0, 1]; a zero-length segment gives t = 1; and when
   * the threshold falls inside the segment, t * segLen is exactly the
   * distance travelled into it (so t = 0 at the segment's start).
   */
  lemma SegmentParamFacts(segLen: real, accumulated: real, threshold: real)
    requires segLen >= 0.0
    ensures var t := SegmentParam(segLen, accumulated, threshold);
            && 0.0 <= t <= 1.0
            && (segLen == 0.0 ==> t == 1.0)
            && (segLen > 0.0 && threshold == accumulated ==> t == 0.0)
            && (segLen > 0.0 && accumulated <= threshold <= accumulated + segLen ==>
                  t * segLen == threshold - accumulated)
  {
    if segLen > 0.0 && accumulated <= threshold <= accumulated + segLen {
      FractionBounds(threshold - accumulated, segLen);
    }
  }

  lemma FractionBounds(d: real, len: real)
    requires len > 0.0 && 0.0 <= d <= len
    ensures 0.0 <= d / len <= 1.0 && (d / len) * len == d
  {
    var q := d / len;
    assert q * len == d;
    if q < 0.0 {
      MulStrict(q, 0.0, len);
    }
    if q > 1.0 {
      MulStrict(1.0, q, len);
    }
  }

  /**
   * The gimbal rule of compute.py: an angle equal to zero at both ends of a
   * segment counts as unset and is replaced by the group's default.
   */
  function ResolveAngle(end0: real, end1: real, interpolated: real, default: real): real
  {
    if end0 != 0.0 || end1 != 0.0 then interpolated else default
  }

  /** The shot placed at arc length `threshold` on the segment p0 -> p1. */
  function SegmentShot(p0: PathPoint, p1: PathPoint, segLen: real, accumulated: real,
                       threshold: real, defaultPitch: real, defaultYaw: real): ShotPoint
  {
    var raw := Interpolate(p0, p1, SegmentParam(segLen, accumulated, threshold));
    raw.(gimbalPitch := ResolveAngle(p0.gimbalPitch, p1.gimbalPitch, raw.gimbalPitch, defaultPitch),
         gimbalYaw := ResolveAngle(p0.gimbalYaw, p1.gimbalYaw, raw.gimbalYaw, defaultYaw))
  }

  /**
   * Gimbal defaults: a shot's pitch is the default when both ends of its
   * segment have zero pitch and the interpolated pitch otherwise; yaw is
   * decided the same way, independently. Every other field is interpolated.
   */
  lemma SegmentShotGimbal(p0: PathPoint, p1: PathPoint, segLen: real, accumulated: real,
                          threshold: real, defaultPitch: real, defaultYaw: real)
    ensures var r := SegmentShot(p0, p1, segLen, accumulated, threshold, defaultPitch, defaultYaw);
            var raw := Interpolate(p0, p1, SegmentParam(segLen, accumulated, threshold));
            && r == raw.(gimbalPitch := r.gimbalPitch, gimbalYaw := r.gimbalYaw)
            && (p0.gimbalPitch == 0.0 && p1.gimbalPitch == 0.0 ==> r.gimbalPitch == defaultPitch)
            && (p0.gimbalPitch != 0.0 || p1.gimbalPitch != 0.0 ==> r.gimbalPitch == raw.gimbalPitch)
            && (p0.gimbalYaw == 0.0 && p1.gimbalYaw == 0.0 ==> r.gimbalYaw == defaultYaw)
            && (p0.gimbalYaw != 0.0 || p1.gimbalYaw != 0.0 ==> r.gimbalYaw == raw.gimbalYaw)
  {
  }

  // ---------------------------------------------------------------------
  // The in-range sub-path (first line of `_compute_shots_from_multiple_distance`).
  // ---------------------------------------------------------------------

  /** The points whose index lies in [startIdx, endIdx], in their given order. */
  function InRange(points: seq<PathPoint>, startIdx: int, endIdx: int): (r: seq<PathPoint>)
    ensures |r| <= |points|
  {
    if points == [] then []
    else
      (if startIdx <= points[0].index <= endIdx then [points[0]] else [])
      + InRange(points[1..], startIdx, endIdx)
  }

  /** A point is kept exactly when it is one of the input points and its index is in range. */
  lemma {:induction false} InRangeMembers(points: seq<PathPoint>, startIdx: int, endIdx: int)
    ensures forall p :: p in InRange(points, startIdx, endIdx) <==> p in points && startIdx <= p.index <= endIdx
  {
    if points != [] {
      InRangeMembers(points[1..], startIdx, endIdx);
      assert points == [points[0]] + points[1..];
    }
  }

  /** Filtering distributes over concatenation, so the input order is kept. */
  lemma {:induction false} InRangeConcat(a: seq<PathPoint>, b: seq<PathPoint>, startIdx: int, endIdx: int)
    ensures InRange(a + b, startIdx, endIdx) == InRange(a, startIdx, endIdx) + InRange(b, startIdx, endIdx)
  {
    if a == [] {
      assert a + b == b;
    } else {
      assert (a + b)[1..] == a[1..] + b;
      InRangeConcat(a[1..], b, startIdx, endIdx);
    }
  }

  /** Points that all lie above the range contribute nothing. */
  lemma InRangeAllAbove(points: seq<PathPoint>, startIdx: int, endIdx: int)
    requires forall p :: p in points ==> p.index > endIdx
    ensures InRange(points, startIdx, endIdx) == []
  {
  }

  lemma SortedTail(points: seq<PathPoint>)
    requires points != [] && SortedByIndex(points)
    ensures SortedByIndex(points[1..]) && (points[1..] != [] ==> points[0].index <= points[1..][0].index)
  {
  }

  /** The number of leading points whose index is below `bound`. */
  function LeadingBelow(points: seq<PathPoint>, bound: int): (n: nat)
    ensures n <= |points|
  {
    if points == [] || points[0].index >= bound then 0 else 1 + LeadingBelow(points[1..], bound)
  }

  lemma ConsPrefix(s: seq<PathPoint>, m: nat)
    requires m < |s|
    ensures [s[0]] + s[1..][..m] == s[..m + 1]
  {
    forall i | 0 <= i < m + 1
      ensures ([s[0]] + s[1..][..m])[i] == s[..m + 1][i]
    {
    }
  }

  lemma SuffixOfTail(s: seq<PathPoint>, lo: nat)
    requires lo < |s|
    ensures s[1..][lo..] == s[lo + 1..]
  {
    forall i | 0 <= i < |s| - 1 - lo
      ensures s[1..][lo..][i] == s[lo + 1..][i]
    {
    }
  }

  /**
   * On sorted points that start at or above startIdx, the in-range points
   * are the leading points whose index is at most endIdx.
   */
  lemma {:induction false} InRangeOfSortedIsPrefix(points: seq<PathPoint>, startIdx: int, endIdx: int)
    requires SortedByIndex(points)
    requires points != [] ==> points[0].index >= startIdx
    ensures InRange(points, startIdx, endIdx) == points[..LeadingBelow(points, endIdx + 1)]
  {
    if points == [] {
    } else if points[0].index > endIdx {
      InRangeAllAbove(points, startIdx, endIdx);
    } else {
      var m := LeadingBelow(points[1..], endIdx + 1);
      assert LeadingBelow(points, endIdx + 1) == m + 1;
      assert InRange(points, startIdx, endIdx) == [points[0]] + InRange(points[1..], startIdx, endIdx);
      SortedTail(points);
      InRangeOfSortedIsPrefix(points[1..], startIdx, endIdx);
      ConsPrefix(points, m);
    }
  }

  /** The points before startIdx never pass the filter. */
  lemma {:induction false} InRangeSkipsBelow(points: seq<PathPoint>, startIdx: int, endIdx: int)
    ensures InRange(points, startIdx, endIdx) == InRange(points[LeadingBelow(points, startIdx)..], startIdx, endIdx)
  {
    if points != [] && points[0].index < startIdx {
      var lo' := LeadingBelow(points[1..], startIdx);
      assert LeadingBelow(points, startIdx) == lo' + 1;
      assert InRange(points, startIdx, endIdx) == InRange(points[1..], startIdx, endIdx);
      InRangeSkipsBelow(points[1..], startIdx, endIdx);
      SuffixOfTail(points, lo');
    } else {
      assert points[LeadingBelow(points, startIdx)..] == points;
    }
  }

  /** After the leading points below a bound comes one at or above it. */
  lemma {:induction false} LeadingBelowStops(points: seq<PathPoint>, bound: int)
    ensures LeadingBelow(points, bound) < |points| ==> points[LeadingBelow(points, bound)].index >= bound
  {
    if points != [] && points[0].index < bound {
      LeadingBelowStops(points[1..], bound);
    }
  }

  lemma SortedSuffix(points: seq<PathPoint>, lo: nat)
    requires lo <= |points| && SortedByIndex(points)
    ensures SortedByIndex(points[lo..])
  {
    var rest := points[lo..];
    forall i, j | 0 <= i < j < |rest|
      ensures rest[i].index <= rest[j].index
    {
      assert rest[i] == points[lo + i] && rest[j] == points[lo + j];
    }
  }

  /**
   * On index-sorted points the in-range points are one contiguous run:
   * drop the leading points below startIdx, then keep the leading points
   * of the rest up to endIdx.
   */
  lemma InRangeOfSortedIsSlice(points: seq<PathPoint>, startIdx: int, endIdx: int)
    requires SortedByIndex(points)
    ensures var rest := points[LeadingBelow(points, startIdx)..];
            InRange(points, startIdx, endIdx) == rest[..LeadingBelow(rest, endIdx + 1)]
  {
    var lo := LeadingBelow(points, startIdx);
    var rest := points[lo..];
    InRangeSkipsBelow(points, startIdx, endIdx);
    LeadingBelowStops(points, startIdx);
    assert rest != [] ==> rest[0] == points[lo];
    SortedSuffix(points, lo);
    InRangeOfSortedIsPrefix(rest, startIdx, endIdx);
  }

  // ---------------------------------------------------------------------
  // Distance resampling (`_compute_shots_from_multiple_distance`).
  //
  // The specification follows the loop: `Walk(n)` is the state after the
  // first n segments. Inside a segment the `while` fires once for every
  // threshold next, next + s, next + 2s, ... that the segment's end reaches,
  // which `ThresholdCount` gives in closed form.
  // ---------------------------------------------------------------------

  /** The scalar part of the loop state: shots emitted so far, arc length walked, next threshold. */
  datatype Clock = Clock(count: nat, accumulated: real, nextShotAt: real)

  /** `x` after `k` executions of `x += spacing`. */
  function AddRepeatedly(x: real, spacing: real, k: nat): real
  {
    if k == 0 then x else AddRepeatedly(x, spacing, k - 1) + spacing
  }
  lemma {:induction false} AddRepeatedlyShift(x: real, spacing: real, k: nat)
    ensures AddRepeatedly(x + spacing, spacing, k) == AddRepeatedly(x, spacing, k + 1)
  {
    if k > 0 {
      AddRepeatedlyShift(x, spacing, k - 1);
    }
  }

  lemma {:induction false} AddRepeatedlyAdd(x: real, spacing: real, a: nat, b: nat)
    ensures AddRepeatedly(AddRepeatedly(x, spacing, a), spacing, b) == AddRepeatedly(x, spacing, a + b)
  {
    if b > 0 {
      AddRepeatedlyAdd(x, spacing, a, b - 1);
    }
  }

  lemma {:induction false} AddRepeatedlyMonotone(x: real, spacing: real, a: nat, b: nat)
    requires spacing > 0.0 && a < b
    ensures AddRepeatedly(x, spacing, a) < AddRepeatedly(x, spacing, b)
  {
    if a < b - 1 {
      AddRepeatedlyMonotone(x, spacing, a, b - 1);
    }
  }

  lemma AddRepeatedlyNonDecreasing(x: real, spacing: real, a: nat, b: nat)
    requires spacing > 0.0 && a <= b
    ensures AddRepeatedly(x, spacing, a) <= AddRepeatedly(x, spacing, b)
  {
    if a < b {
      AddRepeatedlyMonotone(x, spacing, a, b);
    }
  }

  /** Repeated addition is multiplication. */
  lemma {:induction false} AddRepeatedlyIsProduct(x: real, spacing: real, k: nat)
    ensures AddRepeatedly(x, spacing, k) == x + k as real * spacing
  {
    if k > 0 {
      AddRepeatedlyIsProduct(x, spacing, k - 1);
      DistributeMul(k - 1, 1, spacing);
    }
  }

  lemma FloorShift(reach: real, next: real, spacing: real)
    requires spacing > 0.0 && reach >= next + spacing
    ensures ((reach - (next + spacing)) / spacing).Floor == ((reach - next) / spacing).Floor - 1
  {
    var q := (reach - next) / spacing;
    var q' := (reach - (next + spacing)) / spacing;
    assert q * spacing == reach - next;
    assert q' * spacing == reach - next - spacing;
    assert (q - 1.0) * spacing == q * spacing - spacing;
    if q' < q - 1.0 {
      MulStrict(q', q - 1.0, spacing);
    } else if q - 1.0 < q' {
      MulStrict(q - 1.0, q', spacing);
    }
  }

  lemma FloorNonNegative(reach: real, next: real, spacing: real)
    requires spacing > 0.0 && reach >= next
    ensures ((reach - next) / spacing).Floor >= 0
  {
    var q := (reach - next) / spacing;
    assert q * spacing == reach - next;
    if q < 0.0 {
      MulStrict(q, 0.0, spacing);
    }
  }

  /**
   * How many of the thresholds next, next + spacing, ... are at most
   * `reach`: the number of times the inner `while` fires.
   */
  function ThresholdCount(reach: real, next: real, spacing: real): (c: nat)
    requires spacing > 0.0
    ensures c == 0 <==> reach < next
    ensures c > 0 ==> AddRepeatedly(next, spacing, c - 1) <= reach < AddRepeatedly(next, spacing, c)
    decreases if reach >= next then ((reach - next) / spacing).Floor + 1 else 0
  {
    if reach < next then 0
    else if reach < next + spacing then 1
    else
      FloorNonNegative(reach, next, spacing);
      FloorShift(reach, next, spacing);
      var c' := ThresholdCount(reach, next + spacing, spacing);
      AddRepeatedlyShift(next, spacing, c' - 1);
      AddRepeatedlyShift(next, spacing, c');
      1 + c'
  }

  /** The `count` shots a segment emits, at thresholds first, first + spacing, ... */
  function Emitted(p0: PathPoint, p1: PathPoint, segLen: real, accumulated: real, first: real,
                   spacing: real, count: nat, defaultPitch: real, defaultYaw: real): seq<ShotPoint>
  {
    seq(count, k requires 0 <= k =>
      SegmentShot(p0, p1, segLen, accumulated, AddRepeatedly(first, spacing, k), defaultPitch, defaultYaw))
  }

  /** How often the inner `while` fires on a segment of length segLen entered at `accumulated`. */
  function Fires(accumulated: real, nextShotAt: real, segLen: real, spacing: real): nat
    requires segLen >= 0.0 && spacing > 0.0
  {
    ThresholdCount(accumulated + segLen, nextShotAt, spacing)
  }

  /** One `for` pass over a segment of length segLen, on the scalar state. */
  function Step(k: Clock, segLen: real, spacing: real): Clock
    requires segLen >= 0.0 && spacing > 0.0
  {
    var c := Fires(k.accumulated, k.nextShotAt, segLen, spacing);
    Clock(k.count + c, k.accumulated + segLen, AddRepeatedly(k.nextShotAt, spacing, c))
  }

  /** The scalar loop state after the first n segments of `seg`. */
  function Tick(dist: Distance, seg: seq<PathPoint>, n: nat, spacing: real): Clock
    requires n < |seg| && spacing > 0.0
  {
    if n == 0 then Clock(0, 0.0, 0.0)
    else
      Step(Tick(dist, seg, n - 1, spacing), SegmentLength(dist, seg[n - 1], seg[n]), spacing)
  }

  /** The shots emitted over the first n segments of `seg`. */
  function Walk(dist: Distance, seg: seq<PathPoint>, n: nat, spacing: real,
                defaultPitch: real, defaultYaw: real): seq<ShotPoint>
    requires n < |seg| && spacing > 0.0
  {
    if n == 0 then []
    else
      var k := Tick(dist, seg, n - 1, spacing);
      var len := SegmentLength(dist, seg[n - 1], seg[n]);
      Walk(dist, seg, n - 1, spacing, defaultPitch, defaultYaw)
        + Emitted(seg[n - 1], seg[n], len, k.accumulated, k.nextShotAt, spacing, Fires(k.accumulated, k.nextShotAt, len, spacing),
                  defaultPitch, defaultYaw)
  }

  /** Arc length of `seg` from its first point to point n. */
  function PathLength(dist: Distance, seg: seq<PathPoint>, n: nat): (len: real)
    requires n < |seg|
    ensures len >= 0.0
  {
    if n == 0 then 0.0 else PathLength(dist, seg, n - 1) + SegmentLength(dist, seg[n - 1], seg[n])
  }

  /**
   * The resampler on the in-range points `seg`: no shots for fewer than two
   * points, otherwise the shots of a walk over every segment.
   */
  function Resample(dist: Distance, seg: seq<PathPoint>, spacing: real, defaultPitch: real,
                    defaultYaw: real): (shots: seq<ShotPoint>)
    requires spacing > 0.0
    ensures |seg| < 2 ==> shots == []
  {
    if |seg| < 2 then [] else Walk(dist, seg, |seg| - 1, spacing, defaultPitch, defaultYaw)
  }

  /** The threshold of the shot at position k of the output: k additions of the spacing. */
  function Threshold(spacing: real, k: nat): real
  {
    AddRepeatedly(0.0, spacing, k)
  }

  /**
   * The threshold arithmetic of one `for` pass: after m shots the next
   * threshold is shot m's; the pass fires c times with the segment end at
   * `reach`. Then the new threshold is shot (m + c)'s, the last one used is
   * reached and the new one is not.
   */
  lemma StepThresholds(m: nat, c: nat, spacing: real, acc: real, reach: real, next: real)
    requires spacing > 0.0 && acc <= reach
    requires next == Threshold(spacing, m)
    requires m == 0 ==> acc == 0.0
    requires m > 0 ==> Threshold(spacing, m - 1) <= acc < next
    requires c == 0 <==> reach < next
    requires c > 0 ==> AddRepeatedly(next, spacing, c - 1) <= reach < AddRepeatedly(next, spacing, c)
    ensures AddRepeatedly(next, spacing, c) == Threshold(spacing, m + c)
    ensures m + c > 0 && Threshold(spacing, m + c - 1) <= reach < Threshold(spacing, m + c)
  {
    AddRepeatedlyAdd(0.0, spacing, m, c);
    if c > 0 {
      AddRepeatedlyAdd(0.0, spacing, m, c - 1);
    }
  }

  /**
   * One `for` pass keeps the threshold invariant: the next threshold is that
   * of shot `count`, and once a shot is taken the last threshold used is
   * within the walked length and the next is beyond it.
   */
  lemma StepKeepsInvariant(k: Clock, segLen: real, spacing: real)
    requires segLen >= 0.0 && spacing > 0.0
    requires k.nextShotAt == Threshold(spacing, k.count)
    requires k.count == 0 ==> k.accumulated == 0.0
    requires k.count > 0 ==> Threshold(spacing, k.count - 1) <= k.accumulated < k.nextShotAt
    ensures var k' := Step(k, segLen, spacing);
            && k'.accumulated == k.accumulated + segLen
            && k'.nextShotAt == Threshold(spacing, k'.count)
            && k'.count > 0
            && Threshold(spacing, k'.count - 1) <= k'.accumulated < k'.nextShotAt
  {
    var c := Fires(k.accumulated, k.nextShotAt, segLen, spacing);
    assert Step(k, segLen, spacing) == Clock(k.count + c, k.accumulated + segLen, AddRepeatedly(k.nextShotAt, spacing, c));
    StepThresholds(k.count, c, spacing, k.accumulated, k.accumulated + segLen, k.nextShotAt);
  }

  /**
   * The loop invariant: the walked length is the path length so far, the
   * next threshold is that of shot `count`, and after the first segment the
   * last threshold used is within the walked length and the next is beyond it.
   */
  lemma {:induction false} TickInvariant(dist: Distance, seg: seq<PathPoint>, n: nat, spacing: real)
    requires n < |seg| && spacing > 0.0
    ensures var k := Tick(dist, seg, n, spacing);
            && k.accumulated == PathLength(dist, seg, n)
            && k.nextShotAt == Threshold(spacing, k.count)
            && (n == 0 ==> k.count == 0)
            && (n > 0 ==> k.count > 0 && Threshold(spacing, k.count - 1) <= k.accumulated < k.nextShotAt)
  {
    if n > 0 {
      var k := Tick(dist, seg, n - 1, spacing);
      var len := SegmentLength(dist, seg[n - 1], seg[n]);
      assert Tick(dist, seg, n, spacing) == Step(k, len, spacing);
      assert PathLength(dist, seg, n) == PathLength(dist, seg, n - 1) + len;
      TickInvariant(dist, seg, n - 1, spacing);
      StepKeepsInvariant(k, len, spacing);
    }
  }

  /** The walk emits `count` shots. */
  lemma {:induction false} WalkLength(dist: Distance, seg: seq<PathPoint>, n: nat, spacing: real,
                                      defaultPitch: real, defaultYaw: real)
    requires n < |seg| && spacing > 0.0
    ensures |Walk(dist, seg, n, spacing, defaultPitch, defaultYaw)| == Tick(dist, seg, n, spacing).count
  {
    if n > 0 {
      WalkLength(dist, seg, n - 1, spacing, defaultPitch, defaultYaw);
    }
  }

  /** Arc length is non-decreasing along the path. */
  lemma {:induction false} PathLengthMonotone(dist: Distance, seg: seq<PathPoint>, a: nat, b: nat)
    requires a <= b < |seg|
    ensures PathLength(dist, seg, a) <= PathLength(dist, seg, b)
    decreases b
  {
    if a < b {
      PathLengthMonotone(dist, seg, a, b - 1);
    }
  }

  /** The shot count is determined by where the walked length falls among the thresholds. */
  lemma ThresholdFloor(total: real, spacing: real, n: nat)
    requires spacing > 0.0 && n > 0
    requires Threshold(spacing, n - 1) <= total < Threshold(spacing, n)
    ensures (total / spacing).Floor + 1 == n
  {
    AddRepeatedlyIsProduct(0.0, spacing, n - 1);
    AddRepeatedlyIsProduct(0.0, spacing, n);
    FloorFromBounds(total, spacing, n);
  }

  /** The walked length of a whole segment list lies between the last threshold used and the next. */
  lemma WalkBracket(dist: Distance, seg: seq<PathPoint>, spacing: real, defaultPitch: real, defaultYaw: real)
    requires |seg| >= 2 && spacing > 0.0
    ensures var n := |Walk(dist, seg, |seg| - 1, spacing, defaultPitch, defaultYaw)|;
            n > 0 && Threshold(spacing, n - 1) <= PathLength(dist, seg, |seg| - 1) < Threshold(spacing, n)
  {
    TickInvariant(dist, seg, |seg| - 1, spacing);
    WalkLength(dist, seg, |seg| - 1, spacing, defaultPitch, defaultYaw);
  }

  /**
   * Count: with at least two points the resampler emits floor(L / spacing) + 1
   * shots, L the arc length of the points.
   */
  lemma ResampleCount(dist: Distance, seg: seq<PathPoint>, spacing: real, defaultPitch: real, defaultYaw: real)
    requires spacing > 0.0
    ensures |seg| >= 2 ==>
              |Resample(dist, seg, spacing, defaultPitch, defaultYaw)|
                == (PathLength(dist, seg, |seg| - 1) / spacing).Floor + 1
  {
    if |seg| >= 2 {
      var n := |Walk(dist, seg, |seg| - 1, spacing, defaultPitch, defaultYaw)|;
      WalkBracket(dist, seg, spacing, defaultPitch, defaultYaw);
      ThresholdFloor(PathLength(dist, seg, |seg| - 1), spacing, n);
    }
  }

  // ---------------------------------------------------------------------
  // An independent description of the resampler's output: the shot taken
  // at arc length x is placed on the first segment whose end reaches x.
  // ---------------------------------------------------------------------

  /**
   * The segment that holds arc length x, searching from segment i on: the
   * first whose end reaches x. The last segment takes every x beyond the
   * path (the walk never asks for one).
   */
  function ArcSegment(dist: Distance, seg: seq<PathPoint>, i: nat, x: real): (j: nat)
    requires i < |seg| - 1
    ensures i <= j < |seg| - 1
    ensures j < |seg| - 2 ==> x <= PathLength(dist, seg, j + 1)
    ensures forall m :: i < m <= j ==> PathLength(dist, seg, m) < x
    decreases |seg| - i
  {
    if x <= PathLength(dist, seg, i + 1) || i == |seg| - 2 then i else ArcSegment(dist, seg, i + 1, x)
  }

  /** The shot at arc length x along `seg`: placed on the segment that holds x. */
  function ArcShot(dist: Distance, seg: seq<PathPoint>, x: real, defaultPitch: real, defaultYaw: real): ShotPoint
    requires |seg| >= 2
  {
    var j := ArcSegment(dist, seg, 0, x);
    SegmentShot(seg[j], seg[j + 1], SegmentLength(dist, seg[j], seg[j + 1]), PathLength(dist, seg, j),
                x, defaultPitch, defaultYaw)
  }

  /** If x lies in segment i (past its start, unless i is j), the search from j lands on i. */
  lemma {:induction false} ArcSegmentFinds(dist: Distance, seg: seq<PathPoint>, j: nat, i: nat, x: real)
    requires j <= i < |seg| - 1
    requires j < i ==> PathLength(dist, seg, i) < x
    requires x <= PathLength(dist, seg, i + 1)
    ensures ArcSegment(dist, seg, j, x) == i
    decreases i - j
  {
    if j < i {
      PathLengthMonotone(dist, seg, j + 1, i);
      ArcSegmentFinds(dist, seg, j + 1, i, x);
    }
  }

  /**
   * The j-th shot emitted on segment n - 1, entered in state k, is the shot
   * at its own threshold, for any count c whose last threshold the
   * segment's end reaches.
   */
  lemma EmittedAtArcLength(dist: Distance, seg: seq<PathPoint>, n: nat, k: Clock, spacing: real,
                           defaultPitch: real, defaultYaw: real, c: nat, j: nat)
    requires 0 < n < |seg| && spacing > 0.0
    requires k.accumulated == PathLength(dist, seg, n - 1)
    requires k.nextShotAt == Threshold(spacing, k.count)
    requires n > 1 ==> k.accumulated < k.nextShotAt
    requires j < c && AddRepeatedly(k.nextShotAt, spacing, c - 1) <= PathLength(dist, seg, n)
    ensures var len := SegmentLength(dist, seg[n - 1], seg[n]);
            && Threshold(spacing, k.count + j) <= PathLength(dist, seg, n)
            && Emitted(seg[n - 1], seg[n], len, k.accumulated, k.nextShotAt, spacing, c, defaultPitch, defaultYaw)[j]
               == ArcShot(dist, seg, Threshold(spacing, k.count + j), defaultPitch, defaultYaw)
  {
    var x := AddRepeatedly(k.nextShotAt, spacing, j);
    AddRepeatedlyAdd(0.0, spacing, k.count, j);
    assert Threshold(spacing, k.count + j) == x;
    AddRepeatedlyNonDecreasing(k.nextShotAt, spacing, 0, j);
    AddRepeatedlyNonDecreasing(k.nextShotAt, spacing, j, c - 1);
    ArcSegmentFinds(dist, seg, 0, n - 1, x);
  }

  /** Shots at their thresholds, none overshooting arc length `reach`. */
  predicate AtArcLengths(dist: Distance, seg: seq<PathPoint>, shots: seq<ShotPoint>, reach: real,
                         spacing: real, defaultPitch: real, defaultYaw: real)
    requires |seg| >= 2
  {
    forall k :: 0 <= k < |shots| ==>
      && Threshold(spacing, k) <= reach
      && shots[k] == ArcShot(dist, seg, Threshold(spacing, k), defaultPitch, defaultYaw)
  }

  /** `AtArcLengths` is kept by appending shots that are at their thresholds. */
  lemma AtArcLengthsAppend(dist: Distance, seg: seq<PathPoint>, a: seq<ShotPoint>, e: seq<ShotPoint>,
                           reach: real, reach': real, spacing: real, defaultPitch: real, defaultYaw: real)
    requires |seg| >= 2 && reach <= reach'
    requires AtArcLengths(dist, seg, a, reach, spacing, defaultPitch, defaultYaw)
    requires forall k :: |a| <= k < |a| + |e| ==>
               && Threshold(spacing, k) <= reach'
               && e[k - |a|] == ArcShot(dist, seg, Threshold(spacing, k), defaultPitch, defaultYaw)
    ensures AtArcLengths(dist, seg, a + e, reach', spacing, defaultPitch, defaultYaw)
  {
    forall k | 0 <= k < |a + e|
      ensures Threshold(spacing, k) <= reach'
      ensures (a + e)[k] == ArcShot(dist, seg, Threshold(spacing, k), defaultPitch, defaultYaw)
    {
      if k >= |a| {
        assert (a + e)[k] == e[k - |a|];
      }
    }
  }

  /**
   * Appending the shots of segment n - 1 to `a`, which holds the k.count
   * shots before it, keeps `AtArcLengths`, with the reach extended to the
   * segment's end.
   */
  lemma EmittedAtArcLengths(dist: Distance, seg: seq<PathPoint>, n: nat, k: Clock, a: seq<ShotPoint>,
                            spacing: real, defaultPitch: real, defaultYaw: real, c: nat)
    requires 0 < n < |seg| && spacing > 0.0
    requires k.accumulated == PathLength(dist, seg, n - 1)
    requires k.nextShotAt == Threshold(spacing, k.count) && |a| == k.count
    requires n > 1 ==> k.accumulated < k.nextShotAt
    requires c > 0 ==> AddRepeatedly(k.nextShotAt, spacing, c - 1) <= PathLength(dist, seg, n)
    requires AtArcLengths(dist, seg, a, k.accumulated, spacing, defaultPitch, defaultYaw)
    ensures var len := SegmentLength(dist, seg[n - 1], seg[n]);
            AtArcLengths(dist, seg,
                         a + Emitted(seg[n - 1], seg[n], len, k.accumulated, k.nextShotAt, spacing, c,
                                     defaultPitch, defaultYaw),
                         PathLength(dist, seg, n), spacing, defaultPitch, defaultYaw)
  {
    var len := SegmentLength(dist, seg[n - 1], seg[n]);
    var e := Emitted(seg[n - 1], seg[n], len, k.accumulated, k.nextShotAt, spacing, c, defaultPitch, defaultYaw);
    forall i | |a| <= i < |a| + |e|
      ensures Threshold(spacing, i) <= PathLength(dist, seg, n)
      ensures e[i - |a|] == ArcShot(dist, seg, Threshold(spacing, i), defaultPitch, defaultYaw)
    {
      EmittedAtArcLength(dist, seg, n, k, spacing, defaultPitch, defaultYaw, c, i - |a|);
    }
    PathLengthMonotone(dist, seg, n - 1, n);
    AtArcLengthsAppend(dist, seg, a, e, k.accumulated, PathLength(dist, seg, n), spacing,
                       defaultPitch, defaultYaw);
  }

  /** The scalar facts about the state in which segment n - 1 is entered and how often it fires. */
  lemma TickStep(dist: Distance, seg: seq<PathPoint>, n: nat, spacing: real)
    requires 0 < n < |seg| && spacing > 0.0
    ensures var k := Tick(dist, seg, n - 1, spacing);
            var c := Fires(k.accumulated, k.nextShotAt, SegmentLength(dist, seg[n - 1], seg[n]), spacing);
            && k.accumulated == PathLength(dist, seg, n - 1)
            && k.nextShotAt == Threshold(spacing, k.count)
            && (n > 1 ==> k.accumulated < k.nextShotAt)
            && (c > 0 ==> AddRepeatedly(k.nextShotAt, spacing, c - 1) <= PathLength(dist, seg, n))
  {
    var k := Tick(dist, seg, n - 1, spacing);
    var len := SegmentLength(dist, seg[n - 1], seg[n]);
    assert PathLength(dist, seg, n) == PathLength(dist, seg, n - 1) + len;
    TickInvariant(dist, seg, n - 1, spacing);
  }

  /** Every shot of the first n segments is the shot at its threshold, and no threshold overshoots. */
  lemma {:induction false} WalkAtArcLengths(dist: Distance, seg: seq<PathPoint>, n: nat, spacing: real,
                                            defaultPitch: real, defaultYaw: real)
    requires 2 <= |seg| && n < |seg| && spacing > 0.0
    ensures AtArcLengths(dist, seg, Walk(dist, seg, n, spacing, defaultPitch, defaultYaw),
                         PathLength(dist, seg, n), spacing, defaultPitch, defaultYaw)
  {
    if n > 0 {
      var k := Tick(dist, seg, n - 1, spacing);
      var a := Walk(dist, seg, n - 1, spacing, defaultPitch, defaultYaw);
      var len := SegmentLength(dist, seg[n - 1], seg[n]);
      var c := Fires(k.accumulated, k.nextShotAt, len, spacing);
      assert Walk(dist, seg, n, spacing, defaultPitch, defaultYaw)
             == a + Emitted(seg[n - 1], seg[n], len, k.accumulated, k.nextShotAt, spacing, c,
                            defaultPitch, defaultYaw);
      TickStep(dist, seg, n, spacing);
      WalkLength(dist, seg, n - 1, spacing, defaultPitch, defaultYaw);
      WalkAtArcLengths(dist, seg, n - 1, spacing, defaultPitch, defaultYaw);
      EmittedAtArcLengths(dist, seg, n, k, a, spacing, defaultPitch, defaultYaw, c);
    }
  }

  /** Thresholds are multiples of the spacing: shot k sits at arc length k * spacing. */
  lemma ThresholdIsMultiple(spacing: real, k: nat)
    ensures Threshold(spacing, k) == k as real * spacing
  {
    AddRepeatedlyIsProduct(0.0, spacing, k);
  }

  /**
   * The resampler's output, shot by shot: with at least two points, shot k
   * is the interpolated shot at arc length Threshold(spacing, k) = k * spacing
   * along the points, and that arc length is within the path.
   */
  lemma ResampleAtArcLengths(dist: Distance, seg: seq<PathPoint>, spacing: real, defaultPitch: real,
                             defaultYaw: real)
    requires spacing > 0.0
    ensures var shots := Resample(dist, seg, spacing, defaultPitch, defaultYaw);
            |seg| >= 2 ==>
              forall k :: 0 <= k < |shots| ==>
                && Threshold(spacing, k) <= PathLength(dist, seg, |seg| - 1)
                && shots[k] == ArcShot(dist, seg, Threshold(spacing, k), defaultPitch, defaultYaw)
  {
    if |seg| >= 2 {
      var shots := Walk(dist, seg, |seg| - 1, spacing, defaultPitch, defaultYaw);
      WalkAtArcLengths(dist, seg, |seg| - 1, spacing, defaultPitch, defaultYaw);
      assert AtArcLengths(dist, seg, shots, PathLength(dist, seg, |seg| - 1), spacing, defaultPitch, defaultYaw);
    }
  }

  /** The first shot is taken at arc length 0 on the first segment: at its start when it has positive length. */
  lemma ResampleFirstShot(dist: Distance, seg: seq<PathPoint>, spacing: real, defaultPitch: real,
                          defaultYaw: real)
    requires spacing > 0.0
    ensures var shots := Resample(dist, seg, spacing, defaultPitch, defaultYaw);
            |seg| >= 2 ==>
              && |shots| > 0
              && shots[0] == SegmentShot(seg[0], seg[1], SegmentLength(dist, seg[0], seg[1]), 0.0, 0.0,
                                         defaultPitch, defaultYaw)
    ensures var shots := Resample(dist, seg, spacing, defaultPitch, defaultYaw);
            |seg| >= 2 && SegmentLength(dist, seg[0], seg[1]) > 0.0 ==>
              && |shots| > 0
              && shots[0] == PointPose(seg[0]).(
                   gimbalPitch := ResolveAngle(seg[0].gimbalPitch, seg[1].gimbalPitch, seg[0].gimbalPitch, defaultPitch),
                   gimbalYaw := ResolveAngle(seg[0].gimbalYaw, seg[1].gimbalYaw, seg[0].gimbalYaw, defaultYaw))
  {
    if |seg| >= 2 {
      var shots := Walk(dist, seg, |seg| - 1, spacing, defaultPitch, defaultYaw);
      WalkBracket(dist, seg, spacing, defaultPitch, defaultYaw);
      WalkAtArcLengths(dist, seg, |seg| - 1, spacing, defaultPitch, defaultYaw);
      assert Threshold(spacing, 0) == 0.0;
      assert shots[0] == ArcShot(dist, seg, 0.0, defaultPitch, defaultYaw);
      ArcSegmentFinds(dist, seg, 0, 0, 0.0);
      var len := SegmentLength(dist, seg[0], seg[1]);
      if len > 0.0 {
        SegmentParamFacts(len, 0.0, 0.0);
        InterpolateEndpoints(seg[0], seg[1]);
      }
    }
  }

  /** When no point of `seg` sets a pitch, every shot takes the default pitch. */
  lemma ResampleUnsetPitch(dist: Distance, seg: seq<PathPoint>, spacing: real, defaultPitch: real,
                           defaultYaw: real)
    requires spacing > 0.0
    requires forall j :: 0 <= j < |seg| ==> seg[j].gimbalPitch == 0.0
    ensures var shots := Resample(dist, seg, spacing, defaultPitch, defaultYaw);
            forall k :: 0 <= k < |shots| ==> shots[k].gimbalPitch == defaultPitch
  {
    if |seg| >= 2 {
      var shots := Walk(dist, seg, |seg| - 1, spacing, defaultPitch, defaultYaw);
      ResampleAtArcLengths(dist, seg, spacing, defaultPitch, defaultYaw);
      forall k | 0 <= k < |shots|
        ensures shots[k].gimbalPitch == defaultPitch
      {
        var j := ArcSegment(dist, seg, 0, Threshold(spacing, k));
        assert seg[j].gimbalPitch == 0.0 && seg[j + 1].gimbalPitch == 0.0;
        assert shots[k] == ArcShot(dist, seg, Threshold(spacing, k), defaultPitch, defaultYaw);
        SegmentShotGimbal(seg[j], seg[j + 1], SegmentLength(dist, seg[j], seg[j + 1]), PathLength(dist, seg, j),
                          Threshold(spacing, k), defaultPitch, defaultYaw);
      }
    }
  }

  /** When no point of `seg` sets a yaw, every shot takes the default yaw. */
  lemma ResampleUnsetYaw(dist: Distance, seg: seq<PathPoint>, spacing: real, defaultPitch: real,
                         defaultYaw: real)
    requires spacing > 0.0
    requires forall j :: 0 <= j < |seg| ==> seg[j].gimbalYaw == 0.0
    ensures var shots := Resample(dist, seg, spacing, defaultPitch, defaultYaw);
            forall k :: 0 <= k < |shots| ==> shots[k].gimbalYaw == defaultYaw
  {
    if |seg| >= 2 {
      var shots := Walk(dist, seg, |seg| - 1, spacing, defaultPitch, defaultYaw);
      ResampleAtArcLengths(dist, seg, spacing, defaultPitch, defaultYaw);
      forall k | 0 <= k < |shots|
        ensures shots[k].gimbalYaw == defaultYaw
      {
        var j := ArcSegment(dist, seg, 0, Threshold(spacing, k));
        assert seg[j].gimbalYaw == 0.0 && seg[j + 1].gimbalYaw == 0.0;
        assert shots[k] == ArcShot(dist, seg, Threshold(spacing, k), defaultPitch, defaultYaw);
        SegmentShotGimbal(seg[j], seg[j + 1], SegmentLength(dist, seg[j], seg[j + 1]), PathLength(dist, seg, j),
                          Threshold(spacing, k), defaultPitch, defaultYaw);
      }
    }
  }

  // ---------------------------------------------------------------------
  // The resampler as the source writes it: a `for` over the segments and a
  // `while` that fires at every threshold the segment's end reaches.
  // ---------------------------------------------------------------------

  /** One more firing appends the shot at the next threshold. */
  lemma EmittedSnoc(p0: PathPoint, p1: PathPoint, segLen: real, accumulated: real, first: real,
                    spacing: real, count: nat, defaultPitch: real, defaultYaw: real)
    ensures Emitted(p0, p1, segLen, accumulated, first, spacing, count + 1, defaultPitch, defaultYaw)
            == Emitted(p0, p1, segLen, accumulated, first, spacing, count, defaultPitch, defaultYaw)
               + [SegmentShot(p0, p1, segLen, accumulated, AddRepeatedly(first, spacing, count), defaultPitch, defaultYaw)]
  {
    var a := Emitted(p0, p1, segLen, accumulated, first, spacing, count + 1, defaultPitch, defaultYaw);
    var b := Emitted(p0, p1, segLen, accumulated, first, spacing, count, defaultPitch, defaultYaw)
             + [SegmentShot(p0, p1, segLen, accumulated, AddRepeatedly(first, spacing, count), defaultPitch, defaultYaw)];
    forall i | 0 <= i < count + 1
      ensures a[i] == b[i]
    {
    }
  }

  /** The inner `while` fires for the e-th time exactly when e is below the closed-form count. */
  lemma FiresExactly(accumulated: real, nextShotAt: real, segLen: real, spacing: real, e: nat)
    requires segLen >= 0.0 && spacing > 0.0 && e <= Fires(accumulated, nextShotAt, segLen, spacing)
    ensures AddRepeatedly(nextShotAt, spacing, e) <= accumulated + segLen
            <==> e < Fires(accumulated, nextShotAt, segLen, spacing)
  {
    var c := ThresholdCount(accumulated + segLen, nextShotAt, spacing);
    if e < c {
      AddRepeatedlyNonDecreasing(nextShotAt, spacing, e, c - 1);
    }
  }

  /**
   * The body of the inner `while`: the clamped segment parameter of the
   * threshold, the interpolated pose there, and the gimbal-default rule.
   */
  method TakeShot(p0: PathPoint, p1: PathPoint, segLen: real, accumulated: real, threshold: real,
                  defaultPitch: real, defaultYaw: real)
    returns (shot: ShotPoint)
    ensures shot == SegmentShot(p0, p1, segLen, accumulated, threshold, defaultPitch, defaultYaw)
  {
    var t := if segLen > 0.0 then (threshold - accumulated) / segLen else 1.0;
    t := Clamp(t);
    var r := Interpolate(p0, p1, t);
    var pitch := if p0.gimbalPitch != 0.0 || p1.gimbalPitch != 0.0 then r.gimbalPitch else defaultPitch;
    var yaw := if p0.gimbalYaw != 0.0 || p1.gimbalYaw != 0.0 then r.gimbalYaw else defaultYaw;
    shot := ShotPoint(r.lon, r.lat, r.executeHeight, r.heading, pitch, yaw);
  }

  /**
   * The inner `while` of `_compute_shots_from_multiple_distance` on the
   * segment p0 -> p1 of length segLen entered at arc length `accumulated`:
   * a shot at every threshold nextShotAt, nextShotAt + spacing, ... that the
   * segment's end reaches, and the first threshold it does not reach.
   */
  method ShootSegment(p0: PathPoint, p1: PathPoint, segLen: real, accumulated: real, nextShotAt: real,
                      spacing: real, defaultPitch: real, defaultYaw: real, shots: seq<ShotPoint>)
    returns (shots': seq<ShotPoint>, nextShotAt': real)
    requires segLen >= 0.0 && spacing > 0.0
    ensures var c := Fires(accumulated, nextShotAt, segLen, spacing);
            && shots' == shots + Emitted(p0, p1, segLen, accumulated, nextShotAt, spacing, c, defaultPitch, defaultYaw)
            && nextShotAt' == AddRepeatedly(nextShotAt, spacing, c)
  {
    ghost var count := Fires(accumulated, nextShotAt, segLen, spacing);
    ghost var emitted: nat := 0;
    shots', nextShotAt' := shots, nextShotAt;
    while accumulated + segLen >= nextShotAt'
      invariant emitted <= count
      invariant nextShotAt' == AddRepeatedly(nextShotAt, spacing, emitted)
      invariant shots' == shots + Emitted(p0, p1, segLen, accumulated, nextShotAt, spacing, emitted,
                                          defaultPitch, defaultYaw)
      decreases count - emitted
    {
      assert AddRepeatedly(nextShotAt, spacing, emitted + 1) == nextShotAt' + spacing;
      FiresExactly(accumulated, nextShotAt, segLen, spacing, emitted);
      var shot := TakeShot(p0, p1, segLen, accumulated, nextShotAt', defaultPitch, defaultYaw);
      EmittedSnoc(p0, p1, segLen, accumulated, nextShotAt, spacing, emitted, defaultPitch, defaultYaw);
      shots' := shots' + [shot];
      nextShotAt' := nextShotAt' + spacing;
      emitted := emitted + 1;
    }
    FiresExactly(accumulated, nextShotAt, segLen, spacing, emitted);
  }

  /**
   * One `for` pass: from the state after i segments, the inner loop's
   * result on segment i is the state after i + 1 segments.
   */
  lemma WalkStep(dist: Distance, seg: seq<PathPoint>, i: nat, spacing: real, defaultPitch: real, defaultYaw: real,
                 shots: seq<ShotPoint>, nextShotAt: real)
    requires i + 1 < |seg| && spacing > 0.0
    requires var k := Tick(dist, seg, i, spacing);
             var len := SegmentLength(dist, seg[i], seg[i + 1]);
             var c := Fires(k.accumulated, k.nextShotAt, len, spacing);
             && shots == Walk(dist, seg, i, spacing, defaultPitch, defaultYaw)
                         + Emitted(seg[i], seg[i + 1], len, k.accumulated, k.nextShotAt, spacing, c, defaultPitch, defaultYaw)
             && nextShotAt == AddRepeatedly(k.nextShotAt, spacing, c)
    ensures var k := Tick(dist, seg, i + 1, spacing);
            && shots == Walk(dist, seg, i + 1, spacing, defaultPitch, defaultYaw)
            && nextShotAt == k.nextShotAt
            && k.accumulated == Tick(dist, seg, i, spacing).accumulated + SegmentLength(dist, seg[i], seg[i + 1])
  {
  }

  /**
   * `_compute_shots_from_multiple_distance`: keep the in-range points, then
   * walk their segments, taking a shot each time the walked length reaches
   * the next threshold. The result is the resampler applied to the in-range
   * points, so the count, arc-length, endpoint and gimbal lemmas about
   * `Resample` describe it.
   */
  method ComputeShotsFromMultipleDistance(dist: Distance, points: seq<PathPoint>, startIdx: int, endIdx: int,
                                          spacing: real, defaultPitch: real := -90.0, defaultYaw: real := 0.0)
    returns (shots: seq<ShotPoint>)
    requires spacing > 0.0
    ensures shots == Resample(dist, InRange(points, startIdx, endIdx), spacing, defaultPitch, defaultYaw)
  {
    var segment := InRange(points, startIdx, endIdx);
    if |segment| < 2 {
      return [];
    }
    shots := [];
    var accumulated := 0.0;
    var nextShotAt := 0.0;
    for i := 0 to |segment| - 1
      invariant shots == Walk(dist, segment, i, spacing, defaultPitch, defaultYaw)
      invariant accumulated == Tick(dist, segment, i, spacing).accumulated
      invariant nextShotAt == Tick(dist, segment, i, spacing).nextShotAt
    {
      var p0, p1 := segment[i], segment[i + 1];
      var segLen := dist(p0.lon, p0.lat, p1.lon, p1.lat);
      shots, nextShotAt := ShootSegment(p0, p1, segLen, accumulated, nextShotAt, spacing,
                                        defaultPitch, defaultYaw, shots);
      WalkStep(dist, segment, i, spacing, defaultPitch, defaultYaw, shots, nextShotAt);
      accumulated := accumulated + segLen;
    }
  }
}
