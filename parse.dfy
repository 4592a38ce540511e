/**
 * The in-memory mission model produced by the WPML reader (src/wpml/parse.py).
 * Reading the KMZ archive and its XML is not part of this model; only the
 * records it produces are.
 */
module Parse {
  import opened Wrappers

  /** One point of a wayline's flight path. */
  datatype PathPoint = PathPoint(
    index: int,
    lon: real,
    lat: real,
    executeHeight: real,
    waypointHeadingAngle: real,
    waypointSpeed: real,
    gimbalPitch: real,
    gimbalYaw: real)

  /**
   * An action group bound to the index range [startIndex, endIndex].
   * `triggerParam` is absent when the trigger carries no parsable number.
   */
  datatype ActionGroup = ActionGroup(
    groupId: int,
    startIndex: int,
    endIndex: int,
    mode: string,
    triggerType: string,
    triggerParam: Option<real>,
    hasTakePhoto: bool,
    gimbalPitch: real,
    gimbalYaw: real,
    payloadLensIndex: string)

  /** One route of the mission: id 0 is the ortho route, the others are oblique. */
  datatype ParsedWayline = ParsedWayline(
    waylineId: int,
    templateId: int,
    points: seq<PathPoint>,
    actionGroups: seq<ActionGroup>,
    autoFlightSpeed: real)

  /**
   * The whole parsed mission. `points` and `actionGroups` are the mission's
   * top-level points and groups, which the reader copies from the first
   * wayline that has points, for callers that only handle one route.
   */
  datatype ParsedWaylines = ParsedWaylines(
    waylines: seq<ParsedWayline>,
    points: seq<PathPoint>,
    actionGroups: seq<ActionGroup>,
    autoFlightSpeed: real,
    executeHeightMode: string)

  /** The reader sorts every wayline's points by index. */
  predicate SortedByIndex(points: seq<PathPoint>)
  {
    forall i, j :: 0 <= i < j < |points| ==> points[i].index <= points[j].index
  }
}
