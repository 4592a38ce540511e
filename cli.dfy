/**
 * The command line (src/cli.py): the default output path, the per-route
 * file names of split mode, and the exit-code chain of `main`. Argument
 * parsing, printing and the archive writer are outside the model; each
 * call of the writer is recorded as a `BuildCall`, and whether it raises
 * is a parameter.
 */
module Cli {
  import opened Wrappers
  import opened Parse
  import opened Compute
  import opened Waylines
  import opened Paths

  // ---------------------------------------------------------------------
  // String helpers with Python's meaning
  // ---------------------------------------------------------------------

  /** `s.endswith(suffix)`. */
  predicate EndsWith(s: string, suffix: string)
  {
    |suffix| <= |s| && s[|s| - |suffix|..] == suffix
  }

  /** `s.startswith(prefix)`. */
  predicate StartsWith(s: string, prefix: string)
  {
    |prefix| <= |s| && s[..|prefix|] == prefix
  }

  /** `s.rsplit(c, 1)[0]`: everything before the last c, or all of s. */
  function BeforeLast(s: string, c: char): string
  {
    var i := LastIndexOf(s, c);
    if i < 0 then s else s[..i]
  }

  /** `s.replace(pat, "")`: delete the non-overlapping occurrences, scanning left to right. */
  function RemoveAll(s: string, pat: string): (r: string)
    requires pat != []
    ensures forall ch :: ch in r ==> ch in s
    decreases |s|
  {
    if |s| < |pat| then s
    else if s[..|pat|] == pat then RemoveAll(s[|pat|..], pat)
    else [s[0]] + RemoveAll(s[1..], pat)
  }

  /** A string without any occurrence of pat is left as it is. */
  lemma {:induction false} RemoveAllNone(s: string, pat: string)
    requires pat != []
    requires forall i :: 0 <= i < |s| ==> !StartsWith(s[i..], pat)
    ensures RemoveAll(s, pat) == s
    decreases |s|
  {
    if |s| >= |pat| {
      assert s[0..] == s;
      forall i | 0 <= i < |s| - 1
        ensures !StartsWith(s[1..][i..], pat)
      {
        assert s[1..][i..] == s[i + 1..];
      }
      RemoveAllNone(s[1..], pat);
      assert [s[0]] + s[1..] == s;
    }
  }

  /**
   * Appending one occurrence of pat to a string in which no occurrence
   * starts, even one running into the appended copy, is undone by the
   * deletion.
   */
  lemma {:induction false} RemoveAllAppended(a: string, pat: string)
    requires pat != []
    requires forall i :: 0 <= i < |a| ==> !StartsWith(a[i..] + pat, pat)
    ensures RemoveAll(a + pat, pat) == a
    decreases |a|
  {
    var s := a + pat;
    if a == [] {
      assert s == pat && s[..|pat|] == pat && s[|pat|..] == [];
    } else {
      assert a[0..] == a;
      assert s[..|pat|] != pat;
      forall i | 0 <= i < |a| - 1
        ensures !StartsWith(a[1..][i..] + pat, pat)
      {
        assert a[1..][i..] == a[i + 1..];
      }
      RemoveAllAppended(a[1..], pat);
      assert s[1..] == a[1..] + pat;
      assert [a[0]] + a[1..] == a;
    }
  }

  /** The decimal digit of d. */
  function Digit(d: nat): (ch: char)
    requires d < 10
    ensures '0' <= ch <= '9'
  {
    (48 + d) as char
  }

  /** `f"{n}"` for a natural number: its decimal digits. */
  function NatToString(n: nat): (s: string)
    ensures s != [] && forall ch :: ch in s ==> '0' <= ch <= '9'
  {
    if n < 10 then [Digit(n)] else NatToString(n / 10) + [Digit(n % 10)]
  }

  /** Different numbers print differently. */
  lemma {:induction false} NatToStringInjective(a: nat, b: nat)
    requires NatToString(a) == NatToString(b)
    ensures a == b
  {
    var s := NatToString(a);
    if a >= 10 && b >= 10 {
      assert s[|s| - 1] == Digit(a % 10) == Digit(b % 10);
      assert NatToString(a / 10) == s[..|s| - 1] == NatToString(b / 10);
      NatToStringInjective(a / 10, b / 10);
    }
  }

  // ---------------------------------------------------------------------
  // Output path
  // ---------------------------------------------------------------------

  /** The input stem without a trailing `_area` or `_mapping` (src/cli.py:58-60). */
  function DefaultStem(stem: string): string
  {
    if EndsWith(stem, "_area") || EndsWith(stem, "_mapping") then BeforeLast(stem, '_') else stem
  }

  /** Exactly the `_area` or `_mapping` suffix goes; any other stem stays. */
  lemma DefaultStemRule(s: string)
    ensures DefaultStem(s + "_area") == s
    ensures DefaultStem(s + "_mapping") == s
    ensures !EndsWith(s, "_area") && !EndsWith(s, "_mapping") ==> DefaultStem(s) == s
  {
    var a := s + "_area";
    assert a == s + ['_'] + "area";
    assert a[|a| - 5..] == "_area";
    LastIndexOfAppend(s, '_', "area");
    assert a[..|s|] == s;
    var m := s + "_mapping";
    assert m == s + ['_'] + "mapping";
    assert m[|m| - 8..] == "_mapping";
    LastIndexOfAppend(s, '_', "mapping");
    assert m[..|s|] == s;
  }

  /** `<input directory>/<stem>_waypoints.kmz`. */
  function DefaultOutput(input: Path): Path
  {
    Join(Parent(input), DefaultStem(Stem(Name(input))) + "_waypoints.kmz")
  }

  /** `out_path`: the explicit `-o` path verbatim, else the default one (src/cli.py:56-61). */
  function OutputPath(input: Path, output: Option<Path>): Path
  {
    if output.Some? then output.value else DefaultOutput(input)
  }

  /**
   * The default output sits beside the input, is named after the default
   * stem, and its own stem is that stem followed by `_waypoints`.
   */
  lemma DefaultOutputPlacement(input: Path)
    ensures var stem := DefaultStem(Stem(Name(input)));
            var out := DefaultOutput(input);
            && Parent(out) == Parent(input)
            && Name(out) == stem + "_waypoints.kmz"
            && Stem(Name(out)) == stem + "_waypoints"
  {
    var stem := DefaultStem(Stem(Name(input)));
    var name := stem + "_waypoints.kmz";
    assert name == (stem + "_waypoints") + "." + "kmz";
    assert name[|name| - 4] == '.';
    JoinPart(Parent(input), name);
    StemOfExtension(stem + "_waypoints", "kmz");
  }

  // ---------------------------------------------------------------------
  // Split mode naming
  // ---------------------------------------------------------------------

  /** `out_path.parent / out_path.stem.replace("_waypoints", "")` (src/cli.py:84). */
  function SplitBase(out: Path): Path
  {
    Join(Parent(out), RemoveAll(Stem(Name(out)), "_waypoints"))
  }

  /** "ortho" for wayline 0, else "oblique" and the route's position (src/cli.py:86). */
  function RouteLabel(waylineId: int, position: nat): (tag: string)
    ensures '/' !in tag
  {
    if waylineId == 0 then "ortho" else "oblique" + NatToString(position)
  }

  /** `base.parent / f"{base.name}_{label}.kmz"` (src/cli.py:87). */
  function SplitRoutePath(base: Path, tag: string): Path
    requires '/' !in tag
  {
    Join(Parent(base), Name(base) + "_" + tag + ".kmz")
  }

  /**
   * Two routes share a label exactly when both are wayline 0, or both are
   * oblique at the same position.
   */
  lemma RouteLabelsDistinct(id1: int, i: nat, id2: int, j: nat)
    ensures RouteLabel(id1, i) == RouteLabel(id2, j)
            <==> (id1 == 0 && id2 == 0) || (id1 != 0 && id2 != 0 && i == j)
  {
    var l1, l2 := RouteLabel(id1, i), RouteLabel(id2, j);
    if id1 != 0 && id2 != 0 && l1 == l2 {
      assert l1[7..] == NatToString(i) && l2[7..] == NatToString(j);
      NatToStringInjective(i, j);
    } else if id1 == 0 && id2 != 0 {
      assert l1[1] != l2[1];
    } else if id1 != 0 && id2 == 0 {
      assert l1[1] != l2[1];
    }
  }

  /**
   * Where a split-mode file lands: `<base>_<label>.kmz` in the output's
   * directory, where base is the output stem with `_waypoints` deleted.
   * When that deletion leaves "" or ".", the base is the output's
   * directory itself, so the file lands one level up and is named after
   * that directory.
   */
  lemma SplitRoutePlacement(out: Path, tag: string)
    requires '/' !in tag
    ensures var b := RemoveAll(Stem(Name(out)), "_waypoints");
            var path := SplitRoutePath(SplitBase(out), tag);
            && (ValidPart(b) ==> Parent(path) == Parent(out) && Name(path) == b + "_" + tag + ".kmz")
            && (b == "" || b == "." ==>
                  Parent(path) == Parent(Parent(out)) && Name(path) == Name(Parent(out)) + "_" + tag + ".kmz")
  {
    var b := RemoveAll(Stem(Name(out)), "_waypoints");
    var base := SplitBase(out);
    if ValidPart(b) {
      JoinPart(Parent(out), b);
    }
    SplitNameIsPart(base, tag);
    JoinPart(Parent(base), Name(base) + "_" + tag + ".kmz");
  }

  lemma SplitNameIsPart(base: Path, tag: string)
    requires '/' !in tag
    ensures ValidPart(Name(base) + "_" + tag + ".kmz")
  {
    var n := Name(base) + "_" + tag + ".kmz";
    assert n[|n| - 1] == 'z';
    assert forall k :: 0 <= k < |n| ==> n[k] == '/' ==> false by {
      forall k | 0 <= k < |n|
        ensures n[k] != '/'
      {
        if k < |Name(base)| {
          assert n[k] == Name(base)[k];
        } else if k == |Name(base)| {
        } else if k < |Name(base)| + 1 + |tag| {
          assert n[k] == tag[k - |Name(base)| - 1];
        } else {
          assert n[k] == ".kmz"[k - |Name(base)| - 1 - |tag|];
        }
      }
    }
  }

  /** The label can be read back from the file name. */
  lemma SplitLabelRecovered(base: Path, tag: string)
    requires '/' !in tag
    ensures var n := Name(SplitRoutePath(base, tag));
            |Name(base)| + 5 + |tag| == |n| && n[|Name(base)| + 1..|n| - 4] == tag
  {
    SplitNameIsPart(base, tag);
    JoinPart(Parent(base), Name(base) + "_" + tag + ".kmz");
  }

  /** Different labels give different files. */
  lemma SplitRoutePathsDistinct(base: Path, l1: string, l2: string)
    requires '/' !in l1 && '/' !in l2 && l1 != l2
    ensures SplitRoutePath(base, l1) != SplitRoutePath(base, l2)
  {
    SplitLabelRecovered(base, l1);
    SplitLabelRecovered(base, l2);
  }

  // ---------------------------------------------------------------------
  // main
  // ---------------------------------------------------------------------

  /**
   * The metadata CSV as `main` meets it: no path or no file, readable rows,
   * or a file whose reading or number parsing raises.
   */
  datatype CsvInput = NoCsv | CsvRows(rows: seq<CsvRow>) | CsvUnreadable

  /** The options `main` reads. */
  datatype Args = Args(input: Path, output: Option<Path>, csv: CsvInput, lens: string,
                       focalLength: real, splitRoutes: bool)

  /** One call of `build_waypoint_kmz`. */
  datatype BuildCall = BuildCall(parsed: ParsedWaylines, routes: seq<(ParsedWayline, seq<ShotPoint>)>,
                                 outputPath: Path, lens: string, focalLength: real)

  /** The rows handed to the shot computation, when a readable CSV exists. */
  function CsvOption(csv: CsvInput): Option<seq<CsvRow>>
  {
    if csv.CsvRows? then Some(csv.rows) else None
  }

  /** The split-mode call for the route at position i. */
  function SplitCall(args: Args, parsed: ParsedWaylines, route: (ParsedWayline, seq<ShotPoint>), i: nat): BuildCall
  {
    BuildCall(parsed, [route],
              SplitRoutePath(SplitBase(OutputPath(args.input, args.output)), RouteLabel(route.0.waylineId, i)),
              args.lens, args.focalLength)
  }

  /** The writer calls `main` makes, in order, when none of them raises. */
  function Plan(args: Args, parsed: ParsedWaylines, routes: seq<(ParsedWayline, seq<ShotPoint>)>): (plan: seq<BuildCall>)
  {
    if args.splitRoutes then seq(|routes|, i requires 0 <= i < |routes| => SplitCall(args, parsed, routes[i], i))
    else [BuildCall(parsed, routes, OutputPath(args.input, args.output), args.lens, args.focalLength)]
  }

  lemma PlanAt(args: Args, parsed: ParsedWaylines, routes: seq<(ParsedWayline, seq<ShotPoint>)>, i: nat)
    requires args.splitRoutes && i < |routes|
    ensures |Plan(args, parsed, routes)| == |routes| && Plan(args, parsed, routes)[i] == SplitCall(args, parsed, routes[i], i)
  {
  }

  /**
   * Split mode makes one call per route, with that route alone, into a
   * file of its own unless both routes are wayline 0; otherwise one call
   * carries every route into the output path.
   */
  lemma PlanShape(args: Args, parsed: ParsedWaylines, routes: seq<(ParsedWayline, seq<ShotPoint>)>)
    ensures var plan := Plan(args, parsed, routes);
            && (args.splitRoutes ==>
                  && |plan| == |routes|
                  && (forall i :: 0 <= i < |routes| ==> plan[i].routes == [routes[i]] && plan[i].parsed == parsed)
                  && (forall i, j :: 0 <= i < j < |routes| ==>
                        (plan[i].outputPath == plan[j].outputPath
                         <==> routes[i].0.waylineId == 0 && routes[j].0.waylineId == 0)))
            && (!args.splitRoutes ==>
                  plan == [BuildCall(parsed, routes, OutputPath(args.input, args.output), args.lens, args.focalLength)])
  {
    if args.splitRoutes {
      var plan := Plan(args, parsed, routes);
      var base := SplitBase(OutputPath(args.input, args.output));
      forall i, j | 0 <= i < j < |routes|
        ensures plan[i].outputPath == plan[j].outputPath
                <==> routes[i].0.waylineId == 0 && routes[j].0.waylineId == 0
      {
        var l1, l2 := RouteLabel(routes[i].0.waylineId, i), RouteLabel(routes[j].0.waylineId, j);
        RouteLabelsDistinct(routes[i].0.waylineId, i, routes[j].0.waylineId, j);
        if l1 != l2 {
          SplitRoutePathsDistinct(base, l1, l2);
        }
      }
    }
  }

  /**
   * The calls made run along the plan and stop at the first one that
   * raises; the exit code is 0 exactly when every planned call succeeds.
   */
  predicate BuildOutcome(plan: seq<BuildCall>, buildSucceeds: BuildCall -> bool, code: int, builds: seq<BuildCall>)
  {
    && (code == 0 || code == 1)
    && (code == 0 <==> forall k :: 0 <= k < |plan| ==> buildSucceeds(plan[k]))
    && (code == 0 ==> builds == plan)
    && (code == 1 ==>
          && 0 < |builds| <= |plan| && builds == plan[..|builds|]
          && !buildSucceeds(builds[|builds| - 1])
          && forall k :: 0 <= k < |builds| - 1 ==> buildSucceeds(builds[k]))
  }

  lemma PrefixSnoc(plan: seq<BuildCall>, i: nat)
    requires i < |plan|
    ensures plan[..i] + [plan[i]] == plan[..i + 1]
  {
  }

  /** Every call in calls returned normally. */
  predicate AllSucceeded(calls: seq<BuildCall>, buildSucceeds: BuildCall -> bool)
  {
    forall k :: 0 <= k < |calls| ==> buildSucceeds(calls[k])
  }

  lemma SucceededSnoc(calls: seq<BuildCall>, call: BuildCall, buildSucceeds: BuildCall -> bool)
    requires AllSucceeded(calls, buildSucceeds) && buildSucceeds(call)
    ensures AllSucceeded(calls + [call], buildSucceeds)
  {
  }

  lemma StopsAtFailure(plan: seq<BuildCall>, buildSucceeds: BuildCall -> bool, i: nat)
    requires i < |plan| && !buildSucceeds(plan[i])
    requires AllSucceeded(plan[..i], buildSucceeds)
    ensures BuildOutcome(plan, buildSucceeds, 1, plan[..i] + [plan[i]])
  {
    assert plan[..i] + [plan[i]] == plan[..i + 1];
  }

  lemma AllSucceed(plan: seq<BuildCall>, buildSucceeds: BuildCall -> bool)
    requires AllSucceeded(plan, buildSucceeds)
    ensures BuildOutcome(plan, buildSucceeds, 0, plan)
  {
  }

  /**
   * The split-mode loop of `main` (src/cli.py:84-95): one writer call per
   * route, each with that route alone and its own file, stopping at the
   * first call that raises.
   */
  method BuildEachRoute(args: Args, parsed: ParsedWaylines, routes: seq<(ParsedWayline, seq<ShotPoint>)>,
                        buildSucceeds: BuildCall -> bool)
    returns (code: int, builds: seq<BuildCall>)
    requires args.splitRoutes
    ensures BuildOutcome(Plan(args, parsed, routes), buildSucceeds, code, builds)
  {
    ghost var plan := Plan(args, parsed, routes);
    var base := SplitBase(OutputPath(args.input, args.output));
    builds := [];
    for i := 0 to |routes|
      invariant builds == plan[..i]
      invariant AllSucceeded(builds, buildSucceeds)
    {
      var route := routes[i];
      var tag := RouteLabel(route.0.waylineId, i);
      var call := BuildCall(parsed, [route], SplitRoutePath(base, tag), args.lens, args.focalLength);
      PlanAt(args, parsed, routes, i);
      assert call == plan[i];
      PrefixSnoc(plan, i);
      if !buildSucceeds(call) {
        StopsAtFailure(plan, buildSucceeds, i);
        return 1, builds + [call];
      }
      SucceededSnoc(builds, call, buildSucceeds);
      builds := builds + [call];
    }
    assert plan[..|routes|] == plan;
    AllSucceed(plan, buildSucceeds);
    return 0, builds;
  }

  /**
   * `main` after argument parsing. `parsed` is None when reading the input
   * raises; `buildSucceeds` says which writer calls return normally.
   */
  method Run(args: Args, parsed: Option<ParsedWaylines>, dist: Distance, buildSucceeds: BuildCall -> bool)
    returns (code: int, builds: seq<BuildCall>)
    ensures parsed.None? || args.csv.CsvUnreadable? ==> code == 1 && builds == []
    ensures parsed.Some? && !args.csv.CsvUnreadable? ==>
              var routes := PerWayline(dist, parsed.value, CsvOption(args.csv));
              && (routes == [] ==> code == 1 && builds == [])
              && (routes != [] ==> BuildOutcome(Plan(args, parsed.value, routes), buildSucceeds, code, builds))
  {
    var out := OutputPath(args.input, args.output);
    if parsed.None? {
      return 1, [];
    }
    if args.csv.CsvUnreadable? {
      return 1, [];
    }
    var routes := ComputeShotPointsPerWayline(dist, parsed.value, CsvOption(args.csv));
    if routes == [] {
      return 1, [];
    }
    if args.splitRoutes {
      code, builds := BuildEachRoute(args, parsed.value, routes, buildSucceeds);
    } else {
      var call := BuildCall(parsed.value, routes, out, args.lens, args.focalLength);
      builds := [call];
      code := if buildSucceeds(call) then 0 else 1;
    }
  }
}
