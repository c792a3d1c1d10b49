/**
 * The route viewer: the full route as consecutive segments, the one
 * segment that leaves a stop chosen by name, and the list of choices.
 * Each segment is drawn from a directions query whose reply is an input.
 */
module Viewer {
  import opened Directions

  /** One drawn segment: its two ends, the query's result and the line colour. */
  datatype Leg = Leg(origin: Point, destination: Point, quote: Quote, color: Tier)

  /** `get_road_route(start, end)` followed by the colour of its traffic duration. */
  function DrawLeg(origin: Point, destination: Point, reply: Reply): Leg {
    var q := RoadRoute(origin, destination, reply);
    Leg(origin, destination, q, LineColor(q.duration))
  }

  /** How many indices `range(1, len(route))` yields. */
  function SegmentCount(route: seq<Point>): nat {
    if |route| == 0 then 0 else |route| - 1
  }

  /** Segment k runs from route stop k to route stop k + 1, and there is one per adjacent pair. */
  ghost predicate Connects(route: seq<Point>, legs: seq<Leg>) {
    && |legs| == SegmentCount(route)
    && forall k :: 0 <= k < |legs| ==> legs[k].origin == route[k] && legs[k].destination == route[k + 1]
  }

  /**
   * Models the "Show Full Route" loop; `replies(k)` is what the provider
   * answers for the k-th query.
   */
  method FullRoute(route: seq<Point>, replies: nat -> Reply) returns (legs: seq<Leg>)
    ensures Connects(route, legs)
    ensures forall k :: 0 <= k < |legs| ==> legs[k] == DrawLeg(route[k], route[k + 1], replies(k))
  {
    legs := [];
    var i := 1;
    while i < |route|
      invariant 1 <= i && (|route| > 0 ==> i <= |route|)
      invariant |legs| == i - 1 <= SegmentCount(route)
      invariant forall k :: 0 <= k < |legs| ==> legs[k] == DrawLeg(route[k], route[k + 1], replies(k))
    {
      legs := legs + [DrawLeg(route[i - 1], route[i], replies(i - 1))];
      i := i + 1;
    }
    forall k | 0 <= k < |legs| ensures legs[k].origin == route[k] && legs[k].destination == route[k + 1] {
      assert legs[k] == DrawLeg(route[k], route[k + 1], replies(k));
    }
  }

  /** The stops a run of connected segments passes through. */
  function Stops(legs: seq<Leg>): seq<Point>
    requires |legs| > 0
  {
    [legs[0].origin] + seq(|legs|, k requires 0 <= k < |legs| => legs[k].destination)
  }

  /** The full-route segments lose nothing: walking them gives back the route. */
  lemma SegmentsRebuildRoute(route: seq<Point>, legs: seq<Leg>)
    requires Connects(route, legs) && |route| >= 2
    ensures Stops(legs) == route
  {
    assert forall k :: 0 <= k < |route| ==> Stops(legs)[k] == route[k] by {
      forall k | 0 <= k < |route| ensures Stops(legs)[k] == route[k] {
        if k > 0 {
          assert Stops(legs)[k] == legs[k - 1].destination;
        }
      }
    }
  }

  /** What choosing a stop by name shows. */
  datatype Selection =
    | Segment(index: nat, leg: Leg)   // the first stop so named, and the segment to the stop after it
    | LastStop                        // the first stop so named is the final one
    | NotFound                        // no stop has that name

  /**
   * `s` is what the single-segment branch shows for `name`: the segment
   * from the first stop so named to its successor, drawn from `reply`, when
   * that stop is not the last; "last stop" when it is (or, as the index
   * comparison is written, when the route is empty); "not found" when no
   * stop has the name.
   */
  ghost predicate IsSelection(route: seq<Point>, name: string, reply: Reply, s: Selection) {
    && (s.Segment? <==> exists i :: 0 <= i < |route| - 1 && route[i].name == name)
    && (s.Segment? ==>
          && s.index < |route| - 1
          && route[s.index].name == name
          && (forall j :: 0 <= j < s.index ==> route[j].name != name)
          && s.leg == DrawLeg(route[s.index], route[s.index + 1], reply))
    && (s.LastStop? <==>
          || |route| == 0
          || (route[|route| - 1].name == name && forall i :: 0 <= i < |route| - 1 ==> route[i].name != name))
    && (s.NotFound? <==> |route| > 0 && forall i :: 0 <= i < |route| ==> route[i].name != name)
  }

  /**
   * Models the single-segment branch: the first stop whose name matches,
   * then the segment to its successor, the "last stop" notice or the
   * "could not find" warning.
   */
  method SegmentFrom(route: seq<Point>, name: string, reply: Reply) returns (s: Selection)
    ensures IsSelection(route, name, reply, s)
  {
    var startIndex := -1;
    for i := 0 to |route|
      invariant startIndex == -1
      invariant forall j :: 0 <= j < i ==> route[j].name != name
    {
      if route[i].name == name {
        startIndex := i;
        break;
      }
    }
    if startIndex != -1 && startIndex < |route| - 1 {
      s := Segment(startIndex, DrawLeg(route[startIndex], route[startIndex + 1], reply));
    } else if startIndex == |route| - 1 {
      s := LastStop;
    } else {
      s := NotFound;
    }
  }

  /** The first entry of the selection box. */
  const FullRouteOption: string := "Show Full Route"

  /** The selection box: the full route, then every stop's name but the last's. */
  function ViewOptions(route: seq<Point>): seq<string> {
    [FullRouteOption] + seq(SegmentCount(route), k requires 0 <= k < SegmentCount(route) => route[k].name)
  }

  /** A stop name offered in the selection box always belongs to a stop that has a successor. */
  lemma OfferedNameHasSegment(route: seq<Point>, option: string)
    requires option in ViewOptions(route) && option != FullRouteOption
    ensures exists i :: 0 <= i < |route| - 1 && route[i].name == option
  {
    var k :| 0 <= k < |ViewOptions(route)| && ViewOptions(route)[k] == option;
    assert route[k - 1].name == option;
  }

  /** What the map panel shows for the chosen option. */
  datatype View = WholeRoute(legs: seq<Leg>) | OneSegment(selection: Selection)

  /**
   * Models the dispatch on the selected option. A stop chosen from the box
   * always yields its segment: the "last stop" and "could not find" branches
   * are reachable only with a name the box does not offer.
   */
  method Display(route: seq<Point>, option: string, replies: nat -> Reply) returns (v: View)
    ensures v.WholeRoute? <==> option == FullRouteOption
    ensures v.WholeRoute? ==> Connects(route, v.legs)
    ensures v.WholeRoute? ==> forall k :: 0 <= k < |v.legs| ==> v.legs[k] == DrawLeg(route[k], route[k + 1], replies(k))
    ensures v.OneSegment? ==> IsSelection(route, option, replies(0), v.selection)
    ensures option in ViewOptions(route) && option != FullRouteOption ==>
              v.OneSegment? && v.selection.Segment? && v.selection.index < |route| - 1
              && route[v.selection.index].name == option
  {
    if option == FullRouteOption {
      var legs := FullRoute(route, replies);
      v := WholeRoute(legs);
    } else {
      var selection := SegmentFrom(route, option, replies(0));
      v := OneSegment(selection);
      if option in ViewOptions(route) {
        OfferedNameHasSegment(route, option);
      }
    }
  }
}
