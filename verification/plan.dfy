/**
 * One optimisation run: the warehouse is put in front of the uploaded
 * stops, the solver orders the indices, and the order is mapped back to
 * the stop records.
 */
module Plan {
  import opened Solver
  import opened Directions
  import opened Viewer

  /** `[warehouse] + locations`: index 0 is the warehouse, index i the i-th uploaded stop. */
  function AllPoints(stops: seq<Point>): seq<Point> {
    [Warehouse] + stops
  }

  /** `[all_points[i] for i in route_order]` */
  function OrderedRoute(points: seq<Point>, order: seq<nat>): seq<Point>
    requires AllBelow(order, |points|)
  {
    seq(|order|, k requires 0 <= k < |order| => points[order[k]])
  }

  /**
   * Mapping a solved order back through `[warehouse] + locations` gives a
   * route that starts at the warehouse and holds every point exactly once:
   * point p sits at the one position whose index is p.
   */
  lemma OrderedRouteVisitsEveryPoint(stops: seq<Point>, m: Matrix, order: seq<nat>)
    requires IsNearestNeighborRoute(m, order) && |m| == |stops| + 1
    ensures AllBelow(order, |AllPoints(stops)|)
    ensures |OrderedRoute(AllPoints(stops), order)| == |AllPoints(stops)|
    ensures OrderedRoute(AllPoints(stops), order)[0] == Warehouse
    ensures forall pos :: 0 <= pos < |order| ==> OrderedRoute(AllPoints(stops), order)[pos] == AllPoints(stops)[order[pos]]
    ensures IsPermutation(order, |AllPoints(stops)|)
    ensures forall i :: 0 <= i < |stops| ==> stops[i] in OrderedRoute(AllPoints(stops), order)
  {
    NearestNeighborRouteIsPermutation(m, order);
    var route := OrderedRoute(AllPoints(stops), order);
    forall i | 0 <= i < |stops| ensures stops[i] in route {
      assert i + 1 in order;
      var pos :| 0 <= pos < |order| && order[pos] == i + 1;
      assert route[pos] == AllPoints(stops)[i + 1] == stops[i];
    }
  }

  /**
   * The run behind the "Optimize & Show Full Route" button, given the cost
   * matrix over `[warehouse] + locations`.
   */
  method Optimize(stops: seq<Point>, m: Matrix) returns (order: seq<nat>, route: seq<Point>)
    requires IsSquare(m) && |m| == |stops| + 1
    ensures IsNearestNeighborRoute(m, order)
    ensures AllBelow(order, |AllPoints(stops)|) && route == OrderedRoute(AllPoints(stops), order)
    ensures |route| == |stops| + 1 && route[0] == Warehouse
  {
    var solved := SolveNearestNeighbor(m);
    order := solved.value;
    OrderedRouteVisitsEveryPoint(stops, m, order);
    route := OrderedRoute(AllPoints(stops), order);
  }

  /**
   * The run as the script performs it: the matrix is left at
   * `np.zeros`, so the route is the warehouse followed by the stops in
   * upload order.
   */
  method OptimizeAsWritten(stops: seq<Point>) returns (route: seq<Point>)
    ensures route == AllPoints(stops)
  {
    var order;
    order, route := Optimize(stops, Zeros(|stops| + 1));
    ZeroMatrixRouteIsIdentity(|stops| + 1, order);
    assert route == AllPoints(stops) by {
      forall k | 0 <= k < |route| ensures route[k] == AllPoints(stops)[k] {
        assert order[k] == k;
      }
    }
  }

  /** Warehouse, A and B with Depot->A 500 s, Depot->B 1000 s, A->B 200 s, B->A 300 s. */
  function ScenarioMatrix(): (m: Matrix) {
    [[0, 500, 1000],
     [500, 0, 200],
     [1000, 300, 0]]
  }

  /** From the warehouse A is nearer (500 < 1000), then B is all that is left. */
  lemma ScenarioRoute(order: seq<nat>)
    requires IsNearestNeighborRoute(ScenarioMatrix(), order)
    ensures order == [0, 1, 2]

  {
    var m := ScenarioMatrix();
    NearestNeighborRouteIsPermutation(m, order);
    assert order[..1] == [0];
    assert IsNearestPick(m, [0], order[1]);
    assert 1 !in [0];
    assert order[1] == 1;
    assert order[2] != 0 && order[2] != 1;
  }

  /**
   * Drawing the scenario's route Warehouse, A, B with the full-route loop,
   * when the provider answers the two queries with the matrix durations
   * (500 s and 200 s): the legs run Warehouse to A and A to B, carry those
   * durations, and both draw green.
   */
  lemma ScenarioLegsAreGreen(a: Point, b: Point, replies: nat -> Reply, legs: seq<Leg>)
    requires replies(0).Routed? && replies(0).durationInTraffic == ScenarioMatrix()[0][1]
    requires replies(1).Routed? && replies(1).durationInTraffic == ScenarioMatrix()[1][2]
    requires AllBelow([0, 1, 2], |AllPoints([a, b])|)
    requires Connects(OrderedRoute(AllPoints([a, b]), [0, 1, 2]), legs)
    requires forall k :: 0 <= k < |legs| ==>
               legs[k] == DrawLeg(OrderedRoute(AllPoints([a, b]), [0, 1, 2])[k], OrderedRoute(AllPoints([a, b]), [0, 1, 2])[k + 1], replies(k))
    ensures |legs| == 2
    ensures legs[0].origin == Warehouse && legs[0].destination == a && legs[1].destination == b
    ensures legs[0].quote.duration == 500 && legs[1].quote.duration == 200
    ensures legs[0].color == Green && legs[1].color == Green
  {
    var route := OrderedRoute(AllPoints([a, b]), [0, 1, 2]);
    assert route == [Warehouse, a, b];
    assert legs[0] == DrawLeg(route[0], route[1], replies(0));
    assert legs[1] == DrawLeg(route[1], route[2], replies(1));
  }
}
