/**
 * Places and the directions query (`get_road_route`), with the provider's
 * reply taken as an input, and the three-colour traffic tier.
 */
module Directions {
  import opened Wrappers

  /** A (latitude, longitude) pair in decimal degrees. */
  type LatLng = (real, real)

  /**
   * A stop record after upload parsing: 'Trade Name', the two halves of
   * 'Map Coordinates', and 'AVERAGE PER PURCHASE'. The warehouse record
   * has no sales entry. The solver never reads `sales`.
   */
  datatype Point = Point(name: string, lat: real, lng: real, sales: Option<real>)

  const Warehouse: Point := Point("Warehouse", 6.189746, 125.089500, None)

  /**
   * What a directions query comes back with: a route (its overview polyline
   * already decoded, and the leg's `duration_in_traffic` in seconds), a
   * response whose status is not "OK", or a failed HTTP request.
   */
  datatype Reply =
    | Routed(path: seq<LatLng>, durationInTraffic: nat)
    | StatusNotOk(status: string)
    | RequestFailed

  /** The (coordinates, traffic_duration) pair a query returns. */
  datatype Quote = Quote(path: seq<LatLng>, duration: nat)

  function Position(p: Point): LatLng {
    (p.lat, p.lng)
  }

  /** Models `get_road_route(start, end)` once the provider has replied. */
  function RoadRoute(origin: Point, destination: Point, reply: Reply): Quote {
    match reply
    case Routed(path, duration) => Quote(path, duration)
    case StatusNotOk(_) => Quote([Position(origin), Position(destination)], 0)
    case RequestFailed => Quote([Position(origin), Position(destination)], 0)
  }

  /** A successful query hands the provider's geometry and traffic duration through unchanged. */
  lemma RoutedQuoteIsProviderResult(origin: Point, destination: Point, reply: Reply)
    requires reply.Routed?
    ensures RoadRoute(origin, destination, reply).path == reply.path
    ensures RoadRoute(origin, destination, reply).duration == reply.durationInTraffic
  {
  }

  /**
   * A failed query degrades to the straight line from origin to destination,
   * two points, taking no time, which draws green.
   */
  lemma FailedQuoteIsStraightLine(origin: Point, destination: Point, reply: Reply)
    requires !reply.Routed?
    ensures |RoadRoute(origin, destination, reply).path| == 2
    ensures RoadRoute(origin, destination, reply).path[0] == Position(origin)
    ensures RoadRoute(origin, destination, reply).path[1] == Position(destination)
    ensures RoadRoute(origin, destination, reply).duration == 0
    ensures LineColor(RoadRoute(origin, destination, reply).duration) == Green
  {
  }

  /** The polyline colour of a segment. */
  datatype Tier = Green | Yellow | Red

  /** Models `"green" if d < 600 else "yellow" if d < 1800 else "red"`. */
  function LineColor(duration: nat): Tier {
    if duration < 600 then Green else if duration < 1800 then Yellow else Red
  }

  function Rank(t: Tier): nat {
    match t
    case Green => 0
    case Yellow => 1
    case Red => 2
  }

  /** The three bands: under 10 minutes, 10 to under 30 minutes, 30 minutes and more. */
  lemma LineColorBands(duration: nat)
    ensures LineColor(duration) == Green <==> duration < 600
    ensures LineColor(duration) == Yellow <==> 600 <= duration < 1800
    ensures LineColor(duration) == Red <==> 1800 <= duration
  {
  }

  /** The boundaries fall on the lower side of each band. */
  lemma LineColorBoundaries()
    ensures LineColor(599) == Green && LineColor(600) == Yellow
    ensures LineColor(1799) == Yellow && LineColor(1800) == Red
  {
  }

  /** A longer trip never draws a milder colour. */
  lemma LineColorIsMonotone(d1: nat, d2: nat)
    requires d1 <= d2
    ensures Rank(LineColor(d1)) <= Rank(LineColor(d2))
  {
  }
}
