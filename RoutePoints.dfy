/**
 * The character-route tab: every route's path becomes one scatter point per
 * waypoint, tagged with the route's name and colour. Waypoints are kept
 * opaque (the type parameter `W`); only `RoutesData` picks a concrete form.
 */
module RoutePoints {
  import opened SeqFacts

  /** One entry of `ROUTES_DATA`. */
  datatype Route<W> = Route(name: string, color: seq<int>, path: seq<W>, chapters: string)

  /** One entry of `all_points`. */
  datatype Point<W> = Point(coord: W, name: string, color: seq<int>)

  /** The points of one route: one per waypoint, in path order. */
  function RoutePointsOf<W>(r: Route<W>): seq<Point<W>>
  {
    seq(|r.path|, i requires 0 <= i < |r.path| => Point(r.path[i], r.name, r.color))
  }

  /** `all_points`: the routes' points one route after another. */
  function PointsOf<W>(routes: seq<Route<W>>): seq<Point<W>>
  {
    if routes == [] then []
    else PointsOf(routes[..|routes| - 1]) + RoutePointsOf(routes[|routes| - 1])
  }

  /** The number of waypoints over all routes. */
  function Waypoints<W>(routes: seq<Route<W>>): nat
  {
    if routes == [] then 0
    else Waypoints(routes[..|routes| - 1]) + |routes[|routes| - 1].path|
  }

  /**
   * The nested loops of the route tab: for each route, for each waypoint,
   * append a point with that waypoint and the route's name and colour.
   */
  method FlattenRoutes<W>(routes: seq<Route<W>>) returns (points: seq<Point<W>>)
    ensures points == PointsOf(routes)
  {
    points := [];
    for k := 0 to |routes|
      invariant points == PointsOf(routes[..k])
    {
      var r := routes[k];
      TakeSnoc(routes, k);
      ghost var before := points;
      for i := 0 to |r.path|
        invariant points == before + RoutePointsOf(r)[..i]
      {
        assert RoutePointsOf(r)[..i + 1] == RoutePointsOf(r)[..i] + [Point(r.path[i], r.name, r.color)];
        points := points + [Point(r.path[i], r.name, r.color)];
      }
      assert RoutePointsOf(r)[..|r.path|] == RoutePointsOf(r);
    }
    TakeAll(routes);
  }

  /** The points of two runs of routes, the first run's before the second's. */
  lemma {:induction false} PointsOfConcat<W>(a: seq<Route<W>>, b: seq<Route<W>>)
    ensures PointsOf(a + b) == PointsOf(a) + PointsOf(b)
    decreases |b|
  {
    if b == [] {
      AppendEmpty(a, b);
    } else {
      var init, last := b[..|b| - 1], b[|b| - 1];
      ConcatSnoc(a, b);
      PointsOfSnoc(a + init, last);
      PointsOfSnoc(init, last);
      PointsOfConcat(a, init);
    }
  }

  /** There is exactly one point per waypoint. */
  lemma {:induction false} PointsOfLength<W>(routes: seq<Route<W>>)
    ensures |PointsOf(routes)| == Waypoints(routes)
    decreases |routes|
  {
    if routes != [] {
      PointsOfLength(routes[..|routes| - 1]);
    }
  }

  /**
   * Waypoint `i` of route `k` becomes the point at the position after all
   * waypoints of the earlier routes, with that route's name and colour.
   */
  lemma PointsOfAt<W>(routes: seq<Route<W>>, k: nat, i: nat)
    requires k < |routes| && i < |routes[k].path|
    ensures Waypoints(routes[..k]) + i < |PointsOf(routes)|
    ensures PointsOf(routes)[Waypoints(routes[..k]) + i]
         == Point(routes[k].path[i], routes[k].name, routes[k].color)
  {
    var pre, r, post := routes[..k], routes[k], routes[k + 1..];
    AroundOne(routes, k);
    PointsOfConcat(pre + [r], post);
    PointsOfSnoc(pre, r);
    PointsOfLength(pre);
    assert RoutePointsOf(r)[i] == Point(r.path[i], r.name, r.color);
    ConcatAt(PointsOf(pre), RoutePointsOf(r), PointsOf(post), i);
  }

  /** One more route adds its points at the end. */
  lemma PointsOfSnoc<W>(routes: seq<Route<W>>, r: Route<W>)
    ensures PointsOf(routes + [r]) == PointsOf(routes) + RoutePointsOf(r)
  {
    SnocFront(routes, r);
  }

  /** Every point comes from a waypoint of some route and carries that route's name and colour. */
  lemma {:induction false} PointsOfFrom<W>(routes: seq<Route<W>>, j: nat)
    requires j < |PointsOf(routes)|
    ensures exists k, i ::
              0 <= k < |routes| && 0 <= i < |routes[k].path|
              && PointsOf(routes)[j] == Point(routes[k].path[i], routes[k].name, routes[k].color)
    decreases |routes|
  {
    var init, last := routes[..|routes| - 1], routes[|routes| - 1];
    var head := PointsOf(init);
    if j < |head| {
      PointsOfFrom(init, j);
      var k, i :| 0 <= k < |init| && 0 <= i < |init[k].path|
        && head[j] == Point(init[k].path[i], init[k].name, init[k].color);
      assert routes[k] == init[k];
    } else {
      var i := j - |head|;
      assert PointsOf(routes)[j] == Point(last.path[i], last.name, last.color);
    }
  }

  /** A waypoint in hundredths of a degree: longitude, then latitude. */
  datatype Waypoint = Waypoint(lon: int, lat: int)

  /** `ROUTES_DATA`, with its coordinates scaled to hundredths of a degree. */
  const RoutesData: seq<Route<Waypoint>> := [
    Route("Kuang Chaoren", [255, 0, 0],
          [Waypoint(12098, 2812), Waypoint(12015, 3027), Waypoint(12058, 3000), Waypoint(12015, 3027),
           Waypoint(11941, 3239), Waypoint(11640, 3990)],
          "Ch. 15-20"),
    Route("Ma Chunshang", [0, 128, 255],
          [Waypoint(12075, 3075), Waypoint(12015, 3027)],
          "Ch. 13-15"),
    Route("Niu Buyi", [0, 128, 0],
          [Waypoint(12058, 3000), Waypoint(12008, 3089), Waypoint(11941, 3239), Waypoint(11837, 3135)],
          "Ch. 10, 20")
  ]

  /** The three routes give 12 points: 6 for Kuang Chaoren, then 2 for Ma Chunshang, then 4 for Niu Buyi. */
  lemma RoutesDataPoints()
    ensures |PointsOf(RoutesData)| == 12
    ensures forall j :: 0 <= j < 6 ==> PointsOf(RoutesData)[j].name == "Kuang Chaoren"
    ensures forall j :: 6 <= j < 8 ==> PointsOf(RoutesData)[j].name == "Ma Chunshang"
    ensures forall j :: 8 <= j < 12 ==> PointsOf(RoutesData)[j].name == "Niu Buyi"
  {
    var d := RoutesData;
    assert d[..1][..0] == [];
    assert PointsOf(d[..1]) == RoutePointsOf(d[0]);
    assert d[..2][..1] == d[..1];
    assert PointsOf(d[..2]) == RoutePointsOf(d[0]) + RoutePointsOf(d[1]);
    assert d[..3][..2] == d[..2] && d[..3] == d;
    assert PointsOf(d) == RoutePointsOf(d[0]) + RoutePointsOf(d[1]) + RoutePointsOf(d[2]);
  }
}
