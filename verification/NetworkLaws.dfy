/** Laws over several queries to one network, and what a line leaves behind that could not be added. */
module NetworkLaws {
  import opened TransportGraph
  import opened FastestSearch
  import opened AlternativeRoutes
  import opened TravelPlans
  import opened LineNetwork
  import opened TravelTimes
  import opened RouteLaws
  import opened TransportNetworks

  /** A plan's total is that of a fastest path, also for a trip from a station to itself. */
  ghost predicate IsFastestPlan(g: Graph, a: Id, b: Id, path: Path, plan: TravelRoute) {
    && IsFastest(g, Departure(a), b, {}, path)
    && plan.totalTravelTime == Total(path)
    && (plan.steps == [] <==> path == [])
  }

  lemma StayingIsFastest(g: Graph, a: Id)
    requires a in g
    ensures IsFastestPlan(g, a, a, [Departure(a)], StayAt(a))
  {
    forall p | IsRouteTo(g, Departure(a), a, {}, p)
      ensures 0 <= Last(p).dist
    {
    }
  }

  /** The fastest plan, with the path that it follows. */
  method Plan(network: TransportNetwork, a: Id, b: Id) returns (plan: TravelRoute, ghost path: Path)
    requires network.Valid() && a in network.stations && b in network.stations
    ensures IsFastestPlan(network.stations, a, b, path, plan)
  {
    plan, path := network.GetFastestTravelRoute(a, b);
    if a == b {
      StayingIsFastest(network.stations, a);
      path := [Departure(a)];
    }
  }

  /** The plan for two stops of a known route is never slower than staying on the route. */
  method PlanOrRide(network: TransportNetwork, line: Id, route: Id, i: nat, j: nat)
    returns (plan: TravelRoute, ride: nat)
    requires network.Valid() && line in network.lines && route in network.lines[line].routes
    requires i <= j < |network.lines[line].routes[route].stops|
    ensures plan.steps != [] && plan.totalTravelTime <= ride
    ensures ride == RouteTime(network.stations, network.lines[line].routes[route], i, j)
  {
    var r := network.lines[line].routes[route];
    assert StopsKnown(network.stations, r);
    ghost var path;
    plan, path := Plan(network, r.stops[i], r.stops[j]);
    ride := network.GetTravelTimeOnRoute(line, route, r.stops[i], r.stops[j]);
    FastestBeatsSingleRoute(network.stations, network.built, network.nextHandle, r, i, j, path);
  }

  /** A trip by way of B, with a change there, is never quicker than the direct plan. */
  method PlanByWayOf(network: TransportNetwork, a: Id, b: Id, c: Id)
    returns (ab: TravelRoute, bc: TravelRoute, ac: TravelRoute)
    requires network.Valid() && {a, b, c} <= network.stations.Keys
    ensures ab.steps != [] && bc.steps != [] ==>
              ac.steps != [] && ac.totalTravelTime <= ab.totalTravelTime + CHANGE_PENALTY + bc.totalTravelTime
  {
    ghost var pathAB, pathBC, pathAC;
    ab, pathAB := Plan(network, a, b);
    bc, pathBC := Plan(network, b, c);
    ac, pathAC := Plan(network, a, c);
    if ab.steps != [] && bc.steps != [] {
      TriangleWithChange(network.stations, a, b, c, pathAB, pathBC, pathAC);
    }
  }

  // A line that cannot be added

  const FIRST_LEG: Route := Route("r", ["a", "m"])
  const SECOND_LEG: Route := Route("r", ["m", "b"])

  /** A line with two routes of the same identifier. */
  function BadLine(): Line {
    Line("l", "l", [FIRST_LEG, SECOND_LEG])
  }

  lemma BadLineFailsLate(g: Graph, n: nat)
    requires "a" in g && "m" in g && FirstFailure(g, BadLine(), n)
    ensures n == 1
  {
    assert CanAddRoute(g, BadLine(), 0);
    assert !CanAddRoute(g, BadLine(), 1) by {
      assert BadLine().routes[0].id == BadLine().routes[1].id;
    }
  }

  method ThreeStations() returns (network: TransportNetwork)
    ensures fresh(network) && network.Valid() && network.lines == map[] && network.built == []
    ensures network.stations.Keys == {"a", "m", "b"}
  {
    network := new TransportNetwork();
    var ok := network.AddStation(Station("a", "a"));
    ok := network.AddStation(Station("m", "m"));
    ok := network.AddStation(Station("b", "b"));
  }

  /** A network with three stations, to which the line was not added. */
  method FailToAdd() returns (network: TransportNetwork)
    ensures fresh(network) && network.Valid() && network.lines == map[]
    ensures network.stations.Keys == {"a", "m", "b"}
    ensures |network.built| == 1 && network.built[0].line == "l"
    ensures network.built[0].id == "r" && network.built[0].stops == ["a", "m"]
  {
    network := ThreeStations();
    ghost var g, handle := network.stations, network.nextHandle;
    var ok;
    ghost var n;
    ok, n := network.AddLine(BadLine());
    BadLineFailsLate(g, n);
    StationsStay(g, RoutesOf(BadLine(), handle, n));
  }

  /** The station lists a route that belongs to no line. */
  method ListAfterFailure() returns (routes: seq<Id>, known: bool)
    ensures routes == ["r"] && !known
  {
    var network := FailToAdd();
    ghost var served;
    routes, served := network.GetRoutesServingStation("a");
    known := "l" in network.lines;
    var r := network.built[0];
    assert r.stops[..|r.stops| - 1] == ["a"];
    assert GoesOnFrom(network.built, r, "a") && r in served;
    forall i | 0 <= i < |served|
      ensures served[i] == r
    {
      assert served[i] in served && GoesOnFrom(network.built, served[i], "a");
    }
    DistinctRoutesDiffer(served);
  }

  lemma DistinctRoutesDiffer(served: seq<RouteInternal>)
    requires forall i, j :: 0 <= i < j < |served| ==> served[i] != served[j]
    ensures |served| < 2 || served[0] != served[1]
  {
  }

  /** The two routes: one left behind, and one of the line that was added later. */
  ghost predicate LeftAndAdded(built: seq<RouteInternal>) {
    && |built| == 2
    && built[0].stops == ["a", "m"] && built[1].stops == ["m", "b"]
    && built[0].line == built[1].line && built[0].id == built[1].id
  }

  /** Every path from a to b takes the route left behind first and the other one second, and hides the change. */
  lemma ChangeIsHidden(g: Graph, built: seq<RouteInternal>, bound: nat, path: Path)
    requires ProperRoutes(built, bound) && Agrees(g, built) && LeftAndAdded(built)
    requires IsRouteTo(g, Departure("a"), "b", {}, path)
    ensures !ShowsChanges(g, path)
  {
    assert LinkAt(g, {}, path, 1);
    var k := LinkIsLeg(g, built, path[0], path[1]);
    assert path[1].stop.node == "m";
    assert LinkAt(g, {}, path, 2);
    var l := LinkIsLeg(g, built, path[1], path[2]);
    assert HidesChange(g, path, 2);
  }

  lemma SomePathIsThere(g: Graph, built: seq<RouteInternal>, bound: nat) returns (path: Path)
    requires ProperRoutes(built, bound) && Agrees(g, built) && LeftAndAdded(built)
    ensures IsRouteTo(g, Departure("a"), "b", {}, path)
  {
    assert built[0] in built && built[1] in built;
    var p := RideRoute(g, built, bound, built[0], 0, 1);
    var q := RideRoute(g, built, bound, built[1], 0, 1);
    path := JoinJourneys(g, Departure("a"), "m", p, q);
  }

  function LaterLine(): Line {
    Line("l", "l", [SECOND_LEG])
  }

  lemma LaterLineFits(g: Graph)
    requires "m" in g && "b" in g
    ensures CanAddRoutes(g, LaterLine()) && WellFormed(LaterLine())
  {
    assert CanAddRoute(g, LaterLine(), 0);
  }

  lemma RouteAdded(before: seq<RouteInternal>, built: seq<RouteInternal>, handle: nat)
    requires |before| == 1 && before[0].stops == ["a", "m"] && before[0].line == "l" && before[0].id == "r"
    requires built == before + RoutesOf(LaterLine(), handle, 1)
    ensures LeftAndAdded(built)
  {
  }

  /** The network after the line was added under the same identifiers, without the bad route. */
  method AddLater() returns (network: TransportNetwork)
    ensures fresh(network) && network.Valid() && LeftAndAdded(network.built)
    ensures network.stations.Keys == {"a", "m", "b"}
  {
    network := FailToAdd();
    ghost var g, handle, before := network.stations, network.nextHandle, network.built;
    LaterLineFits(g);
    var ok;
    ghost var n;
    ok, n := network.AddLine(LaterLine());
    StationsStay(g, RoutesOf(LaterLine(), handle, n));
    RouteAdded(before, network.built, handle);
  }

  /** The plan takes longer than its steps tell, because the change it makes does not show in them. */
  method PlanAfterFailure() returns (plan: TravelRoute)
    ensures plan.totalTravelTime > StepTime(plan.steps)
  {
    var network := AddLater();
    ghost var path;
    plan, path := network.GetFastestTravelRoute("a", "b");
    var p := SomePathIsThere(network.stations, network.built, network.nextHandle);
    ChangeIsHidden(network.stations, network.built, network.nextHandle, path);
  }
}
