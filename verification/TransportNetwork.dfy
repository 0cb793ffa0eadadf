/** The network: stations, lines, travel times and passenger counts, and the queries on them. */
module TransportNetworks {
  import opened Wrappers
  import opened TransportGraph
  import opened FastestSearch
  import opened AlternativeRoutes
  import opened TravelPlans
  import opened LineNetwork
  import opened TravelTimes
  import opened LateRoutes
  import opened PassengerCounts

  datatype Station = Station(id: Id, name: string)

  datatype Route = Route(id: Id, stops: seq<Id>)

  datatype Line = Line(id: Id, name: string, routes: seq<Route>)

  datatype LineInternal = LineInternal(id: Id, name: string, routes: map<Id, RouteInternal>)

  /** The line data structure assumes at least two stops per route and no repeated stop. */
  ghost predicate WellFormed(line: Line) {
    forall r :: r in line.routes ==> WellFormedStops(r.stops)
  }

  /** The internal object made for a route of a line. */
  function MakeRoute(handle: nat, line: Id, route: Route): RouteInternal {
    RouteInternal(handle, route.id, line, route.stops)
  }

  function WithinLine(line: LineInternal, r: RouteInternal): LineInternal {
    line.(routes := line.routes[r.id := r])
  }

  /** The internal routes made for the first `n` routes of a line. */
  function RoutesOf(line: Line, handle: nat, n: nat): (routes: seq<RouteInternal>)
    requires n <= |line.routes|
    ensures |routes| == n
    ensures forall i :: 0 <= i < n ==>
              routes[i] == MakeRoute(handle + i, line.id, line.routes[i])
  {
    seq(n, i requires 0 <= i < n => MakeRoute(handle + i, line.id, line.routes[i]))
  }

  lemma NextRouteOf(before: seq<RouteInternal>, line: Line, handle: nat, n: nat)
    requires n < |line.routes|
    ensures before + RoutesOf(line, handle, n + 1) ==
            (before + RoutesOf(line, handle, n)) + [MakeRoute(handle + n, line.id, line.routes[n])]
    ensures RoutesOf(line, handle, n + 1) ==
            RoutesOf(line, handle, n) + [MakeRoute(handle + n, line.id, line.routes[n])]
  {
  }

  /** The line under construction holds exactly the given routes, each under its identifier. */
  ghost predicate Holds(l: LineInternal, routes: seq<RouteInternal>) {
    && (forall r :: r in routes ==> r.id in l.routes && l.routes[r.id] == r)
    && (forall id :: id in l.routes ==> l.routes[id] in routes && l.routes[id].id == id)
  }

  lemma HoldsOneMore(l: LineInternal, routes: seq<RouteInternal>, r: RouteInternal)
    requires Holds(l, routes) && r.id !in l.routes
    ensures Holds(WithinLine(l, r), routes + [r])
  {
    assert forall s :: s in routes + [r] <==> s in routes || s == r;
  }

  /** The first `n` routes of a line have been added to what was there before. */
  ghost predicate Progress(g0: Graph, built0: seq<RouteInternal>, g: Graph, built: seq<RouteInternal>,
                           line: Line, handle: nat, n: nat, l: LineInternal)
    requires n <= |line.routes|
  {
    && built == built0 + RoutesOf(line, handle, n)
    && g == WithRoutes(g0, RoutesOf(line, handle, n))
    && g.Keys == g0.Keys
    && l.id == line.id
    && Holds(l, RoutesOf(line, handle, n))
    && CanAddFirst(g0, line, n)
  }

  lemma MoreProgress(g0: Graph, built0: seq<RouteInternal>, g: Graph, built: seq<RouteInternal>,
                     line: Line, handle: nat, n: nat, l: LineInternal, r: RouteInternal)
    requires n < |line.routes| && Progress(g0, built0, g, built, line, handle, n, l)
    requires r == MakeRoute(handle + n, line.id, line.routes[n])
    requires CanAddRoute(g0, line, n)
    ensures Progress(g0, built0, WithRoute(g, r), built + [r], line, handle, n + 1, WithinLine(l, r))
  {
    ProgressAdmits(g0, built0, g, built, line, handle, n, l);
    NextRouteOf(built0, line, handle, n);
    HoldsOneMore(l, RoutesOf(line, handle, n), r);
    WithOneMoreRoute(g0, RoutesOf(line, handle, n), r);
  }

  /** A line in progress can take a further route unless its identifier is in use or a stop is unknown. */
  lemma ProgressAdmits(g0: Graph, built0: seq<RouteInternal>, g: Graph, built: seq<RouteInternal>,
                       line: Line, handle: nat, n: nat, l: LineInternal)
    requires n < |line.routes| && Progress(g0, built0, g, built, line, handle, n, l)
    ensures CanAddRoute(g0, line, n) <==>
              line.routes[n].id !in l.routes && forall s :: s in line.routes[n].stops ==> s in g
  {
    var routes := RoutesOf(line, handle, n);
    assert forall i :: 0 <= i < n ==> routes[i] in routes && routes[i].id == line.routes[i].id;
    if line.routes[n].id in l.routes {
      assert l.routes[line.routes[n].id] in routes;
    }
  }

  lemma RegisteredLineIsConsistent(stations: Graph, lines: map<Id, LineInternal>, nextHandle: nat,
                                   built: seq<RouteInternal>, before: seq<RouteInternal>,
                                   l: LineInternal, routes: seq<RouteInternal>)
    requires Consistent(stations, lines, nextHandle, built) && built == before + routes
    requires Holds(l, routes) && forall r :: r in routes ==> r.line == l.id
    requires l.id !in lines
    ensures Consistent(stations, lines[l.id := l], nextHandle, built)
    ensures forall r :: r in routes ==> IsRegistered(lines[l.id := l], r)
    ensures (forall r :: r in before ==> IsRegistered(lines, r)) ==>
              forall r :: r in built ==> IsRegistered(lines[l.id := l], r)
  {
    assert forall r :: r in built <==> r in before || r in routes;
  }

  /** The `n`-th route of a line has an identifier of its own and runs through known stations. */
  ghost predicate CanAddRoute(g: Graph, line: Line, n: nat)
    requires n < |line.routes|
  {
    && (forall i :: 0 <= i < n ==> line.routes[i].id != line.routes[n].id)
    && (forall s :: s in line.routes[n].stops ==> s in g)
  }

  /** The first `n` routes of a line can be added. */
  ghost predicate CanAddFirst(g: Graph, line: Line, n: nat)
    requires n <= |line.routes|
  {
    forall i {:trigger CanAddRoute(g, line, i)} :: 0 <= i < n ==> CanAddRoute(g, line, i)
  }

  ghost predicate CanAddRoutes(g: Graph, line: Line) {
    CanAddFirst(g, line, |line.routes|)
  }

  /** The routes before the `n`-th can be added, and the `n`-th, if there is one, cannot. */
  ghost predicate FirstFailure(g: Graph, line: Line, n: nat) {
    n <= |line.routes| && CanAddFirst(g, line, n) && (n < |line.routes| ==> !CanAddRoute(g, line, n))
  }

  lemma AddedRoutesShow(g: Graph, line: Line, handle: nat, n: nat)
    requires WellFormed(line) && 0 < n <= |line.routes| && CanAddFirst(g, line, n)
    ensures WithRoutes(g, RoutesOf(line, handle, n)) != g
  {
    assert CanAddRoute(g, line, n - 1) && line.routes[n - 1] in line.routes;
    RoutesLeaveEdges(g, RoutesOf(line, handle, n));
  }

  lemma AddedRoutesKeepUniform(g: Graph, line: Line, handle: nat, n: nat)
    requires Uniform(g) && WellFormed(line) && n <= |line.routes| && CanAddFirst(g, line, n)
    ensures Uniform(WithRoutes(g, RoutesOf(line, handle, n))) <==> AllUntimed(g, RoutesOf(line, handle, n))
  {
    var routes := RoutesOf(line, handle, n);
    forall i | 0 <= i < n
      ensures WellFormedStops(routes[i].stops) && StopsKnown(g, routes[i])
    {
      assert CanAddRoute(g, line, i) && line.routes[i] in line.routes;
    }
    RoutesKeepUniform(g, routes);
  }

  lemma SameStationsSameRoutes(g: Graph, h: Graph, line: Line)
    requires g.Keys == h.Keys
    ensures CanAddRoutes(g, line) <==> CanAddRoutes(h, line)
  {
    assert forall n :: 0 <= n < |line.routes| ==> (CanAddRoute(g, line, n) <==> CanAddRoute(h, line, n));
  }

  /** Every line has an identifier of its own, and all its routes can be added. */
  ghost predicate CanAddLines(g: Graph, lines: map<Id, LineInternal>, newLines: seq<Line>) {
    && (forall l :: l in newLines ==> l.id !in lines && CanAddRoutes(g, l))
    && (forall i, j :: 0 <= i < j < |newLines| ==> newLines[i].id != newLines[j].id)
  }

  /** Every station has an identifier of its own. */
  ghost predicate CanAddStations(g: Graph, newStations: seq<Station>) {
    && (forall s :: s in newStations ==> s.id !in g)
    && (forall i, j :: 0 <= i < j < |newStations| ==> newStations[i].id != newStations[j].id)
  }

  function StationIds(newStations: seq<Station>): set<Id> {
    set s | s in newStations :: s.id
  }

  function LineIds(newLines: seq<Line>): set<Id> {
    set l | l in newLines :: l.id
  }

  /** Whether the next station can be added decides whether all can be added so far, and bars the rest if not. */
  lemma NextStation(g: Graph, newStations: seq<Station>, i: nat, known: set<Id>)
    requires i < |newStations| && CanAddStations(g, newStations[..i])
    requires known == g.Keys + StationIds(newStations[..i])
    ensures newStations[i].id !in known ==> CanAddStations(g, newStations[..i + 1])
    ensures newStations[i].id in known ==> !CanAddStations(g, newStations)
    ensures known + {newStations[i].id} == g.Keys + StationIds(newStations[..i + 1])
  {
    var s := newStations[i];
    assert newStations[..i + 1] == newStations[..i] + [s];
    assert forall t :: t in newStations[..i + 1] <==> t in newStations[..i] || t == s;
    assert s in newStations;
    if s.id in known && s.id !in g {
      var j :| 0 <= j < i && newStations[..i][j].id == s.id;
      assert newStations[j].id == newStations[i].id;
    }
    assert forall j :: 0 <= j < i ==> newStations[j] in newStations[..i];
  }

  lemma NextLine(g: Graph, lines: map<Id, LineInternal>, newLines: seq<Line>, i: nat, known: set<Id>)
    requires i < |newLines| && CanAddLines(g, lines, newLines[..i])
    requires known == lines.Keys + LineIds(newLines[..i])
    ensures newLines[i].id !in known && CanAddRoutes(g, newLines[i]) ==> CanAddLines(g, lines, newLines[..i + 1])
    ensures newLines[i].id in known || !CanAddRoutes(g, newLines[i]) ==> !CanAddLines(g, lines, newLines)
    ensures known + {newLines[i].id} == lines.Keys + LineIds(newLines[..i + 1])
    ensures newLines[..i + 1] == newLines[..i] + [newLines[i]]
  {
    var l := newLines[i];
    assert newLines[..i + 1] == newLines[..i] + [l];
    assert forall m :: m in newLines[..i + 1] <==> m in newLines[..i] || m == l;
    assert l in newLines;
    if l.id in known && l.id !in lines {
      var j :| 0 <= j < i && newLines[..i][j].id == l.id;
      assert newLines[j].id == newLines[i].id;
    }
    assert forall j :: 0 <= j < i ==> newLines[j] in newLines[..i];
  }

  /** The line is known, with each of its routes. */
  ghost predicate Knows(lines: map<Id, LineInternal>, line: Line) {
    && line.id in lines && lines[line.id].name == line.name
    && (forall r :: r in line.routes ==>
          r.id in lines[line.id].routes && lines[line.id].routes[r.id].stops == r.stops)
  }

  ghost predicate AllKnow(lines: map<Id, LineInternal>, newLines: seq<Line>) {
    forall l :: l in newLines ==> Knows(lines, l)
  }

  lemma LinesStayKnown(before: map<Id, LineInternal>, lines: map<Id, LineInternal>, newLines: seq<Line>, next: Line)
    requires AllKnow(before, newLines) && Knows(lines, next)
    requires forall l :: l in before ==> l in lines && lines[l] == before[l]
    ensures AllKnow(lines, newLines + [next])
  {
  }

  /** The lines are those known before, unchanged, and the new ones. */
  ghost predicate HasJust(lines: map<Id, LineInternal>, lines0: map<Id, LineInternal>, newLines: seq<Line>) {
    lines.Keys == lines0.Keys + LineIds(newLines) && forall l :: l in lines0 ==> l in lines && lines[l] == lines0[l]
  }

  /** The first `n` of the new lines have been added to what was there before. */
  ghost predicate Loaded(g0: Graph, lines0: map<Id, LineInternal>, g: Graph, lines: map<Id, LineInternal>,
                         newLines: seq<Line>, n: nat)
    requires n <= |newLines|
  {
    && g.Keys == g0.Keys
    && CanAddLines(g0, lines0, newLines[..n])
    && HasJust(lines, lines0, newLines[..n])
    && AllKnow(lines, newLines[..n])
  }

  lemma LoadedOneMore(g0: Graph, lines0: map<Id, LineInternal>, before: Graph, linesBefore: map<Id, LineInternal>,
                      g: Graph, lines: map<Id, LineInternal>, newLines: seq<Line>, n: nat)
    requires n < |newLines| && Loaded(g0, lines0, before, linesBefore, newLines, n)
    requires newLines[n].id !in linesBefore && CanAddRoutes(g0, newLines[n])
    requires g.Keys == before.Keys && Knows(lines, newLines[n])
    requires lines == linesBefore[newLines[n].id := lines[newLines[n].id]]
    ensures Loaded(g0, lines0, g, lines, newLines, n + 1)
  {
    NextLine(g0, lines0, newLines, n, linesBefore.Keys);
    LinesStayKnown(linesBefore, lines, newLines[..n], newLines[n]);
  }

  lemma HeldLineIsKnown(lines: map<Id, LineInternal>, line: Line, handle: nat)
    requires line.id in lines && lines[line.id].name == line.name
    requires Holds(lines[line.id], RoutesOf(line, handle, |line.routes|))
    ensures Knows(lines, line)
  {
    forall r | r in line.routes
      ensures r.id in lines[line.id].routes && lines[line.id].routes[r.id].stops == r.stops
    {
      var i :| 0 <= i < |line.routes| && line.routes[i] == r;
      assert MakeRoute(handle + i, line.id, r) == RoutesOf(line, handle, |line.routes|)[i];
    }
  }

  function NewNode(station: Station): GraphNode {
    GraphNode(station.id, station.name, 0, [])
  }

  /** The graph after a list of stations is added. */
  function WithStations(g: Graph, newStations: seq<Station>): Graph {
    if newStations == [] then g
    else
      var last := newStations[|newStations| - 1];
      WithStations(g, newStations[..|newStations| - 1])[last.id := NewNode(last)]
  }

  lemma {:induction false} StationsStartUntimed(g: Graph, newStations: seq<Station>)
    requires Untimed(g)
    ensures Untimed(WithStations(g, newStations))
    decreases |newStations|
  {
    if newStations != [] {
      StationsStartUntimed(g, newStations[..|newStations| - 1]);
    }
  }

  predicate IsRegistered(lines: map<Id, LineInternal>, r: RouteInternal) {
    r.line in lines && r.id in lines[r.line].routes && lines[r.line].routes[r.id] == r
  }

  /** The consistency of a network, over its parts. */
  ghost predicate Consistent(stations: Graph, lines: map<Id, LineInternal>, nextHandle: nat,
                             built: seq<RouteInternal>)
  {
    && (forall x :: x in stations ==> stations[x].id == x)
    && ProperRoutes(built, nextHandle)
    && Agrees(stations, built)
    && (forall l :: l in lines ==> lines[l].id == l)
    && (forall l, id :: l in lines && id in lines[l].routes ==>
          var r := lines[l].routes[id];
          r.id == id && r.line == l && r in built)
  }

  lemma RouteKeepsConsistent(stations: Graph, lines: map<Id, LineInternal>, built: seq<RouteInternal>, r: RouteInternal)
    requires Consistent(stations, lines, r.handle, built)
    requires WellFormedStops(r.stops) && forall s :: s in r.stops ==> s in stations
    ensures Consistent(WithRoute(stations, r), lines, r.handle + 1, built + [r])
  {
    WithRouteAgrees(stations, built, r);
    var more := built + [r];
    assert forall i :: 0 <= i < |built| ==> more[i] in built;
    assert forall s :: s in more <==> s in built || s == r;
  }

  lemma SameHopsStayConsistent(g: Graph, h: Graph, lines: map<Id, LineInternal>, nextHandle: nat,
                               built: seq<RouteInternal>)
    requires Consistent(g, lines, nextHandle, built) && h.Keys == g.Keys
    requires forall x :: x in g ==> h[x].id == g[x].id && HopsOf(h[x].edges) == HopsOf(g[x].edges)
    ensures Consistent(h, lines, nextHandle, built)
  {
    SameHopsAgree(g, h, built);
  }

  lemma NewStationStaysConsistent(g: Graph, lines: map<Id, LineInternal>, nextHandle: nat,
                                  built: seq<RouteInternal>, node: GraphNode)
    requires Consistent(g, lines, nextHandle, built) && node.id !in g && node.edges == []
    ensures Consistent(g[node.id := node], lines, nextHandle, built)
  {
    var h := g[node.id := node];
    forall r | r in built
      ensures StopsKnown(h, r) && node.id !in r.stops
    {
      assert StopsKnown(g, r);
    }
    forall x | x in h
      ensures HopsAgree(h, built, x)
    {
      if x == node.id {
        UnknownStationHasNoHops(built, x);
      } else {
        assert HopsAgree(g, built, x);
      }
    }
  }

  /** Two routes of known lines with the same line and identifier are one. */
  lemma RegisteredRoutesAreIdentified(g: Graph, lines: map<Id, LineInternal>, nextHandle: nat,
                                      built: seq<RouteInternal>)
    requires Consistent(g, lines, nextHandle, built)
    requires forall r :: r in built ==> IsRegistered(lines, r)
    ensures RoutesIdentified(g)
  {
    forall e | HasEdge(g, e)
      ensures IsRegistered(lines, EdgeAt(g, e).route)
    {
      LeavingRoutes(g, built, nextHandle, e.from);
      assert GoesOnFrom(built, g[e.from].edges[e.idx].route, e.from);
    }
  }

  predicate LeadsTo(edges: seq<GraphEdge>, to: Id) {
    exists i :: 0 <= i < |edges| && edges[i].nextStop == to
  }

  /** An edge is found on the way there or back exactly when some edge connects the two stations. */
  lemma FoundEdgesConnect(g: Graph, a: Id, b: Id, travelTime: nat)
    requires a in g && b in g
    ensures (exists r :: Connects(g, r, a, b)) <==>
              LeadsTo(g[a].edges, b) || LeadsTo(Retime(g, a, b, travelTime)[b].edges, a)
  {
    var h := Retime(g, a, b, travelTime);
    if r :| Connects(g, r, a, b) {
      if r.from == a && EdgeAt(g, r).nextStop == b {
        assert g[a].edges[r.idx].nextStop == b;
      } else {
        assert h[b].edges[r.idx].nextStop == a;
      }
    }
    if i :| 0 <= i < |g[a].edges| && g[a].edges[i].nextStop == b {
      assert Connects(g, EdgeRef(a, i), a, b);
    }
    if i :| 0 <= i < |h[b].edges| && h[b].edges[i].nextStop == a {
      assert Connects(g, EdgeRef(b, i), a, b);
    }
  }

  lemma SettingStaysConsistent(g: Graph, a: Id, b: Id, travelTime: nat, lines: map<Id, LineInternal>,
                               nextHandle: nat, built: seq<RouteInternal>)
    requires Consistent(g, lines, nextHandle, built) && a in g && b in g
    ensures Consistent(RetimeBoth(g, a, b, travelTime), lines, nextHandle, built)
  {
    SameHopsStayConsistent(g, RetimeBoth(g, a, b, travelTime), lines, nextHandle, built);
  }

  lemma PassengersStayConsistent(g: Graph, x: Id, n: int, lines: map<Id, LineInternal>,
                                 nextHandle: nat, built: seq<RouteInternal>)
    requires Consistent(g, lines, nextHandle, built)
    ensures Consistent(WithPassengers(g, x, n), lines, nextHandle, built)
  {
    SameHopsStayConsistent(g, WithPassengers(g, x, n), lines, nextHandle, built);
  }

  /** `t` is the time along a route from A to B if B comes at or after A on it, and 0 otherwise. */
  ghost predicate IsTimeOnRoute(g: Graph, r: RouteInternal, a: Id, b: Id, t: nat) {
    && (forall i, j :: 0 <= i <= j < |r.stops| && r.stops[i] == a && r.stops[j] == b ==> t == RouteTime(g, r, i, j))
    && ((forall i, j :: 0 <= i <= j < |r.stops| ==> r.stops[i] != a || r.stops[j] != b) ==> t == 0)
  }

  /** A stop where a route has an edge is not its last. */
  lemma LastStopHasNoEdge(g: Graph, built: seq<RouteInternal>, bound: nat, r: RouteInternal, idx: nat)
    requires ProperRoutes(built, bound) && Agrees(g, built) && r in built
    requires idx < |r.stops| && r.stops[idx] in g
    requires EdgeIndex(g[r.stops[idx]].edges, r) < |g[r.stops[idx]].edges|
    ensures idx + 1 < |r.stops|
  {
    var x := r.stops[idx];
    LeavingRoutes(g, built, bound, x);
    assert GoesOnFrom(built, g[x].edges[EdgeIndex(g[x].edges, r)].route, x);
  }

  /** With B at the `j`-th stop, the time is the one from A's stop `i`, or 0 if A is not met before. */
  lemma StopsAreUnique(g: Graph, r: RouteInternal, i: nat, j: nat, foundA: bool, a: Id, b: Id)
    requires WellFormedStops(r.stops) && i <= j < |r.stops| && r.stops[j] == b
    requires if foundA then r.stops[i] == a else forall k :: 0 <= k <= j ==> r.stops[k] != a
    ensures IsTimeOnRoute(g, r, a, b, if foundA then RouteTime(g, r, i, j) else 0)
  {
    forall x, y | 0 <= x <= y < |r.stops| && r.stops[x] == a && r.stops[y] == b
      ensures y == j && foundA && x == i
    {
    }
  }

  lemma EarlierStopsHaveEdge(g: Graph, built: seq<RouteInternal>, bound: nat, r: RouteInternal, idx: nat)
    requires ProperRoutes(built, bound) && Agrees(g, built) && r in built
    requires idx < |r.stops| && r.stops[idx] in g
    requires EdgeIndex(g[r.stops[idx]].edges, r) == |g[r.stops[idx]].edges|
    ensures idx + 1 == |r.stops|
  {
    if idx + 1 < |r.stops| {
      var x := r.stops[idx];
      assert LegAt(r, idx, x, r.stops[idx + 1]);
      var i := RouteHasOneEdge(g, built, bound, x, r, idx, r.stops[idx + 1]);
      assert false;
    }
  }

  /** The identifiers listed are those of distinct routes. */
  ghost predicate IsListing(ids: seq<Id>, served: seq<RouteInternal>) {
    && |ids| == |served|
    && (forall i :: 0 <= i < |ids| ==> ids[i] == served[i].id)
    && (forall i, j :: 0 <= i < j < |served| ==> served[i] != served[j])
  }

  /**
   * The plan's total is at least the time of its steps, changes included, and exactly that if and only if all
   * changes of route show in the steps.
   */
  ghost predicate TellsTime(g: Graph, path: Path, plan: TravelRoute) {
    && plan.totalTravelTime >= StepTime(plan.steps)
    && (if path == [] then plan.totalTravelTime == StepTime(plan.steps)
        else IsPath(g, {}, path) && (plan.totalTravelTime == StepTime(plan.steps) <==> ShowsChanges(g, path)))
  }

  /** The plan's total and steps are those of the path, and the steps lead from A to B. */
  ghost predicate IsPlanOf(g: Graph, a: Id, b: Id, path: Path, plan: TravelRoute) {
    && plan.startStationId == a && plan.endStationId == b
    && plan.totalTravelTime == Total(path)
    && (if path == [] then plan.steps == [] else Follows(g, path, plan.steps) && LeadsFrom(a, b, plan.steps))
  }

  /** The step rides a leg of one of the routes, with its line and identifier. */
  ghost predicate RidesLeg(routes: seq<RouteInternal>, step: TravelStep) {
    exists r, k :: r in routes && r.line == step.lineId && r.id == step.routeId &&
                   LegAt(r, k, step.startStationId, step.endStationId)
  }

  /** The step rides a leg of the known route that it names. */
  ghost predicate RidesKnownLeg(lines: map<Id, LineInternal>, step: TravelStep) {
    && step.lineId in lines && step.routeId in lines[step.lineId].routes
    && exists k :: LegAt(lines[step.lineId].routes[step.routeId], k, step.startStationId, step.endStationId)
  }

  /** Every step of a plan rides a leg of a route. */
  lemma StepsRideLegs(g: Graph, routes: seq<RouteInternal>, path: Path, steps: seq<TravelStep>)
    requires Agrees(g, routes) && IsPath(g, {}, path) && Follows(g, path, steps)
    ensures forall step :: step in steps ==> RidesLeg(routes, step)
  {
    forall i | 0 <= i < |steps|
      ensures RidesLeg(routes, steps[i])
    {
      assert FollowsAt(g, path, steps, i) && LinkAt(g, {}, path, i + 1);
      var k := LinkIsLeg(g, routes, path[i], path[i + 1]);
    }
  }

  /** With uniform times, every step takes the time between its stations. */
  lemma StepsTakeTheirTime(g: Graph, path: Path, steps: seq<TravelStep>)
    requires Uniform(g) && IsPath(g, {}, path) && Follows(g, path, steps)
    ensures forall step :: step in steps ==>
              step.travelTime == TravelTimeBetween(g, step.startStationId, step.endStationId)
  {
    forall i | 0 <= i < |steps|
      ensures steps[i].travelTime == TravelTimeBetween(g, steps[i].startStationId, steps[i].endStationId)
    {
      assert FollowsAt(g, path, steps, i) && LinkAt(g, {}, path, i + 1);
      assert Connects(g, path[i + 1].stop.edge.value, steps[i].startStationId, steps[i].endStationId);
      UniformTimes(g, steps[i].startStationId, steps[i].endStationId);
    }
  }

  lemma PathsAreInNetwork(g: Graph, a: Id, b: Id, paths: seq<Path>)
    requires forall p :: p in paths ==> IsTrip(g, a, b, p)
    ensures InNetwork(g, paths)
  {
    forall p: Path, i | p in paths && 0 <= i < |p|
      ensures p[i].stop.node in g
    {
      PathStops(g, {}, p, i, i);
    }
  }

  /** The known routes that go on from or end at a station are those that contain it. */
  lemma ServingMeansContaining(g: Graph, lines: map<Id, LineInternal>, nextHandle: nat,
                               built: seq<RouteInternal>, r: RouteInternal, x: Id)
    requires Consistent(g, lines, nextHandle, built)
    ensures IsRegistered(lines, r) && x in r.stops <==>
              (GoesOnFrom(built, r, x) || EndsAt(r, x)) && IsRegistered(lines, r)
    ensures GoesOnFrom(built, r, x) ==> !EndsAt(r, x)
  {
    if IsRegistered(lines, r) {
      assert r in built;
      assert r.stops == r.stops[..|r.stops| - 1] + [r.stops[|r.stops| - 1]];
    }
  }

  /** The route ends at `x`. */
  predicate EndsAt(r: RouteInternal, x: Id) {
    |r.stops| > 0 && r.stops[|r.stops| - 1] == x
  }

  class TransportNetwork {
    var stations: Graph
    var lines: map<Id, LineInternal>
    // The handle of the next route object to be made.
    var nextHandle: nat
    // Every route whose edges were added, in order: those of the lines, and those of lines that failed
    // to be added part way.
    ghost var built: seq<RouteInternal>

    ghost predicate Valid()
      reads this
    {
      Consistent(stations, lines, nextHandle, built)
    }

    /** Whether all edges belong to routes of known lines: no line failed to be added part way. */
    ghost predicate NoOrphans()
      reads this
    {
      forall r :: r in built ==> IsRegistered(lines, r)
    }

    /** The steps ride legs of routes, of known ones if there are no others, and take the times between stations. */
    ghost predicate RidesLegs(steps: seq<TravelStep>)
      reads this
    {
      && (forall step :: step in steps ==> RidesLeg(built, step))
      && (NoOrphans() ==> forall step :: step in steps ==> RidesKnownLeg(lines, step))
      && (Uniform(stations) ==> forall step :: step in steps ==>
            step.travelTime == TravelTimeBetween(stations, step.startStationId, step.endStationId))
    }

    constructor ()
      ensures Valid() && NoOrphans()
      ensures stations == map[] && lines == map[] && built == []
    {
      stations, lines, nextHandle := map[], map[], 0;
      built := [];
    }

    method AddStation(station: Station) returns (ok: bool)
      requires Valid()
      modifies this
      ensures Valid() && lines == old(lines) && built == old(built)
      ensures ok <==> station.id !in old(stations)
      ensures stations == if ok then old(stations)[station.id := GraphNode(station.id, station.name, 0, [])]
                                else old(stations)
    {
      if station.id in stations {
        return false;
      }
      NewStationStaysConsistent(stations, lines, nextHandle, built, GraphNode(station.id, station.name, 0, []));
      stations := stations[station.id := GraphNode(station.id, station.name, 0, [])];
      return true;
    }

    method AllKnown(stops: seq<Id>) returns (known: bool)
      ensures known <==> forall s :: s in stops ==> s in stations
    {
      for i := 0 to |stops|
        invariant forall j :: 0 <= j < i ==> stops[j] in stations
      {
        if stops[i] !in stations {
          return false;
        }
      }
      return true;
    }

    /** Walks the stops of a route to add an edge at each but the last. */
    method AddEdges(r: RouteInternal)
      requires |r.stops| > 0 && forall s :: s in r.stops ==> s in stations
      modifies this`stations
      ensures stations == WithRoute(old(stations), r)
    {
      ghost var before := stations;
      NoLegAdded(before, r);
      for idx := 0 to |r.stops| - 1
        invariant stations == WithLegs(before, r, idx)
      {
        LegAdded(before, r, idx);
        var thisStop, nextStop := r.stops[idx], r.stops[idx + 1];
        var node := stations[thisStop];
        stations := stations[thisStop := node.(edges := node.edges + [GraphEdge(r, nextStop, 0)])];
      }
    }

    /** Adds the route's edges to the graph and the route to its line, or changes nothing. */
    method AddRouteToLine(route: Route, lineInternal: LineInternal) returns (ok: bool, extended: LineInternal)
      requires Valid() && WellFormedStops(route.stops)
      modifies this`stations, this`nextHandle, this`built
      ensures Valid()
      ensures ok <==> route.id !in lineInternal.routes && forall s :: s in route.stops ==> s in old(stations)
      ensures ok ==> built == old(built) + [MakeRoute(old(nextHandle), lineInternal.id, route)]
      ensures ok ==> stations == WithRoute(old(stations), MakeRoute(old(nextHandle), lineInternal.id, route))
      ensures ok ==> nextHandle == old(nextHandle) + 1
      ensures ok ==> extended == WithinLine(lineInternal, MakeRoute(old(nextHandle), lineInternal.id, route))
      ensures !ok ==> built == old(built) && stations == old(stations) && nextHandle == old(nextHandle)
      ensures !ok ==> extended == lineInternal
    {
      extended := lineInternal;
      if route.id in lineInternal.routes {
        return false, extended;
      }
      var known := AllKnown(route.stops);
      if !known {
        return false, extended;
      }
      var r := MakeRoute(nextHandle, lineInternal.id, route);
      RouteKeepsConsistent(stations, lines, built, r);
      AddEdges(r);
      nextHandle := nextHandle + 1;
      built := built + [r];
      extended := WithinLine(lineInternal, r);
      return true, extended;
    }

    /** Adds the `i`-th route of a line after those before it. */
    method AddNextRoute(line: Line, i: nat, lineInternal: LineInternal,
                        ghost g0: Graph, ghost built0: seq<RouteInternal>, ghost handle: nat)
      returns (ok: bool, extended: LineInternal)
      requires Valid() && WellFormed(line) && i < |line.routes| && nextHandle == handle + i
      requires Progress(g0, built0, stations, built, line, handle, i, lineInternal)
      modifies this`stations, this`nextHandle, this`built
      ensures Valid() && (ok <==> CanAddRoute(g0, line, i)) && extended.name == lineInternal.name
      ensures ok ==> nextHandle == handle + i + 1
      ensures ok ==> Progress(g0, built0, stations, built, line, handle, i + 1, extended)
      ensures !ok ==> stations == old(stations) && built == old(built) && extended == lineInternal
    {
      assert line.routes[i] in line.routes;
      ProgressAdmits(g0, built0, stations, built, line, handle, i, lineInternal);
      if CanAddRoute(g0, line, i) {
        MoreProgress(g0, built0, stations, built, line, handle, i, lineInternal,
                     MakeRoute(nextHandle, line.id, line.routes[i]));
      }
      ok, extended := AddRouteToLine(line.routes[i], lineInternal);
    }

    /** Adds the routes of a line to its internal object, up to the first that cannot be added. */
    method AddRoutes(line: Line, empty: LineInternal) returns (ok: bool, lineInternal: LineInternal, ghost n: nat)
      requires Valid() && WellFormed(line) && empty.id == line.id && empty.routes == map[]
      modifies this`stations, this`nextHandle, this`built
      ensures Valid()
      ensures n <= |line.routes| && built == old(built) + RoutesOf(line, old(nextHandle), n)
      ensures stations == WithRoutes(old(stations), RoutesOf(line, old(nextHandle), n))
      ensures lineInternal.id == empty.id && lineInternal.name == empty.name
      ensures FirstFailure(old(stations), line, n) && (ok <==> n == |line.routes|)
      ensures ok ==> Holds(lineInternal, RoutesOf(line, old(nextHandle), n))
    {
      n := 0;
      lineInternal := empty;
      for i := 0 to |line.routes|
        invariant Valid() && n == i && nextHandle == old(nextHandle) + i && lineInternal.name == empty.name
        invariant Progress(old(stations), old(built), stations, built, line, old(nextHandle), i, lineInternal)
      {
        var added, extended := AddNextRoute(line, i, lineInternal, old(stations), old(built), old(nextHandle));
        if !added {
          return false, lineInternal, i;
        }
        lineInternal := extended;
        n := i + 1;
      }
      ok := true;
    }

    /**
     * Adds a line with its routes. When a route cannot be added the line is not either, but the edges of
     * the `n` routes before it stay: failure changes nothing exactly if no route was added before it.
     */
    method AddLine(line: Line) returns (ok: bool, ghost n: nat)
      requires Valid() && WellFormed(line)
      modifies this
      ensures Valid()
      ensures n <= |line.routes| && built == old(built) + RoutesOf(line, old(nextHandle), n)
      ensures stations == WithRoutes(old(stations), RoutesOf(line, old(nextHandle), n))
      ensures ok <==> line.id !in old(lines) && CanAddRoutes(old(stations), line)
      ensures !ok ==> lines == old(lines)
      ensures if line.id in old(lines) then n == 0 else FirstFailure(old(stations), line, n)
      ensures !ok ==> (stations == old(stations) <==> n == 0)
      ensures ok ==> n == |line.routes| && line.id in lines
      ensures ok ==> lines == old(lines)[line.id := lines[line.id]] && lines[line.id].name == line.name
      ensures ok ==> Holds(lines[line.id], RoutesOf(line, old(nextHandle), n))
      ensures ok && old(NoOrphans()) ==> NoOrphans()
      ensures old(Untimed(stations)) ==> Untimed(stations)
      ensures old(Uniform(stations)) ==>
                (Uniform(stations) <==> AllUntimed(old(stations), RoutesOf(line, old(nextHandle), n)))
    {
      if line.id in lines {
        return false, 0;
      }
      var lineInternal;
      ghost var before := stations;
      ok, lineInternal, n := AddRoutes(line, LineInternal(line.id, line.name, map[]));
      if Untimed(before) {
        RoutesStartUntimed(before, RoutesOf(line, old(nextHandle), n));
      }
      if n > 0 {
        AddedRoutesShow(before, line, old(nextHandle), n);
      }
      if Uniform(before) {
        AddedRoutesKeepUniform(before, line, old(nextHandle), n);
      }
      if ok {
        RegisteredLineIsConsistent(stations, lines, nextHandle, built, old(built), lineInternal,
                                   RoutesOf(line, old(nextHandle), n));
        // Only now are we sure that there were no errors.
        lines := lines[line.id := lineInternal];
      }
    }

    /** Adds stations up to the first whose identifier is known. */
    method LoadStations(newStations: seq<Station>) returns (ok: bool)
      requires Valid()
      modifies this
      ensures Valid() && lines == old(lines) && built == old(built)
      ensures ok <==> CanAddStations(old(stations), newStations)
      ensures ok ==> stations == WithStations(old(stations), newStations)
    {
      for i := 0 to |newStations|
        invariant Valid() && lines == old(lines) && built == old(built)
        invariant CanAddStations(old(stations), newStations[..i])
        invariant stations.Keys == old(stations).Keys + StationIds(newStations[..i])
        invariant stations == WithStations(old(stations), newStations[..i])
      {
        NextStation(old(stations), newStations, i, stations.Keys);
        assert newStations[..i + 1][..i] == newStations[..i];
        ok := AddStation(newStations[i]);
        if !ok {
          return;
        }
      }
      assert newStations[..|newStations|] == newStations;
      ok := true;
    }

    /** Adds the `i`-th of some lines after those before it. */
    method LoadNextLine(newLines: seq<Line>, i: nat, ghost g0: Graph, ghost lines0: map<Id, LineInternal>)
      returns (ok: bool)
      requires Valid() && i < |newLines| && WellFormed(newLines[i])
      requires Loaded(g0, lines0, stations, lines, newLines, i)
      modifies this
      ensures Valid()
      ensures ok ==> Loaded(g0, lines0, stations, lines, newLines, i + 1)
      ensures !ok ==> stations.Keys == g0.Keys && !CanAddLines(g0, lines0, newLines)
      ensures ok && old(NoOrphans()) ==> NoOrphans()
      ensures old(Untimed(stations)) ==> Untimed(stations)
    {
      ghost var n;
      ghost var handle := nextHandle;
      SameStationsSameRoutes(g0, stations, newLines[i]);
      ok, n := AddLine(newLines[i]);
      StationsStay(old(stations), RoutesOf(newLines[i], handle, n));
      if ok {
        HeldLineIsKnown(lines, newLines[i], handle);
        LoadedOneMore(g0, lines0, old(stations), old(lines), stations, lines, newLines, i);
      } else {
        NextLine(g0, lines0, newLines, i, old(lines).Keys);
      }
    }

    /** Adds lines up to the first that cannot be added. */
    method LoadLines(newLines: seq<Line>) returns (ok: bool)
      requires Valid() && forall l :: l in newLines ==> WellFormed(l)
      modifies this
      ensures Valid() && stations.Keys == old(stations).Keys
      ensures ok <==> CanAddLines(old(stations), old(lines), newLines)
      ensures ok ==> AllKnow(lines, newLines) && HasJust(lines, old(lines), newLines)
      ensures ok && old(NoOrphans()) ==> NoOrphans()
      ensures old(Untimed(stations)) ==> Untimed(stations)
    {
      for i := 0 to |newLines|
        invariant Valid() && Loaded(old(stations), old(lines), stations, lines, newLines, i)
        invariant old(NoOrphans()) ==> NoOrphans()
        invariant old(Untimed(stations)) ==> Untimed(stations)
      {
        ok := LoadNextLine(newLines, i, old(stations), old(lines));
        if !ok {
          return;
        }
      }
      assert newLines[..|newLines|] == newLines;
      ok := true;
    }

    /** Sets times; the result says whether each of them was for two joined stations. */
    method LoadTimes(settings: seq<TimeSetting>) returns (ok: bool)
      requires Valid()
      modifies this`stations
      ensures Valid() && stations == AfterSettings(old(stations), settings)
      ensures ok <==> forall s :: s in settings ==> IsHeeded(old(stations), s)
    {
      ok := true;
      for i := 0 to |settings|
        invariant Valid() && stations == AfterSettings(old(stations), settings[..i])
        invariant ok <==> forall s :: s in settings[..i] ==> IsHeeded(old(stations), s)
      {
        var s := settings[i];
        HeededAsBefore(old(stations), settings[..i], s);
        assert settings[..i + 1] == settings[..i] + [s] && settings[..i + 1][..i] == settings[..i];
        var found := SetTravelTime(s.a, s.b, s.travelTime);
        ok := ok && found;
      }
      assert settings[..|settings|] == settings;
    }

    /**
     * Builds a network from a layout: stations first, then lines, then times. Loading is abandoned with an
     * exception when a station or a line cannot be added; times for stations that are not joined are only
     * reported by the result.
     */
    method FromLayout(newStations: seq<Station>, newLines: seq<Line>, settings: seq<TimeSetting>)
      returns (loaded: Option<bool>)
      requires Valid() && forall l :: l in newLines ==> WellFormed(l)
      modifies this
      ensures Valid()
      ensures loaded.Some? <==>
                && CanAddStations(old(stations), newStations)
                && CanAddLines(WithStations(old(stations), newStations), old(lines), newLines)
      ensures loaded.Some? ==> AllKnow(lines, newLines) && HasJust(lines, old(lines), newLines)
      ensures loaded.Some? ==> stations.Keys == WithStations(old(stations), newStations).Keys
      ensures loaded.Some? ==> (loaded.value <==> forall s :: s in settings ==> IsHeeded(stations, s))
      ensures loaded.Some? && old(NoOrphans()) ==> NoOrphans()
      ensures loaded.Some? && old(Untimed(stations)) ==> Uniform(stations) && HasTimes(stations, settings)
    {
      var added := LoadStations(newStations);
      if !added {
        return None;
      }
      if old(Untimed(stations)) {
        StationsStartUntimed(old(stations), newStations);
      }
      added := LoadLines(newLines);
      if !added {
        return None;
      }
      ghost var g := stations;
      var ok := LoadTimes(settings);
      SettingsKeepHeeded(g, settings);
      if old(Untimed(stations)) {
        TimesAreThoseSet(g, settings);
      }
      return Some(ok);
    }

    /** Sets the time of every edge from one station to another. */
    method SetTimesFrom(from: Id, to: Id, travelTime: nat) returns (foundAnyEdge: bool)
      requires from in stations
      modifies this`stations
      ensures stations == Retime(old(stations), from, to, travelTime)
      ensures foundAnyEdge <==> LeadsTo(old(stations)[from].edges, to)
    {
      foundAnyEdge := false;
      var node := stations[from];
      var edges := node.edges;
      for i := 0 to |edges|
        invariant |edges| == |node.edges|
        invariant forall j :: 0 <= j < i ==> edges[j] == RetimeEdges(node.edges, to, travelTime)[j]
        invariant forall j :: i <= j < |edges| ==> edges[j] == node.edges[j]
        invariant foundAnyEdge <==> exists j :: 0 <= j < i && node.edges[j].nextStop == to
      {
        if edges[i].nextStop == to {
          edges := edges[i := edges[i].(travelTime := travelTime)];
          foundAnyEdge := true;
        }
      }
      assert edges == RetimeEdges(node.edges, to, travelTime);
      stations := stations[from := node.(edges := edges)];
    }

    /** Sets the travel time between two stations, in both directions and on all routes. */
    method SetTravelTime(stationA: Id, stationB: Id, travelTime: nat) returns (foundAnyEdge: bool)
      requires Valid()
      modifies this`stations
      ensures Valid()
      ensures stations == AfterSetting(old(stations), TimeSetting(stationA, stationB, travelTime))
      ensures foundAnyEdge <==> stationA in stations && stationB in stations &&
                                exists r :: Connects(old(stations), r, stationA, stationB)
      ensures old(Uniform(stations)) ==> Uniform(stations)
    {
      ghost var before := stations;
      if stationA !in stations || stationB !in stations {
        return false;
      }
      var foundThere := SetTimesFrom(stationA, stationB, travelTime);
      var foundBack := SetTimesFrom(stationB, stationA, travelTime);
      foundAnyEdge := foundThere || foundBack;
      FoundEdgesConnect(before, stationA, stationB, travelTime);
      SettingStaysConsistent(before, stationA, stationB, travelTime, lines, nextHandle, built);
      if Uniform(before) {
        RetimeBothKeepsUniform(before, stationA, stationB, travelTime);
      }
    }

    method TimeTo(edges: seq<GraphEdge>, to: Id) returns (t: Option<nat>)
      ensures t == FirstTimeTo(edges, to)
    {
      for i := 0 to |edges|
        invariant FirstTimeTo(edges, to) == FirstTimeTo(edges[i..], to)
      {
        if edges[i].nextStop == to {
          return Some(edges[i].travelTime);
        }
        assert edges[i..][1..] == edges[i + 1..];
      }
      return None;
    }

    method GetTravelTime(stationA: Id, stationB: Id) returns (t: nat)
      requires Valid()
      ensures t == TravelTimeBetween(stations, stationA, stationB)
      ensures stationA == stationB ==> t == 0
    {
      NoTimeToStay(stations, built, nextHandle, stationA);
      if stationA !in stations || stationB !in stations {
        return 0;
      }
      var there := TimeTo(stations[stationA].edges, stationB);
      if there.Some? {
        return there.value;
      }
      var back := TimeTo(stations[stationB].edges, stationA);
      return if back.Some? then back.value else 0;
    }

    /** Walks a route from A on, adding up travel times until B. */
    method WalkRoute(r: RouteInternal, stationA: Id, stationB: Id) returns (t: nat)
      requires Valid() && r in built
      ensures IsTimeOnRoute(stations, r, stationA, stationB, t)
    {
      assert WellFormedStops(r.stops);
      t := 0;
      var foundA := false;
      ghost var a := 0;
      for idx := 0 to |r.stops|
        invariant forall k :: 0 <= k < idx ==> r.stops[k] != stationB
        invariant !foundA ==> t == 0 && forall k :: 0 <= k < idx ==> r.stops[k] != stationA
        invariant foundA ==> a <= idx < |r.stops| && r.stops[a] == stationA && t == RouteTime(stations, r, a, idx)
      {
        var stop := r.stops[idx];
        if stop == stationA {
          foundA := true;
          a := idx;
        }
        if stop == stationB {
          StopsAreUnique(stations, r, if foundA then a else idx, idx, foundA, stationA, stationB);
          return t;
        }
        if foundA {
          assert StopsKnown(stations, r);
          var i := EdgeIndex(stations[stop].edges, r);
          if i == |stations[stop].edges| {
            // Only the last stop has no edge of the route.
            EarlierStopsHaveEdge(stations, built, nextHandle, r, idx);
            return 0;
          }
          LastStopHasNoEdge(stations, built, nextHandle, r, idx);
          t := t + stations[stop].edges[i].travelTime;
        }
      }
      return 0;
    }

    method GetTravelTimeOnRoute(line: Id, route: Id, stationA: Id, stationB: Id) returns (t: nat)
      requires Valid()
      ensures line !in lines || route !in lines[line].routes ==> t == 0
      ensures line in lines && route in lines[line].routes ==>
                IsTimeOnRoute(stations, lines[line].routes[route], stationA, stationB, t)
    {
      if line !in lines || route !in lines[line].routes {
        return 0;
      }
      var r := lines[line].routes[route];
      if stationA !in stations || stationB !in stations {
        assert StopsKnown(stations, r);
        return 0;
      }
      t := WalkRoute(r, stationA, stationB);
    }

    method RecordPassengerEvent(event: PassengerEvent) returns (ok: bool)
      requires Valid()
      modifies this`stations
      ensures Valid()
      ensures ok <==> event.stationId in old(stations)
      ensures stations == WithPassengers(old(stations), event.stationId, Delta(event.kind))
    {
      if event.stationId !in stations {
        return false;
      }
      PassengersStayConsistent(stations, event.stationId, Delta(event.kind), lines, nextHandle, built);
      var node := stations[event.stationId];
      match event.kind {
        case In =>
          node := node.(passengerCount := node.passengerCount + 1);
        case Out =>
          node := node.(passengerCount := node.passengerCount - 1);
      }
      stations := stations[event.stationId := node];
      return true;
    }

    /** The count at a station; the station has to be known. */
    method GetPassengerCount(station: Id) returns (count: Option<int>)
      ensures count == if station in stations then Some(stations[station].passengerCount) else None
    {
      if station !in stations {
        return None;
      }
      return Some(stations[station].passengerCount);
    }

    /** Records one event per passenger. */
    method RecordMany(station: Id, count: int)
      requires Valid()
      modifies this`stations
      ensures Valid()
      ensures stations == WithPassengers(old(stations), station, count)
    {
      var kind := if count > 0 then In else Out;
      ghost var recorded := 0;
      for n := 0 to if count < 0 then -count else count
        invariant Valid()
        invariant stations == WithPassengers(old(stations), station, recorded)
        invariant recorded == if count > 0 then n else -n
      {
        var _ := RecordPassengerEvent(PassengerEvent(station, kind));
        PassengersAdd(old(stations), station, recorded, Delta(kind));
        recorded := recorded + Delta(kind);
      }
    }

    /** The amounts come on top of the counts recorded before. */
    method SetNetworkCrowding(passengerCounts: map<Id, int>)
      requires Valid()
      modifies this`stations
      ensures Valid()
      ensures stations == Updated(old(stations), CountUpdate.Crowding(passengerCounts))
    {
      var rest := passengerCounts.Keys;
      while rest != {}
        invariant Valid() && rest <= passengerCounts.Keys
        invariant stations == Seeded(old(stations), passengerCounts - rest)
        decreases rest
      {
        var station :| station in rest;
        SeedOneMore(old(stations), passengerCounts, rest, station);
        rest := rest - {station};
        RecordMany(station, passengerCounts[station]);
      }
      assert passengerCounts - {} == passengerCounts;
    }

    /**
     * The identifiers of the routes serving a station, in no particular order: those of its edges, and
     * those of the routes that end there. `served` are the routes themselves.
     */
    method GetRoutesServingStation(station: Id) returns (routes: seq<Id>, ghost served: seq<RouteInternal>)
      requires Valid()
      ensures IsListing(routes, served)
      ensures station !in stations ==> routes == []
      ensures station in stations ==> forall r :: r in served <==>
                GoesOnFrom(built, r, station) || (IsRegistered(lines, r) && EndsAt(r, station))
      ensures station in stations ==>
                ((forall r :: r in served <==> IsRegistered(lines, r) && station in r.stops) <==>
                 forall r :: GoesOnFrom(built, r, station) ==> IsRegistered(lines, r))
      ensures station in stations && NoOrphans() ==> forall r :: r in served <==>
                IsRegistered(lines, r) && station in r.stops
    {
      routes, served := [], [];
      if station !in stations {
        return;
      }
      var edges := stations[station].edges;
      LeavingRoutes(stations, built, nextHandle, station);
      for i := 0 to |edges|
        invariant |routes| == |served| == i
        invariant forall j :: 0 <= j < i ==> routes[j] == served[j].id && served[j] == edges[j].route
      {
        routes := routes + [edges[i].route.id];
        served := served + [edges[i].route];
      }
      assert forall r :: GoesOnFrom(built, r, station) <==> r in served;
      // A route has no edge at its end station, so the routes of all lines are looked at too.
      var rest := lines.Keys;
      while rest != {}
        invariant rest <= lines.Keys
        invariant IsListing(routes, served)
        invariant forall r :: r in served <==>
                    (GoesOnFrom(built, r, station) || (IsRegistered(lines, r) && EndsAt(r, station) && r.line !in rest))
        decreases rest
      {
        var l :| l in rest;
        rest := rest - {l};
        routes, served := AddRoutesEndingAt(l, station, routes, served);
      }
      forall r
        ensures IsRegistered(lines, r) && station in r.stops <==> r in served && IsRegistered(lines, r)
      {
        ServingMeansContaining(stations, lines, nextHandle, built, r, station);
      }
    }

    /** Extends a listing by the routes of a line that end at a station. */
    method AddRoutesEndingAt(l: Id, station: Id, listed: seq<Id>, ghost before: seq<RouteInternal>)
      returns (routes: seq<Id>, ghost served: seq<RouteInternal>)
      requires Valid() && l in lines && IsListing(listed, before)
      requires forall r :: r in before && IsRegistered(lines, r) && EndsAt(r, station) ==> r.line != l
      ensures IsListing(routes, served)
      ensures forall r :: r in served <==> r in before || (IsRegistered(lines, r) && EndsAt(r, station) && r.line == l)
    {
      routes, served := listed, before;
      var ids := lines[l].routes.Keys;
      while ids != {}
        invariant ids <= lines[l].routes.Keys
        invariant IsListing(routes, served)
        invariant forall r :: r in served <==>
                    (r in before || (IsRegistered(lines, r) && EndsAt(r, station) && r.line == l && r.id !in ids))
        decreases ids
      {
        var id :| id in ids;
        ids := ids - {id};
        var route := lines[l].routes[id];
        assert IsRegistered(lines, route);
        if EndsAt(route, station) {
          routes := routes + [route.id];
          served := served + [route];
        }
      }
    }

    /** The quickest travel plan. Its path is a fastest one; there is no plan exactly when there is no route. */
    method GetFastestTravelRoute(stationAId: Id, stationBId: Id) returns (plan: TravelRoute, ghost path: Path)
      requires Valid()
      ensures stationAId !in stations || stationBId !in stations ==> plan == TravelRoute("", "", 0, [])
      ensures stationAId in stations && stationBId in stations ==>
                && (stationAId == stationBId ==>
                      plan == TravelRoute(stationAId, stationAId, 0, [TravelStep(stationAId, stationAId, "", "", 0)]))
                && (stationAId != stationBId ==>
                      IsFastest(stations, Departure(stationAId), stationBId, {}, path) &&
                      IsPlanOf(stations, stationAId, stationBId, path, plan))
      ensures TellsTime(stations, path, plan)
      ensures NoOrphans() ==> plan.totalTravelTime == StepTime(plan.steps)
      ensures stationAId != stationBId ==> RidesLegs(plan.steps)
    {
      path := [];
      if stationAId !in stations || stationBId !in stations {
        return TravelRoute("", "", 0, []), path;
      }
      if stationAId == stationBId {
        StayingTakesNoTime(stationAId);
        return StayAt(stationAId), path;
      }
      AgreeingGraphIsClosed(stations, built, nextHandle);
      var fastest := FastestSearch.GetFastestTravelRoute(stations, Departure(stationAId), stationBId, {});
      path := fastest;
      plan := MakePlan(stationAId, stationBId, fastest);
    }

    method MakePlan(a: Id, b: Id, path: Path) returns (plan: TravelRoute)
      requires Valid()
      requires a != b && (path != [] ==> IsRouteTo(stations, Departure(a), b, {}, path))
      ensures IsPlanOf(stations, a, b, path, plan)
      ensures TellsTime(stations, path, plan)
      ensures NoOrphans() ==> plan.totalTravelTime == StepTime(plan.steps)
      ensures RidesLegs(plan.steps)
    {
      if path == [] {
        return TravelRoute(a, b, 0, []);
      }
      var steps := AssembleSteps(stations, path);
      plan := TravelRoute(a, b, Total(path), steps);
      if NoOrphans() {
        RegisteredRoutesAreIdentified(stations, lines, nextHandle, built);
        IdentifiedShowsChanges(stations, path);
      }
      TotalIsRidingPlusChanges(stations, path, steps);
      StepsRideLegs(stations, built, path, steps);
      if Uniform(stations) {
        StepsTakeTheirTime(stations, path, steps);
      }
    }

    /**
     * The plan for the most quiet of the paths that are not much slower than the fastest, or for the
     * fastest itself if none of them is quiet enough. `k` is the position of the choice among `paths`.
     */
    method GetQuietTravelRoute(stationAId: Id, stationBId: Id, maxSlowdownPc: real, minQuietnessPc: real,
                               maxNPaths: nat)
      returns (plan: TravelRoute, ghost paths: seq<Path>, ghost k: nat)
      requires Valid() && maxSlowdownPc >= -1.0 && minQuietnessPc <= 1.0
      ensures stationAId !in stations || stationBId !in stations ==> plan == TravelRoute("", "", 0, [])
      ensures stationAId in stations && stationAId == stationBId ==>
                plan == TravelRoute(stationAId, stationAId, 0, [TravelStep(stationAId, stationAId, "", "", 0)])
      ensures stationAId in stations && stationBId in stations && stationAId != stationBId ==>
                if paths == [] then
                  && plan == TravelRoute(stationAId, stationBId, 0, [])
                  && forall p :: !IsRouteTo(stations, Departure(stationAId), stationBId, {}, p)
                else
                  && IsEnumeration(stations, stationAId, stationBId,
                                   MaxTravelTime(Total(paths[0]), maxSlowdownPc), maxNPaths, paths)
                  && KeepsSlowdown(stations, stationAId, stationBId, maxSlowdownPc, maxNPaths, paths)
                  && InNetwork(stations, paths) && IsQuietChoice(stations, paths, minQuietnessPc, k)
                  && IsPlanOf(stations, stationAId, stationBId, paths[k], plan)
      ensures TellsTime(stations, if k < |paths| then paths[k] else [], plan)
      ensures NoOrphans() ==> plan.totalTravelTime == StepTime(plan.steps)
      ensures stationAId != stationBId ==> RidesLegs(plan.steps)
    {
      paths, k := [], 0;
      if stationAId !in stations || stationBId !in stations {
        return TravelRoute("", "", 0, []), paths, k;
      }
      if stationAId == stationBId {
        StayingTakesNoTime(stationAId);
        return StayAt(stationAId), paths, k;
      }
      AgreeingGraphIsClosed(stations, built, nextHandle);
      var found := GetFastestTravelRoutes(stations, stationAId, stationBId, maxSlowdownPc, maxNPaths);
      paths := found;
      if found == [] {
        return TravelRoute(stationAId, stationBId, 0, []), paths, k;
      }
      PathsAreInNetwork(stations, stationAId, stationBId, found);
      var mostQuietPath;
      mostQuietPath, k := SelectMostQuiet(stations, found, minQuietnessPc);
      assert mostQuietPath in found;
      plan := MakePlan(stationAId, stationBId, mostQuietPath);
    }
  }
}
