/** Agreement between the graph and the routes it was built from. */
module LineNetwork {
  import opened TransportGraph

  /** An edge without its travel time. */
  datatype Hop = Hop(route: RouteInternal, nextStop: Id)

  function HopOf(e: GraphEdge): Hop {
    Hop(e.route, e.nextStop)
  }

  function HopsOf(edges: seq<GraphEdge>): (hops: seq<Hop>)
    ensures |hops| == |edges|
    ensures forall i :: 0 <= i < |edges| ==> hops[i] == HopOf(edges[i])
  {
    seq(|edges|, i requires 0 <= i < |edges| => HopOf(edges[i]))
  }

  /** A route runs through at least two stops, none of them twice. */
  ghost predicate WellFormedStops(stops: seq<Id>) {
    |stops| >= 2 && forall i, j :: 0 <= i < j < |stops| ==> stops[i] != stops[j]
  }

  /** The `k`-th leg of a route goes from `x` to `next`. */
  predicate LegAt(r: RouteInternal, k: nat, x: Id, next: Id) {
    k + 1 < |r.stops| && r.stops[k] == x && r.stops[k + 1] == next
  }

  /** The hops that the first `n` legs of a route add to station `x`. */
  function LegsFrom(r: RouteInternal, x: Id, n: nat): seq<Hop>
    requires n < |r.stops|
  {
    if n == 0 then []
    else LegsFrom(r, x, n - 1) + if r.stops[n - 1] == x then [Hop(r, r.stops[n])] else []
  }

  function Legs(r: RouteInternal, x: Id): seq<Hop> {
    if r.stops == [] then [] else LegsFrom(r, x, |r.stops| - 1)
  }

  /** The hops that a list of routes adds to station `x`, in the order the routes were added. */
  function HopsFrom(routes: seq<RouteInternal>, x: Id): seq<Hop> {
    if routes == [] then []
    else HopsFrom(routes[..|routes| - 1], x) + Legs(routes[|routes| - 1], x)
  }

  /** Routes that are well formed and pairwise distinct objects, with handles below `bound`. */
  ghost predicate ProperRoutes(routes: seq<RouteInternal>, bound: nat) {
    && (forall r :: r in routes ==> WellFormedStops(r.stops) && r.handle < bound)
    && (forall i, j :: 0 <= i < j < |routes| ==> routes[i].handle != routes[j].handle)
  }

  /** The edges of `x` are those of the routes, up to travel times. */
  ghost predicate HopsAgree(g: Graph, routes: seq<RouteInternal>, x: Id)
    requires x in g
  {
    HopsOf(g[x].edges) == HopsFrom(routes, x)
  }

  ghost predicate StopsKnown(g: Graph, r: RouteInternal) {
    forall k :: 0 <= k < |r.stops| ==> r.stops[k] in g
  }

  /** The edges of every station are those of the routes, and the routes run through known stations. */
  ghost predicate Agrees(g: Graph, routes: seq<RouteInternal>) {
    && (forall x {:trigger HopsAgree(g, routes, x)} :: x in g ==> HopsAgree(g, routes, x))
    && (forall r {:trigger StopsKnown(g, r)} :: r in routes ==> StopsKnown(g, r))
  }

  lemma {:induction false} LegsFromElsewhere(r: RouteInternal, x: Id, n: nat)
    requires n < |r.stops| && x !in r.stops[..n]
    ensures LegsFrom(r, x, n) == []
  {
    if n > 0 {
      assert r.stops[..n] == r.stops[..n - 1] + [r.stops[n - 1]];
      LegsFromElsewhere(r, x, n - 1);
    }
  }

  lemma {:induction false} LegsFromStop(r: RouteInternal, k: nat, n: nat)
    requires WellFormedStops(r.stops) && k < n < |r.stops|
    ensures LegsFrom(r, r.stops[k], n) == [Hop(r, r.stops[k + 1])]
  {
    if k == n - 1 {
      LegsFromElsewhere(r, r.stops[k], k);
    } else {
      LegsFromStop(r, k, n - 1);
    }
  }

  lemma {:induction false} LegsAreLegs(r: RouteInternal, x: Id, n: nat, h: Hop)
    requires n < |r.stops| && h in LegsFrom(r, x, n)
    ensures h.route == r && exists k: nat :: LegAt(r, k, x, h.nextStop)
  {
    if r.stops[n - 1] == x && h == Hop(r, r.stops[n]) {
      assert LegAt(r, n - 1, x, h.nextStop);
    } else {
      LegsAreLegs(r, x, n - 1, h);
    }
  }

  /** The hops from a station, and nothing else, come from the routes that go on from there. */
  lemma {:induction false} HopIsLeg(routes: seq<RouteInternal>, x: Id, h: Hop)
    requires h in HopsFrom(routes, x)
    ensures h.route in routes && exists k: nat :: LegAt(h.route, k, x, h.nextStop)
    decreases |routes|
  {
    var n := |routes| - 1;
    if h in HopsFrom(routes[..n], x) {
      HopIsLeg(routes[..n], x, h);
    } else {
      LegsAreLegs(routes[n], x, |routes[n].stops| - 1, h);
    }
  }

  /** Position `i` is the only one that holds a hop of route `r`, and that hop leads to `next`. */
  ghost predicate OnlyHopOf(hops: seq<Hop>, r: RouteInternal, i: nat, next: Id) {
    && i < |hops| && hops[i] == Hop(r, next)
    && forall j :: 0 <= j < |hops| && hops[j].route == r ==> j == i
  }

  lemma OneNewHop(hops: seq<Hop>, h: Hop)
    requires forall o :: o in hops ==> o.route != h.route
    ensures OnlyHopOf(hops + [h], h.route, |hops|, h.nextStop)
  {
  }

  lemma OtherRoutesHaveNoHopOf(routes: seq<RouteInternal>, x: Id, r: RouteInternal)
    requires r !in routes
    ensures forall h :: h in HopsFrom(routes, x) ==> h.route != r
  {
    forall h | h in HopsFrom(routes, x)
      ensures h.route != r
    {
      HopIsLeg(routes, x, h);
    }
  }

  lemma NewRouteHasOneHop(before: seq<RouteInternal>, r: RouteInternal, k: nat, x: Id, next: Id)
    requires WellFormedStops(r.stops) && LegAt(r, k, x, next) && r !in before
    ensures OnlyHopOf(HopsFrom(before, x) + Legs(r, x), r, |HopsFrom(before, x)|, next)
  {
    OtherRoutesHaveNoHopOf(before, x, r);
    LegsFromStop(r, k, |r.stops| - 1);
    OneNewHop(HopsFrom(before, x), Hop(r, next));
  }

  lemma OldRouteKeepsItsHop(hops: seq<Hop>, q: RouteInternal, x: Id, r: RouteInternal, i: nat, next: Id)
    requires OnlyHopOf(hops, r, i, next) && q != r
    ensures OnlyHopOf(hops + Legs(q, x), r, i, next)
  {
    forall h | h in Legs(q, x)
      ensures h.route != r
    {
      LegsAreLegs(q, x, |q.stops| - 1, h);
    }
  }

  /** Where a route goes on from a station, exactly one hop belongs to it. */
  lemma {:induction false} RouteHasOneHop(routes: seq<RouteInternal>, bound: nat, x: Id, m: nat, k: nat, next: Id)
    returns (i: nat)
    requires ProperRoutes(routes, bound) && m < |routes| && LegAt(routes[m], k, x, next)
    ensures OnlyHopOf(HopsFrom(routes, x), routes[m], i, next)
    decreases |routes|
  {
    var n := |routes| - 1;
    var before := routes[..n];
    assert HopsFrom(routes, x) == HopsFrom(before, x) + Legs(routes[n], x);
    assert routes[m] in routes && (m == n || routes[m].handle != routes[n].handle);
    if m == n {
      NewRouteHasOneHop(before, routes[n], k, x, next);
      i := |HopsFrom(before, x)|;
    } else {
      assert before[m] == routes[m];
      i := RouteHasOneHop(before, bound, x, m, k, next);
      OldRouteKeepsItsHop(HopsFrom(before, x), routes[n], x, routes[m], i, next);
    }
  }

  /** A graph that agrees with proper routes has no edge to an unknown station. */
  lemma AgreeingGraphIsClosed(g: Graph, routes: seq<RouteInternal>, bound: nat)
    requires ProperRoutes(routes, bound) && Agrees(g, routes)
    ensures Closed(g)
  {
    forall x, i | x in g && 0 <= i < |g[x].edges|
      ensures g[x].edges[i].nextStop in g
    {
      var h := HopOf(g[x].edges[i]);
      assert HopsAgree(g, routes, x) && HopsOf(g[x].edges)[i] == h;
      HopIsLeg(routes, x, h);
      var k: nat :| LegAt(h.route, k, x, h.nextStop);
      assert StopsKnown(g, h.route) && h.route.stops[k + 1] in g;
    }
  }

  /** The `i`-th edge of a station is its only edge of route `r`. */
  ghost predicate OnlyEdgeOf(edges: seq<GraphEdge>, r: RouteInternal, i: nat, next: Id) {
    && i < |edges| && HopOf(edges[i]) == Hop(r, next)
    && forall j :: 0 <= j < |edges| && edges[j].route == r ==> j == i
  }

  /** Where a route goes on from a station, the station has exactly one edge of it, to the next stop. */
  lemma RouteHasOneEdge(g: Graph, routes: seq<RouteInternal>, bound: nat, x: Id, r: RouteInternal, k: nat, next: Id)
    returns (i: nat)
    requires ProperRoutes(routes, bound) && Agrees(g, routes)
    requires x in g && r in routes && LegAt(r, k, x, next)
    ensures OnlyEdgeOf(g[x].edges, r, i, next)
  {
    assert HopsAgree(g, routes, x);
    var m :| 0 <= m < |routes| && routes[m] == r;
    i := RouteHasOneHop(routes, bound, x, m, k, next);
    assert forall j :: 0 <= j < |g[x].edges| ==> HopsOf(g[x].edges)[j] == HopOf(g[x].edges[j]);
  }

  /** A station where a route does not go on has no edge of it. */
  lemma OtherStationsHaveNoEdge(g: Graph, routes: seq<RouteInternal>, bound: nat, x: Id, r: RouteInternal)
    requires ProperRoutes(routes, bound) && Agrees(g, routes) && x in g && |r.stops| > 0
    requires r in routes ==> x !in r.stops[..|r.stops| - 1]
    ensures forall j :: 0 <= j < |g[x].edges| ==> g[x].edges[j].route != r
  {
    forall j | 0 <= j < |g[x].edges|
      ensures g[x].edges[j].route != r
    {
      assert HopsAgree(g, routes, x);
      var h := HopOf(g[x].edges[j]);
      assert HopsOf(g[x].edges)[j] == h;
      HopIsLeg(routes, x, h);
      var k: nat :| LegAt(h.route, k, x, h.nextStop);
      assert h.route.stops[..|h.route.stops| - 1][k] == x;
    }
  }

  /** Edges for the given hops; they get their travel times later. */
  function NewEdges(hops: seq<Hop>): (edges: seq<GraphEdge>)
    ensures HopsOf(edges) == hops && forall e :: e in edges ==> e.travelTime == 0
  {
    seq(|hops|, i requires 0 <= i < |hops| => GraphEdge(hops[i].route, hops[i].nextStop, 0))
  }

  /** The graph after the first `n` legs of a route are added. */
  function WithLegs(g: Graph, r: RouteInternal, n: nat): Graph
    requires n < |r.stops|
  {
    map x | x in g :: g[x].(edges := g[x].edges + NewEdges(LegsFrom(r, x, n)))
  }

  function WithRoute(g: Graph, r: RouteInternal): Graph {
    if r.stops == [] then g else WithLegs(g, r, |r.stops| - 1)
  }

  /** The graph after a list of routes is added. */
  function WithRoutes(g: Graph, routes: seq<RouteInternal>): Graph {
    if routes == [] then g else WithRoute(WithRoutes(g, routes[..|routes| - 1]), routes[|routes| - 1])
  }

  lemma {:induction false} StationsStay(g: Graph, routes: seq<RouteInternal>)
    ensures WithRoutes(g, routes).Keys == g.Keys
    decreases |routes|
  {
    if routes != [] {
      StationsStay(g, routes[..|routes| - 1]);
    }
  }

  lemma WithOneMoreRoute(g: Graph, routes: seq<RouteInternal>, r: RouteInternal)
    ensures WithRoutes(g, routes + [r]) == WithRoute(WithRoutes(g, routes), r)
  {
    assert (routes + [r])[..|routes|] == routes;
  }

  lemma LegAdded(g: Graph, r: RouteInternal, n: nat)
    requires n + 1 < |r.stops| && r.stops[n] in g
    ensures var h := WithLegs(g, r, n);
            var x := r.stops[n];
            WithLegs(g, r, n + 1) == h[x := h[x].(edges := h[x].edges + [GraphEdge(r, r.stops[n + 1], 0)])]
  {
    var x := r.stops[n];
    var edge := GraphEdge(r, r.stops[n + 1], 0);
    forall y | y in g
      ensures LegsFrom(r, y, n + 1) == LegsFrom(r, y, n) + if y == x then [Hop(r, r.stops[n + 1])] else []
      ensures y != x ==> LegsFrom(r, y, n + 1) == LegsFrom(r, y, n)
      ensures y == x ==> NewEdges(LegsFrom(r, y, n + 1)) == NewEdges(LegsFrom(r, y, n)) + [edge]
    {
    }
    var h := WithLegs(g, r, n);
    assert g[x].edges + (NewEdges(LegsFrom(r, x, n)) + [edge]) == h[x].edges + [edge];
  }

  lemma NoLegAdded(g: Graph, r: RouteInternal)
    requires |r.stops| > 0
    ensures WithLegs(g, r, 0) == g
  {
    assert forall x :: x in g ==> g[x].edges + NewEdges([]) == g[x].edges;
  }

  /** Adding a route's edges keeps the graph in agreement with the routes. */
  lemma WithRouteAgrees(g: Graph, routes: seq<RouteInternal>, r: RouteInternal)
    requires Agrees(g, routes) && |r.stops| > 0 && forall s :: s in r.stops ==> s in g
    ensures Agrees(WithRoute(g, r), routes + [r])
  {
    var h := WithRoute(g, r);
    forall x | x in h
      ensures HopsAgree(h, routes + [r], x)
    {
      assert HopsAgree(g, routes, x);
      HopsAfterRoute(g, routes, r, x);
    }
    forall s | s in routes + [r]
      ensures StopsKnown(h, s)
    {
      assert s != r ==> StopsKnown(g, s);
    }
  }

  lemma HopsOfBoth(a: seq<GraphEdge>, b: seq<GraphEdge>)
    ensures HopsOf(a + b) == HopsOf(a) + HopsOf(b)
  {
  }

  lemma HopsAfterRoute(g: Graph, routes: seq<RouteInternal>, r: RouteInternal, x: Id)
    requires x in g && |r.stops| > 0 && HopsOf(g[x].edges) == HopsFrom(routes, x)
    ensures HopsOf(WithRoute(g, r)[x].edges) == HopsFrom(routes + [r], x)
  {
    assert (routes + [r])[..|routes|] == routes;
    HopsOfBoth(g[x].edges, NewEdges(Legs(r, x)));
  }

  lemma NewEdgesOfBoth(edges: seq<GraphEdge>, a: seq<Hop>, b: seq<Hop>)
    ensures edges + NewEdges(a) + NewEdges(b) == edges + NewEdges(a + b)
  {
  }

  lemma RouteKeepsStation(g: Graph, r: RouteInternal, x: Id)
    requires x in g
    ensures WithRoute(g, r)[x] == g[x].(edges := g[x].edges + NewEdges(Legs(r, x)))
  {
    assert r.stops == [] ==> g[x].edges + NewEdges([]) == g[x].edges;
  }

  /** Routes only append edges to a station, one for each hop; its name, its passengers and its old edges stay. */
  lemma {:induction false} RoutesKeepStations(g: Graph, routes: seq<RouteInternal>, x: Id)
    requires x in g
    ensures x in WithRoutes(g, routes)
    ensures WithRoutes(g, routes)[x] == g[x].(edges := g[x].edges + NewEdges(HopsFrom(routes, x)))
    decreases |routes|
  {
    if routes == [] {
      assert g[x].edges + NewEdges([]) == g[x].edges;
    } else {
      var r, earlier := routes[|routes| - 1], routes[..|routes| - 1];
      RoutesKeepStations(g, earlier, x);
      RouteKeepsStation(WithRoutes(g, earlier), r, x);
      NewEdgesOfBoth(g[x].edges, HopsFrom(earlier, x), Legs(r, x));
    }
  }

  /** Adding at least one route always changes the graph. */
  lemma RoutesLeaveEdges(g: Graph, routes: seq<RouteInternal>)
    requires routes != []
    requires WellFormedStops(routes[|routes| - 1].stops) && routes[|routes| - 1].stops[0] in g
    ensures WithRoutes(g, routes) != g
  {
    var r := routes[|routes| - 1];
    LegsFromStop(r, 0, |r.stops| - 1);
    RoutesKeepStations(g, routes, r.stops[0]);
    assert |HopsFrom(routes, r.stops[0])| > 0;
  }

  /** A station that no route runs through has no hops. */
  lemma UnknownStationHasNoHops(routes: seq<RouteInternal>, x: Id)
    requires forall r :: r in routes ==> x !in r.stops
    ensures HopsFrom(routes, x) == []
  {
    if HopsFrom(routes, x) != [] {
      var h := HopsFrom(routes, x)[0];
      HopIsLeg(routes, x, h);
      assert false;
    }
  }

  /** The edges of a station belong to distinct routes: those that go on from there. */
  lemma LeavingRoutes(g: Graph, routes: seq<RouteInternal>, bound: nat, x: Id)
    requires ProperRoutes(routes, bound) && Agrees(g, routes) && x in g
    ensures forall i, j :: 0 <= i < j < |g[x].edges| ==> g[x].edges[i].route != g[x].edges[j].route
    ensures forall i :: 0 <= i < |g[x].edges| ==> GoesOnFrom(routes, g[x].edges[i].route, x)
    ensures forall r :: GoesOnFrom(routes, r, x) ==> exists i :: 0 <= i < |g[x].edges| && g[x].edges[i].route == r
  {
    var edges := g[x].edges;
    forall i | 0 <= i < |edges|
      ensures GoesOnFrom(routes, edges[i].route, x)
      ensures forall j :: 0 <= j < |edges| && edges[j].route == edges[i].route ==> j == i
    {
      var h := HopOf(edges[i]);
      assert HopsAgree(g, routes, x) && HopsOf(edges)[i] == h;
      HopIsLeg(routes, x, h);
      var k: nat :| LegAt(h.route, k, x, h.nextStop);
      assert h.route.stops[..|h.route.stops| - 1][k] == x;
      var only := RouteHasOneEdge(g, routes, bound, x, h.route, k, h.nextStop);
    }
    forall r | GoesOnFrom(routes, r, x)
      ensures exists i :: 0 <= i < |edges| && edges[i].route == r
    {
      var k :| 0 <= k < |r.stops| - 1 && r.stops[k] == x;
      assert LegAt(r, k, x, r.stops[k + 1]);
      var i := RouteHasOneEdge(g, routes, bound, x, r, k, r.stops[k + 1]);
    }
  }

  /** One of the routes stops at `x` and goes on from there. */
  predicate GoesOnFrom(routes: seq<RouteInternal>, r: RouteInternal, x: Id) {
    r in routes && |r.stops| > 0 && x in r.stops[..|r.stops| - 1]
  }

  /** A link from a station goes along a leg of one of the routes. */
  lemma LinkIsLeg(g: Graph, routes: seq<RouteInternal>, p: PathStopDist, q: PathStopDist) returns (k: nat)
    requires Agrees(g, routes) && Link(g, {}, p, q)
    ensures EdgeAt(g, q.stop.edge.value).route in routes
    ensures LegAt(EdgeAt(g, q.stop.edge.value).route, k, p.stop.node, q.stop.node)
  {
    var x, h := p.stop.node, HopOf(EdgeAt(g, q.stop.edge.value));
    assert HopsAgree(g, routes, x) && HopsOf(g[x].edges)[q.stop.edge.value.idx] == h;
    HopIsLeg(routes, x, h);
    k :| LegAt(h.route, k, x, h.nextStop);
  }

  /** Agreement does not depend on travel times or passengers. */
  lemma SameHopsAgree(g: Graph, h: Graph, routes: seq<RouteInternal>)
    requires Agrees(g, routes) && h.Keys == g.Keys
    requires forall x :: x in g ==> HopsOf(h[x].edges) == HopsOf(g[x].edges)
    ensures Agrees(h, routes)
  {
    forall x | x in h
      ensures HopsAgree(h, routes, x)
    {
      assert HopsAgree(g, routes, x);
    }
    forall r | r in routes
      ensures StopsKnown(h, r)
    {
      assert StopsKnown(g, r);
    }
  }
}
