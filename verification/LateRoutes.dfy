/** Routes added after travel times were set: when the times between two stations stay the same on all routes. */
module LateRoutes {
  import opened TransportGraph
  import opened LineNetwork
  import opened TravelTimes

  /** No time is set for the two stations: every edge between them takes time 0. */
  ghost predicate PairIsUntimed(g: Graph, x: Id, y: Id) {
    forall s :: Connects(g, s, x, y) ==> EdgeAt(g, s).travelTime == 0
  }

  /** No time is set for any leg of the route. */
  ghost predicate LegsAreUntimed(g: Graph, r: RouteInternal) {
    forall k: nat, x, y :: LegAt(r, k, x, y) ==> PairIsUntimed(g, x, y)
  }

  ghost predicate AllUntimed(g: Graph, routes: seq<RouteInternal>) {
    forall r :: r in routes ==> LegsAreUntimed(g, r)
  }

  /** Adding a route keeps all edges; a new edge takes time 0 and goes along a leg of the route. */
  lemma EdgesWithRoute(g: Graph, r: RouteInternal, s: EdgeRef)
    requires WellFormedStops(r.stops)
    ensures HasEdge(g, s) ==> HasEdge(WithRoute(g, r), s) && EdgeAt(WithRoute(g, r), s) == EdgeAt(g, s)
    ensures HasEdge(WithRoute(g, r), s) && !HasEdge(g, s) ==>
              && EdgeAt(WithRoute(g, r), s).travelTime == 0
              && exists k: nat :: LegAt(r, k, s.from, EdgeAt(WithRoute(g, r), s).nextStop)
  {
    var h := WithRoute(g, r);
    if HasEdge(h, s) && !HasEdge(g, s) {
      var legs := Legs(r, s.from);
      var i := s.idx - |g[s.from].edges|;
      assert EdgeAt(h, s) == NewEdges(legs)[i];
      assert HopsOf(NewEdges(legs))[i] == legs[i] == HopOf(EdgeAt(h, s));
      LegsAreLegs(r, s.from, |r.stops| - 1, legs[i]);
    }
  }

  /** Every leg of an added route has a new edge. */
  lemma LegHasNewEdge(g: Graph, r: RouteInternal, k: nat, x: Id, y: Id) returns (s: EdgeRef)
    requires WellFormedStops(r.stops) && LegAt(r, k, x, y) && x in g
    ensures !HasEdge(g, s) && HasEdge(WithRoute(g, r), s) && Connects(WithRoute(g, r), s, x, y)
  {
    LegsFromStop(r, k, |r.stops| - 1);
    s := EdgeRef(x, |g[x].edges|);
    assert HopsOf(NewEdges(Legs(r, x))) == [Hop(r, y)];
    assert HopOf(NewEdges(Legs(r, x))[0]) == Hop(r, y);
  }

  /** A route keeps times uniform exactly if no time was set for any of its legs before. */
  lemma RouteKeepsUniform(g: Graph, r: RouteInternal)
    requires Uniform(g) && WellFormedStops(r.stops) && StopsKnown(g, r)
    ensures Uniform(WithRoute(g, r)) <==> LegsAreUntimed(g, r)
  {
    if Uniform(WithRoute(g, r)) {
      UniformLeavesLegsUntimed(g, r);
    }
    if LegsAreUntimed(g, r) {
      UntimedLegsStayUniform(g, r);
    }
  }

  lemma UniformLeavesLegsUntimed(g: Graph, r: RouteInternal)
    requires WellFormedStops(r.stops) && StopsKnown(g, r) && Uniform(WithRoute(g, r))
    ensures LegsAreUntimed(g, r)
  {
    forall k: nat, x, y, s | LegAt(r, k, x, y) && Connects(g, s, x, y)
      ensures EdgeAt(g, s).travelTime == 0
    {
      var e := LegHasNewEdge(g, r, k, x, y);
      EdgesWithRoute(g, r, e);
      EdgesWithRoute(g, r, s);
      assert Connects(WithRoute(g, r), s, x, y);
    }
  }

  lemma UntimedLegsStayUniform(g: Graph, r: RouteInternal)
    requires Uniform(g) && WellFormedStops(r.stops) && LegsAreUntimed(g, r)
    ensures Uniform(WithRoute(g, r))
  {
    var h := WithRoute(g, r);
    forall s, t, x, y | Connects(h, s, x, y) && Connects(h, t, x, y)
      ensures EdgeAt(h, s).travelTime == EdgeAt(h, t).travelTime
    {
      if HasEdge(g, s) && HasEdge(g, t) {
        EdgesWithRoute(g, r, s);
        EdgesWithRoute(g, r, t);
        assert Connects(g, s, x, y) && Connects(g, t, x, y);
      } else if HasEdge(g, s) {
        NewEdgeMeansUntimed(g, r, t, x, y, s);
      } else {
        NewEdgeMeansUntimed(g, r, s, x, y, t);
      }
    }
  }

  lemma NewEdgeMeansUntimed(g: Graph, r: RouteInternal, s: EdgeRef, x: Id, y: Id, t: EdgeRef)
    requires WellFormedStops(r.stops) && LegsAreUntimed(g, r) && !HasEdge(g, s)
    requires Connects(WithRoute(g, r), s, x, y) && Connects(WithRoute(g, r), t, x, y)
    ensures EdgeAt(WithRoute(g, r), s).travelTime == EdgeAt(WithRoute(g, r), t).travelTime == 0
  {
    EdgesWithRoute(g, r, s);
    EdgesWithRoute(g, r, t);
    var next := EdgeAt(WithRoute(g, r), s).nextStop;
    var k: nat :| LegAt(r, k, s.from, next);
    if HasEdge(g, t) {
      assert PairIsUntimed(g, s.from, next) && Connects(g, t, s.from, next);
    }
  }

  /** Adding routes keeps all edges, and new edges take time 0. */
  lemma {:induction false} EdgesWithRoutes(g: Graph, routes: seq<RouteInternal>, s: EdgeRef)
    requires forall r :: r in routes ==> WellFormedStops(r.stops)
    ensures HasEdge(g, s) ==> HasEdge(WithRoutes(g, routes), s) && EdgeAt(WithRoutes(g, routes), s) == EdgeAt(g, s)
    ensures HasEdge(WithRoutes(g, routes), s) && !HasEdge(g, s) ==> EdgeAt(WithRoutes(g, routes), s).travelTime == 0
    decreases |routes|
  {
    if routes != [] {
      EdgesWithRoutes(g, routes[..|routes| - 1], s);
      EdgesWithRoute(WithRoutes(g, routes[..|routes| - 1]), routes[|routes| - 1], s);
    }
  }

  lemma SameLegsUntimed(g: Graph, routes: seq<RouteInternal>, r: RouteInternal)
    requires forall o :: o in routes ==> WellFormedStops(o.stops)
    ensures LegsAreUntimed(WithRoutes(g, routes), r) <==> LegsAreUntimed(g, r)
  {
    var h := WithRoutes(g, routes);
    forall x, y
      ensures PairIsUntimed(h, x, y) <==> PairIsUntimed(g, x, y)
    {
      forall s
        ensures Connects(g, s, x, y) ==> Connects(h, s, x, y) && EdgeAt(h, s) == EdgeAt(g, s)
        ensures Connects(h, s, x, y) ==> EdgeAt(h, s).travelTime == 0 || Connects(g, s, x, y)
      {
        EdgesWithRoutes(g, routes, s);
      }
    }
  }

  /** Times that are uniform after a route is added were uniform before. */
  lemma UniformBefore(g: Graph, r: RouteInternal)
    requires WellFormedStops(r.stops) && Uniform(WithRoute(g, r))
    ensures Uniform(g)
  {
    var h := WithRoute(g, r);
    forall s, t, x, y | Connects(g, s, x, y) && Connects(g, t, x, y)
      ensures EdgeAt(g, s).travelTime == EdgeAt(g, t).travelTime
    {
      EdgesWithRoute(g, r, s);
      EdgesWithRoute(g, r, t);
      assert Connects(h, s, x, y) && Connects(h, t, x, y);
    }
  }

  /** Routes keep times uniform exactly if no time was set for any of their legs before. */
  lemma {:induction false} RoutesKeepUniform(g: Graph, routes: seq<RouteInternal>)
    requires Uniform(g)
    requires forall r :: r in routes ==> WellFormedStops(r.stops) && StopsKnown(g, r)
    ensures Uniform(WithRoutes(g, routes)) <==> AllUntimed(g, routes)
    decreases |routes|
  {
    if routes != [] {
      var before, r := routes[..|routes| - 1], routes[|routes| - 1];
      assert forall o :: o in routes <==> o in before || o == r;
      RoutesKeepUniform(g, before);
      SameLegsUntimed(g, before, r);
      StationsStay(g, before);
      if Uniform(WithRoutes(g, before)) {
        RouteKeepsUniform(WithRoutes(g, before), r);
      } else if Uniform(WithRoutes(g, routes)) {
        UniformBefore(WithRoutes(g, before), r);
        assert false;
      }
    }
  }

  // A line from a to b, timed, and a line back that is added later

  const THERE: RouteInternal := RouteInternal(0, "there", "there", ["a", "b"])
  const BACK: RouteInternal := RouteInternal(1, "back", "back", ["b", "a"])

  function OneWay(): Graph {
    map["a" := GraphNode("a", "a", 0, [GraphEdge(THERE, "b", 5)]), "b" := GraphNode("b", "b", 0, [])]
  }

  lemma OneWayAgrees()
    ensures ProperRoutes([THERE], 1) && Agrees(OneWay(), [THERE])
  {
    assert [THERE][..0] == [];
    LegsFromStop(THERE, 0, 1);
    LegsFromElsewhere(THERE, "b", 1);
    forall x | x in OneWay()
      ensures HopsAgree(OneWay(), [THERE], x)
    {
      assert HopsFrom([THERE], x) == HopsFrom([], x) + Legs(THERE, x);
    }
  }

  function BothWays(): Graph {
    map["a" := GraphNode("a", "a", 0, [GraphEdge(THERE, "b", 5)]),
        "b" := GraphNode("b", "b", 0, [GraphEdge(BACK, "a", 0)])]
  }

  lemma WithLateLine()
    ensures WithRoute(OneWay(), BACK) == BothWays()
  {
    assert Legs(BACK, "b") == [Hop(BACK, "a")] && Legs(BACK, "a") == [];
    var h := WithRoute(OneWay(), BACK);
    assert h["a"].edges == [GraphEdge(THERE, "b", 5)] && h["b"].edges == [GraphEdge(BACK, "a", 0)];
  }

  lemma LateTimes()
    ensures TravelTimeBetween(BothWays(), "a", "b") == 5 && TravelTimeBetween(BothWays(), "b", "a") == 0
  {
  }

  lemma OneWayIsUniform()
    ensures Uniform(OneWay())
  {
    assert forall r :: HasEdge(OneWay(), r) ==> EdgeAt(OneWay(), r).travelTime == 5;
  }

  lemma BothWaysDiffer()
    ensures !Uniform(BothWays())
  {
    assert Connects(BothWays(), EdgeRef("a", 0), "a", "b") && Connects(BothWays(), EdgeRef("b", 0), "a", "b");
  }

  /** A line added after the times were set is not timed, so the time between two stations is not symmetric. */
  lemma LateLineIsUntimed()
    ensures Uniform(OneWay()) && !Uniform(WithRoute(OneWay(), BACK))
    ensures TravelTimeBetween(WithRoute(OneWay(), BACK), "a", "b") == 5
    ensures TravelTimeBetween(WithRoute(OneWay(), BACK), "b", "a") == 0
  {
    WithLateLine();
    LateTimes();
    OneWayIsUniform();
    BothWaysDiffer();
  }
}
