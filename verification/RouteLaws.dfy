/** Laws about fastest routes that span several searches. */
module RouteLaws {
  import opened TransportGraph
  import opened FastestSearch
  import opened AlternativeRoutes
  import opened LineNetwork
  import opened TravelTimes

  /** Riding a route from one stop to a later one, without a change. */
  lemma {:induction false} RideRoute(g: Graph, routes: seq<RouteInternal>, bound: nat, r: RouteInternal, i: nat, j: nat)
    returns (p: Path)
    requires ProperRoutes(routes, bound) && Agrees(g, routes) && r in routes
    requires i <= j < |r.stops|
    ensures IsRouteTo(g, Departure(r.stops[i]), r.stops[j], {}, p)
    ensures Total(p) == RouteTime(g, r, i, j)
    ensures i < j ==> Last(p).stop.edge.Some? && HasEdge(g, Last(p).stop.edge.value)
                      && EdgeAt(g, Last(p).stop.edge.value).route == r
    ensures i == j ==> p == [Departure(r.stops[i])]
    decreases j
  {
    assert StopsKnown(g, r);
    if i == j {
      p := [Departure(r.stops[i])];
    } else {
      var ride := RideRoute(g, routes, bound, r, i, j - 1);
      var x, next := r.stops[j - 1], r.stops[j];
      assert LegAt(r, j - 1, x, next);
      var e := RouteHasOneEdge(g, routes, bound, x, r, j - 1, next);
      assert EdgeIndex(g[x].edges, r) == e;
      var stop := StopVia(g, x, e);
      var step := PathStopDist(stop, Total(ride) + g[x].edges[e].travelTime);
      PathStops(g, {}, ride, |ride| - 1, |ride| - 1);
      ExtendPath(g, {}, ride, step);
      p := ride + [step];
    }
  }

  /** The fastest route is never slower than staying on one route that serves both stations in order. */
  lemma FastestBeatsSingleRoute(g: Graph, routes: seq<RouteInternal>, bound: nat, r: RouteInternal, i: nat, j: nat,
                                fastest: Path)
    requires ProperRoutes(routes, bound) && Agrees(g, routes) && r in routes
    requires i <= j < |r.stops|
    requires IsFastest(g, Departure(r.stops[i]), r.stops[j], {}, fastest)
    ensures fastest != [] && Total(fastest) <= RouteTime(g, r, i, j)
  {
    var p := RideRoute(g, routes, bound, r, i, j);
  }

  /** Changing between two journeys costs at most one penalty. */
  lemma {:induction false} JoinJourneys(g: Graph, start: PathStopDist, b: Id, p: Path, q: Path) returns (r: Path)
    requires IsRouteTo(g, start, b, {}, p)
    requires IsPath(g, {}, q) && q[0] == Departure(b)
    ensures IsPath(g, {}, r) && r[0] == start
    ensures Last(r).stop.node == Last(q).stop.node && (|q| > 1 ==> Last(r).stop == Last(q).stop)
    ensures Total(r) <= Total(p) + CHANGE_PENALTY + Total(q)
    decreases |q|
  {
    if |q| == 1 {
      r := p;
    } else {
      var n := |q| - 1;
      PrefixIsPath(g, {}, q, n);
      var head := JoinJourneys(g, start, b, p, q[..n]);
      assert LinkAt(g, {}, q, n);
      PathStops(g, {}, head, |head| - 1, |head| - 1);
      // Penalties from the second leg on are the same; the first leg may newly incur one.
      var joined := if n == 1 then p else head;
      PathStops(g, {}, joined, |joined| - 1, |joined| - 1);
      var step := PathStopDist(q[n].stop, Total(joined) + Leg(g, Last(joined).stop, q[n].stop));
      ExtendPath(g, {}, joined, step);
      r := joined + [step];
    }
  }

  /** T(A, C) <= T(A, B) + 5 + T(B, C) whenever both legs exist, and then A reaches C. */
  lemma TriangleWithChange(g: Graph, a: Id, b: Id, c: Id, ab: Path, bc: Path, ac: Path)
    requires ab != [] && IsFastest(g, Departure(a), b, {}, ab)
    requires bc != [] && IsFastest(g, Departure(b), c, {}, bc)
    requires IsFastest(g, Departure(a), c, {}, ac)
    ensures ac != [] && Total(ac) <= Total(ab) + CHANGE_PENALTY + Total(bc)
  {
    var r := JoinJourneys(g, Departure(a), b, ab, bc);
    assert IsRouteTo(g, Departure(a), c, {}, r);
  }

  /** A path that meets no station twice has at most as many stops as there are stations. */
  lemma {:induction false} SimplePathIsShort(g: Graph, p: Path)
    requires StationSimple(p) && forall i :: 0 <= i < |p| ==> p[i].stop.node in g
    ensures |p| <= |g|
    decreases |p|
  {
    if p != [] {
      var n := |p| - 1;
      var x := p[n].stop.node;
      var rest := map y | y in g && y != x :: g[y];
      assert g.Keys == rest.Keys + {x};
      SimplePathIsShort(rest, p[..n]);
    }
  }

  ghost predicate TimesAtMost(g: Graph, max: nat) {
    forall x, i :: x in g && 0 <= i < |g[x].edges| ==> g[x].edges[i].travelTime <= max
  }

  lemma {:induction false} PathTimeIsBounded(g: Graph, avoiding: set<PathStop>, p: Path, max: nat)
    requires IsPath(g, avoiding, p) && TimesAtMost(g, max)
    ensures Last(p).dist <= p[0].dist + (|p| - 1) * (max + CHANGE_PENALTY)
    decreases |p|
  {
    if |p| > 1 {
      var n := |p| - 1;
      PrefixIsPath(g, avoiding, p, n);
      PathTimeIsBounded(g, avoiding, p[..n], max);
      assert LinkAt(g, avoiding, p, n);
      assert n * (max + CHANGE_PENALTY) == (n - 1) * (max + CHANGE_PENALTY) + (max + CHANGE_PENALTY);
    }
  }

  /** A recorded path is shorter by one if it does not end at station B. */
  lemma RecordIsShort(q: Query, p: Path)
    requires IsRecord(q, p)
    ensures |p| - 1 <= |q.g|
    ensures q.target in q.g && Last(p).stop.node != q.target ==> |p| <= |q.g|
  {
    if |p| > 1 {
      var rest := p[..|p| - 1];
      forall i | 0 <= i < |rest|
        ensures rest[i].stop.node in q.g && rest[i].stop.node != q.target
      {
        PathStops(q.g, q.avoiding, p, i, i);
      }
      SimplePathIsShort(q.g, rest);
      if q.target in q.g {
        SimplePathIsShort(q.g - {q.target}, rest);
      }
    }
  }

  lemma RecordedPathIsRecord(q: Query, l: Labels, s: PathStop)
    requires Inv(q, l) && s in l.dist
    ensures IsRecord(q, l.tree[s])
  {
    if s in l.prev {
      assert HasParent(q, l, s);
      assert l.tree[s][..|l.tree[s]| - 1] == l.tree[l.prev[s]];
    }
  }

  lemma LegsAreMonotone(m: nat, n: nat, leg: nat)
    requires m <= n
    ensures m * leg <= n * leg
  {
  }

  lemma RecordsAreBounded(q: Query, p: Path, max: nat)
    requires IsRecord(q, p) && TimesAtMost(q.g, max)
    ensures Last(p).dist <= q.start.dist + |q.g| * (max + CHANGE_PENALTY)
    ensures q.target in q.g && Last(p).stop.node != q.target ==>
              Last(p).dist + max + CHANGE_PENALTY <= q.start.dist + |q.g| * (max + CHANGE_PENALTY)
  {
    PathTimeIsBounded(q.g, q.avoiding, p, max);
    RecordIsShort(q, p);
    LegsAreMonotone(|p| - 1, |q.g|, max + CHANGE_PENALTY);
    if q.target in q.g && Last(p).stop.node != q.target {
      LegsAreMonotone(|p|, |q.g|, max + CHANGE_PENALTY);
      assert |p| * (max + CHANGE_PENALTY) == (|p| - 1) * (max + CHANGE_PENALTY) + (max + CHANGE_PENALTY);
    }
  }

  /** No distance a search ever records exceeds one simple tour of the network after the start. */
  lemma RecordedDistancesAreBounded(q: Query, l: Labels, s: PathStop, max: nat)
    requires Inv(q, l) && s in l.dist && TimesAtMost(q.g, max)
    ensures l.dist[s] <= q.start.dist + |q.g| * (max + CHANGE_PENALTY)
  {
    RecordedPathIsRecord(q, l, s);
    RecordsAreBounded(q, l.tree[s], max);
  }

  /**
   * Neither does the distance of any entry of the queue, stale or not, nor a distance computed from it for a
   * neighbor before it is compared with the records.
   */
  lemma ComputedDistancesAreBounded(q: Query, l: Labels, e: PathStopDist, n: PathStop, max: nat)
    requires Inv(q, l) && e in l.queue && TimesAtMost(q.g, max)
    ensures e.dist <= q.start.dist + |q.g| * (max + CHANGE_PENALTY)
    ensures q.target in q.g && e.stop.node != q.target && ValidStop(q.g, e.stop) && Step(q.g, e.stop, n) ==>
              e.dist + Leg(q.g, e.stop, n) <= q.start.dist + |q.g| * (max + CHANGE_PENALTY)
  {
    assert WasRecorded(q, e);
    var p :| IsRecord(q, p) && Last(p) == e;
    RecordsAreBounded(q, p, max);
  }
}
