/**
 * How far the enumeration of alternatives can be relied on: up to two paths it lists the best, and beyond
 * that there are networks in which it does not.
 */
module EnumerationLimits {
  import opened Wrappers
  import opened TransportGraph
  import opened AlternativeRoutes
  import opened LineNetwork

  /**
   * The list is in order of time, and no other trip that meets no station twice is quicker than a listed
   * one, or quick enough if there is room for it.
   */
  ghost predicate AreBest(g: Graph, a: Id, b: Id, maxTravelTime: nat, maxNPaths: nat, paths: seq<Path>)
    requires |paths| > 0
  {
    && (forall i, j :: 0 <= i < j < |paths| ==> Total(paths[i]) <= Total(paths[j]))
    && (forall p, i :: IsRival(g, a, b, paths[0], p) && p !in paths && 0 <= i < |paths| ==> Total(paths[i]) <= Total(p))
    && (forall p :: IsRival(g, a, b, paths[0], p) && p !in paths && |paths| < maxNPaths ==> maxTravelTime < Total(p))
  }

  /** In every network, a list of at most two paths is the best one. */
  lemma BestUpToTwo(g: Graph, a: Id, b: Id, maxTravelTime: nat, maxNPaths: nat, paths: seq<Path>)
    requires maxNPaths <= 2 && IsEnumeration(g, a, b, maxTravelTime, maxNPaths, paths)
    ensures AreBest(g, a, b, maxTravelTime, maxNPaths, paths)
  {
    if maxNPaths == 2 {
      EnumerationHasSecondBest(g, a, b, maxTravelTime, maxNPaths, paths);
    }
    assert forall p :: IsRival(g, a, b, paths[0], p) ==> Total(paths[0]) <= Total(p);
  }

  function Node(id: Id, edges: seq<GraphEdge>): GraphNode {
    GraphNode(id, id, 0, edges)
  }

  /** Reaching station `node` at time `dist` by the `i`-th edge out of `from`. */
  function Via(from: Id, i: nat, node: Id, dist: nat): PathStopDist {
    PathStopDist(PathStop(node, Some(EdgeRef(from, i))), dist)
  }

  /** The next stop of a path is given by one of the edges. */
  lemma NextStop(g: Graph, a: Id, b: Id, p: Path, k: nat) returns (i: nat)
    requires IsTrip(g, a, b, p) && k < |p| && p[k].stop.node != b
    ensures k + 1 < |p| && Link(g, {}, p[k], p[k + 1])
    ensures p[k].stop.node in g && i < |g[p[k].stop.node].edges|
    ensures p[k + 1].stop == StopVia(g, p[k].stop.node, i)
  {
    assert LinkAt(g, {}, p, k + 1);
    i := p[k + 1].stop.edge.value.idx;
  }

  /** Where a route goes on from a station it adds a hop, and nothing elsewhere. */
  lemma OneLeg(r: RouteInternal, x: Id, k: nat)
    requires WellFormedStops(r.stops) && k + 1 < |r.stops| && r.stops[k] == x
    ensures Legs(r, x) == [Hop(r, r.stops[k + 1])]
  {
    LegsFromStop(r, k, |r.stops| - 1);
  }

  lemma NoLeg(r: RouteInternal, x: Id)
    requires |r.stops| > 0 && forall i :: 0 <= i < |r.stops| - 1 ==> r.stops[i] != x
    ensures Legs(r, x) == []
  {
    var n := |r.stops| - 1;
    assert forall i :: 0 <= i < n ==> r.stops[..n][i] == r.stops[i];
    LegsFromElsewhere(r, x, n);
  }

  lemma HopsOfOneMore(routes: seq<RouteInternal>, r: RouteInternal, x: Id)
    ensures HopsFrom(routes + [r], x) == HopsFrom(routes, x) + Legs(r, x)
  {
    assert (routes + [r])[..|routes|] == routes;
  }

  lemma HopsOfTwo(r: RouteInternal, s: RouteInternal, x: Id)
    ensures HopsFrom([r, s], x) == Legs(r, x) + Legs(s, x)
  {
    HopsOfOneMore([], r, x);
    HopsOfOneMore([r], s, x);
    assert [] + [r] == [r] && [r] + [s] == [r, s] && HopsFrom([], x) + Legs(r, x) == Legs(r, x);
  }

  // Two lines side by side: changing from one to the other is found in one direction only

  const LEFT: RouteInternal := RouteInternal(0, "left", "left", ["a", "m", "b"])
  const RIGHT: RouteInternal := RouteInternal(1, "right", "right", ["a", "m", "b"])

  function TwoLines(): Graph {
    map["a" := Node("a", [GraphEdge(LEFT, "m", 1), GraphEdge(RIGHT, "m", 1)]),
        "m" := Node("m", [GraphEdge(LEFT, "b", 1), GraphEdge(RIGHT, "b", 1)]),
        "b" := Node("b", [])]
  }

  lemma TwoLinesHops(x: Id)
    requires x in TwoLines()
    ensures HopsAgree(TwoLines(), [LEFT, RIGHT], x)
  {
    HopsOfTwo(LEFT, RIGHT, x);
    if x == "a" {
      OneLeg(LEFT, x, 0);
      OneLeg(RIGHT, x, 0);
    } else if x == "m" {
      OneLeg(LEFT, x, 1);
      OneLeg(RIGHT, x, 1);
    } else {
      NoLeg(LEFT, x);
      NoLeg(RIGHT, x);
    }
  }

  /** The graph is the one that adding the two lines gives. */
  lemma TwoLinesAgree()
    ensures ProperRoutes([LEFT, RIGHT], 2) && Agrees(TwoLines(), [LEFT, RIGHT])
  {
    forall x | x in TwoLines()
      ensures HopsAgree(TwoLines(), [LEFT, RIGHT], x)
    {
      TwoLinesHops(x);
    }
  }

  /** Taking the `i`-th line first and the `j`-th line second. */
  function Ride(i: nat, j: nat): Path {
    [Departure("a"), Via("a", i, "m", 1), Via("m", j, "b", if i == j then 2 else 7)]
  }

  lemma RideIsTrip(i: nat, j: nat)
    requires i < 2 && j < 2
    ensures IsTrip(TwoLines(), "a", "b", Ride(i, j)) && StationSimple(Ride(i, j))
  {
    var g, p := TwoLines(), Ride(i, j);
    forall k | 1 <= k < |p|
      ensures LinkAt(g, {}, p, k)
    {
      assert ValidStop(g, p[k].stop) && Step(g, p[k - 1].stop, p[k].stop);
    }
  }

  lemma TripIsRide(p: Path) returns (i: nat, j: nat)
    requires IsTrip(TwoLines(), "a", "b", p)
    ensures i < 2 && j < 2 && p == Ride(i, j)
  {
    i := NextStop(TwoLines(), "a", "b", p, 0);
    j := NextStop(TwoLines(), "a", "b", p, 1);
    TripEndsOnce(TwoLines(), "a", "b", p);
  }

  lemma NextIsRemoved(paths: seq<Path>, j: nat, last: Path, idx: nat)
    requires j < |paths| && idx <= |last| && SharesRoot(paths[j], last, idx)
    ensures paths[j][idx + 1].stop in NextStops(paths, last, idx)
  {
  }

  /** No later stop of a deviation is the one that an accepted path with the same root takes next. */
  lemma DeviationAvoids(g: Graph, a: Id, b: Id, paths: seq<Path>, q: nat, idx: nat, p: Path, j: nat, k: nat)
    requires DeviatesIn(g, a, b, paths, q, idx, p)
    requires j <= q && SharesRoot(paths[j], paths[q], idx) && idx < k < |p|
    ensures p[k].stop != paths[j][idx + 1].stop
  {
    NextIsRemoved(paths[..q + 1], j, paths[q], idx);
  }

  lemma DeviationShares(g: Graph, a: Id, b: Id, paths: seq<Path>, q: nat, idx: nat, p: Path, i: nat)
    requires DeviatesIn(g, a, b, paths, q, idx, p)
    ensures idx < |paths[q]| && idx + 1 < |p| && (i <= idx ==> p[i] == paths[q][i])
  {
    assert i <= idx ==> p[..idx + 1][i] == p[i] && paths[q][..idx + 1][i] == paths[q][i];
  }

  /** A trip deviates if it shares the root and each of its later stops differs from all removed ones. */
  lemma AvoidingDeviates(g: Graph, a: Id, b: Id, paths: seq<Path>, q: nat, idx: nat, p: Path)
    requires q < |paths| && IsTrip(g, a, b, p)
    requires idx < |paths[q]| && idx + 1 < |p| && p[..idx + 1] == paths[q][..idx + 1]
    requires forall j, k :: 0 <= j <= q && idx < k < |p| && SharesRoot(paths[j], paths[q], idx) ==>
               p[k].stop != paths[j][idx + 1].stop
    ensures DeviatesIn(g, a, b, paths, q, idx, p)
  {
    forall k | idx < k < |p|
      ensures p[k].stop !in NextStops(paths[..q + 1], paths[q], idx)
    {
    }
  }

  /** Whichever line is found first, the other one is second. */
  lemma OtherLineIsSecond(maxTravelTime: nat, maxNPaths: nat, paths: seq<Path>, i: nat)
    requires IsEnumeration(TwoLines(), "a", "b", maxTravelTime, maxNPaths, paths)
    requires i < 2 && paths[0] == Ride(i, i) && |paths| > 1
    ensures DeviatesIn(TwoLines(), "a", "b", paths, 0, 0, Ride(1 - i, 1 - i))
    ensures paths[1] == Ride(1 - i, 1 - i)
  {
    RideIsTrip(1 - i, 1 - i);
    AvoidingDeviates(TwoLines(), "a", "b", paths, 0, 0, Ride(1 - i, 1 - i));
    NextPathIsBest(TwoLines(), "a", "b", maxTravelTime, maxNPaths, paths, 0, 0, Ride(1 - i, 1 - i));
    var x, y := TripIsRide(paths[1]);
    assert paths[0] != paths[1];
  }

  /** The change back to the first line is never a candidate. */
  lemma ChangeBackIsNoCandidate(maxTravelTime: nat, maxNPaths: nat, paths: seq<Path>, i: nat, q: nat, idx: nat)
    requires IsEnumeration(TwoLines(), "a", "b", maxTravelTime, maxNPaths, paths)
    requires i < 2 && paths[0] == Ride(i, i) && q < |paths| && |paths| > 1
    ensures !IsCandidateOf(TwoLines(), "a", "b", paths, q, idx, Ride(1 - i, i))
  {
    OtherLineIsSecond(maxTravelTime, maxNPaths, paths, i);
    if IsCandidateOf(TwoLines(), "a", "b", paths, q, idx, Ride(1 - i, i)) {
      var x, y := TripIsRide(paths[q]);
      ChangeBackIsBarred(paths, i, q, idx, x, y);
      assert false;
    }
  }

  /** Only before the other line is accepted the change back is not barred. */
  lemma ChangeBackIsBarred(paths: seq<Path>, i: nat, q: nat, idx: nat, x: nat, y: nat)
    requires i < 2 && 1 < |paths| && paths[0] == Ride(i, i) && paths[1] == Ride(1 - i, 1 - i)
    requires q < |paths| && paths[q] == Ride(x, y)
    requires DeviatesIn(TwoLines(), "a", "b", paths, q, idx, Ride(1 - i, i))
    ensures q == 0 && idx == 0
  {
    if idx == 1 {
      assert SharesRoot(paths[0], paths[q], 1);
      DeviationAvoids(TwoLines(), "a", "b", paths, q, idx, Ride(1 - i, i), 0, 2);
    } else if q > 0 {
      assert SharesRoot(paths[1], paths[q], 0);
      DeviationAvoids(TwoLines(), "a", "b", paths, q, idx, Ride(1 - i, i), 1, 1);
    }
  }

  /**
   * With two lines side by side, the enumeration always misses one of the two ways to change between them,
   * however many paths and however slow ones it may list.
   */
  lemma ChangeBackIsMissed(maxTravelTime: nat, maxNPaths: nat, paths: seq<Path>) returns (p: Path)
    requires IsEnumeration(TwoLines(), "a", "b", maxTravelTime, maxNPaths, paths)
    ensures IsRival(TwoLines(), "a", "b", paths[0], p) && Total(p) == 7 && p !in paths
  {
    var i, j := TripIsRide(paths[0]);
    RideIsTrip(0, 0);
    assert Total(paths[0]) <= Total(Ride(0, 0));
    p := Ride(1 - i, i);
    RideIsTrip(1 - i, i);
    if k: nat :| k < |paths| && paths[k] == p {
      assert AcceptsBest(TwoLines(), "a", "b", paths, k - 1);
      var q: nat, idx: nat :| q < k && IsCandidateOf(TwoLines(), "a", "b", paths, q, idx, p);
      ChangeBackIsNoCandidate(maxTravelTime, maxNPaths, paths, i, q, idx);
      assert false;
    }
  }

  /** Searching the network of two lines gives such a list, for any number of paths and any slowdown. */
  method SearchTwoLines(maxSlowdownPc: real, maxNPaths: nat) returns (paths: seq<Path>, ghost missed: Path)
    requires maxSlowdownPc >= -1.0
    ensures |paths| > 0 && missed !in paths && Total(missed) == 7
    ensures IsRival(TwoLines(), "a", "b", paths[0], missed)
  {
    paths := GetFastestTravelRoutes(TwoLines(), "a", "b", maxSlowdownPc, maxNPaths);
    RideIsTrip(0, 0);
    assert IsRouteTo(TwoLines(), Departure("a"), "b", {}, Ride(0, 0));
    missed := ChangeBackIsMissed(MaxTravelTime(Total(paths[0]), maxSlowdownPc), maxNPaths, paths);
  }

  // A detour: the stop that would make a candidate quick is removed because another path uses it

  const OUTER: RouteInternal := RouteInternal(0, "outer", "outer", ["a", "t", "b"])
  const INNER: RouteInternal := RouteInternal(1, "inner", "inner", ["a", "s", "b"])
  const SLOW: RouteInternal := RouteInternal(2, "slow", "slow", ["s", "w", "b"])
  const CROSS: RouteInternal := RouteInternal(3, "cross", "cross", ["w", "t"])

  function Detour(): Graph {
    map["a" := Node("a", [GraphEdge(OUTER, "t", 1), GraphEdge(INNER, "s", 1)]),
        "t" := Node("t", [GraphEdge(OUTER, "b", 1)]),
        "s" := Node("s", [GraphEdge(INNER, "b", 10), GraphEdge(SLOW, "w", 1)]),
        "w" := Node("w", [GraphEdge(SLOW, "b", 100), GraphEdge(CROSS, "t", 1)]),
        "b" := Node("b", [])]
  }

  lemma HopsOfFour(r: RouteInternal, s: RouteInternal, t: RouteInternal, u: RouteInternal, x: Id)
    ensures HopsFrom([r, s, t, u], x) == Legs(r, x) + Legs(s, x) + Legs(t, x) + Legs(u, x)
  {
    HopsOfTwo(r, s, x);
    HopsOfOneMore([r, s], t, x);
    HopsOfOneMore([r, s, t], u, x);
    assert [r, s] + [t] == [r, s, t] && [r, s, t] + [u] == [r, s, t, u];
  }

  lemma DetourHopsAtA()
    ensures HopsAgree(Detour(), [OUTER, INNER, SLOW, CROSS], "a")
  {
    HopsOfFour(OUTER, INNER, SLOW, CROSS, "a");
    OneLeg(OUTER, "a", 0);
    OneLeg(INNER, "a", 0);
    NoLeg(SLOW, "a");
    NoLeg(CROSS, "a");
  }

  lemma DetourHopsAtT()
    ensures HopsAgree(Detour(), [OUTER, INNER, SLOW, CROSS], "t")
  {
    HopsOfFour(OUTER, INNER, SLOW, CROSS, "t");
    OneLeg(OUTER, "t", 1);
    NoLeg(INNER, "t");
    NoLeg(SLOW, "t");
    NoLeg(CROSS, "t");
  }

  lemma DetourHopsAtS()
    ensures HopsAgree(Detour(), [OUTER, INNER, SLOW, CROSS], "s")
  {
    HopsOfFour(OUTER, INNER, SLOW, CROSS, "s");
    NoLeg(OUTER, "s");
    OneLeg(INNER, "s", 1);
    OneLeg(SLOW, "s", 0);
    NoLeg(CROSS, "s");
  }

  lemma DetourHopsAtW()
    ensures HopsAgree(Detour(), [OUTER, INNER, SLOW, CROSS], "w")
  {
    HopsOfFour(OUTER, INNER, SLOW, CROSS, "w");
    NoLeg(OUTER, "w");
    NoLeg(INNER, "w");
    OneLeg(SLOW, "w", 1);
    OneLeg(CROSS, "w", 0);
  }

  lemma DetourHopsAtB()
    ensures HopsAgree(Detour(), [OUTER, INNER, SLOW, CROSS], "b")
  {
    HopsOfFour(OUTER, INNER, SLOW, CROSS, "b");
    NoLeg(OUTER, "b");
    NoLeg(INNER, "b");
    NoLeg(SLOW, "b");
    NoLeg(CROSS, "b");
  }

  lemma DetourRoutesAreProper()
    ensures ProperRoutes([OUTER, INNER, SLOW, CROSS], 4)
    ensures forall r :: r in [OUTER, INNER, SLOW, CROSS] ==> StopsKnown(Detour(), r)
  {
  }

  /** The graph is the one that adding the four lines gives. */
  lemma DetourAgrees()
    ensures ProperRoutes([OUTER, INNER, SLOW, CROSS], 4) && Agrees(Detour(), [OUTER, INNER, SLOW, CROSS])
  {
    DetourRoutesAreProper();
    DetourHopsAtA();
    DetourHopsAtT();
    DetourHopsAtS();
    DetourHopsAtW();
    DetourHopsAtB();
  }

  /** The trips through the network: by the outer and the inner line, and by two ways through station w. */
  function Trip(k: nat): Path
    requires k < 4
  {
    if k == 0 then [Departure("a"), Via("a", 0, "t", 1), Via("t", 0, "b", 2)]
    else if k == 1 then [Departure("a"), Via("a", 1, "s", 1), Via("s", 0, "b", 11)]
    else if k == 2 then [Departure("a"), Via("a", 1, "s", 1), Via("s", 1, "w", 7), Via("w", 0, "b", 107)]
    else [Departure("a"), Via("a", 1, "s", 1), Via("s", 1, "w", 7), Via("w", 1, "t", 13), Via("t", 0, "b", 19)]
  }

  lemma EdgeGivesLink(g: Graph, p: PathStopDist, i: nat, q: PathStopDist)
    requires Closed(g) && ValidStop(g, p.stop) && i < |g[p.stop.node].edges|
    requires q.stop == StopVia(g, p.stop.node, i)
    requires q.dist == p.dist + Leg(g, p.stop, q.stop)
    ensures Link(g, {}, p, q)
  {
  }

  lemma ShortTripHasLinks(k: nat, j: nat)
    requires k < 2 && 1 <= j < |Trip(k)|
    ensures LinkAt(Detour(), {}, Trip(k), j)
  {
    EdgeGivesLink(Detour(), Trip(k)[j - 1], Trip(k)[j].stop.edge.value.idx, Trip(k)[j]);
  }

  lemma LongTripHasLinks(k: nat, j: nat)
    requires 2 <= k < 4 && 1 <= j < |Trip(k)|
    ensures LinkAt(Detour(), {}, Trip(k), j)
  {
    EdgeGivesLink(Detour(), Trip(k)[j - 1], Trip(k)[j].stop.edge.value.idx, Trip(k)[j]);
  }

  lemma TripIsTrip(k: nat)
    requires k < 4
    ensures IsTrip(Detour(), "a", "b", Trip(k)) && StationSimple(Trip(k))
  {
    forall j | 1 <= j < |Trip(k)|
      ensures LinkAt(Detour(), {}, Trip(k), j)
    {
      if k < 2 {
        ShortTripHasLinks(k, j);
      } else {
        LongTripHasLinks(k, j);
      }
    }
  }

  lemma OnlyTrips(p: Path) returns (k: nat)
    requires IsTrip(Detour(), "a", "b", p)
    ensures k < 4 && p == Trip(k)
  {
    TripEndsOnce(Detour(), "a", "b", p);
    var first := NextStop(Detour(), "a", "b", p, 0);
    var second := NextStop(Detour(), "a", "b", p, 1);
    if first == 0 {
      k := 0;
    } else if second == 0 {
      k := 1;
    } else {
      var third := NextStop(Detour(), "a", "b", p, 2);
      if third == 0 {
        k := 2;
      } else {
        var fourth := NextStop(Detour(), "a", "b", p, 3);
        k := 3;
      }
    }
  }

  /** The first three paths are the outer line, the inner line, and the slow way through station w. */
  ghost predicate StartsWith(paths: seq<Path>, n: nat) {
    n <= |paths| && forall k :: 0 <= k < n && k < 4 ==> paths[k] == Trip(k)
  }

  lemma OuterComesFirst(maxTravelTime: nat, maxNPaths: nat, paths: seq<Path>)
    requires IsEnumeration(Detour(), "a", "b", maxTravelTime, maxNPaths, paths)
    ensures StartsWith(paths, 1)
  {
    var k := OnlyTrips(paths[0]);
    TripIsTrip(0);
    assert Total(paths[0]) <= Total(Trip(0));
  }

  lemma InnerComesSecond(maxTravelTime: nat, maxNPaths: nat, paths: seq<Path>)
    requires IsEnumeration(Detour(), "a", "b", maxTravelTime, maxNPaths, paths)
    requires maxTravelTime >= 107 && maxNPaths > 1
    ensures StartsWith(paths, 2)
  {
    OuterComesFirst(maxTravelTime, maxNPaths, paths);
    TripIsTrip(1);
    AvoidingDeviates(Detour(), "a", "b", paths, 0, 0, Trip(1));
    NextPathIsBest(Detour(), "a", "b", maxTravelTime, maxNPaths, paths, 0, 0, Trip(1));
    var k := OnlyTrips(paths[1]);
    assert paths[0] != paths[1];
  }

  /** The quick way through station w leaves only the outer line, and only at the start. */
  lemma QuickWayIsBarred(paths: seq<Path>, q: nat, idx: nat)
    requires StartsWith(paths, 2) && q < 2
    requires DeviatesIn(Detour(), "a", "b", paths, q, idx, Trip(3))
    ensures q == 0 && idx == 0
  {
    DeviationShares(Detour(), "a", "b", paths, q, idx, Trip(3), 1);
    DeviationShares(Detour(), "a", "b", paths, q, idx, Trip(3), 2);
    if q == 1 && idx == 0 {
      DeviationAvoids(Detour(), "a", "b", paths, q, idx, Trip(3), 1, 1);
    } else if q == 1 && idx == 1 {
      DeviationAvoids(Detour(), "a", "b", paths, q, idx, Trip(3), 0, 4);
    }
  }

  /** In the first two rounds the quick way through station w is no candidate. */
  lemma QuickWayIsNotFound(paths: seq<Path>, q: nat, idx: nat)
    requires StartsWith(paths, 2) && q < 2
    ensures !IsCandidateOf(Detour(), "a", "b", paths, q, idx, Trip(3))
  {
    if IsCandidateOf(Detour(), "a", "b", paths, q, idx, Trip(3)) {
      QuickWayIsBarred(paths, q, idx);
      TripIsTrip(1);
      AvoidingDeviates(Detour(), "a", "b", paths, 0, 0, Trip(1));
      assert false;
    }
  }

  lemma SlowWayComesThird(maxTravelTime: nat, maxNPaths: nat, paths: seq<Path>)
    requires IsEnumeration(Detour(), "a", "b", maxTravelTime, maxNPaths, paths)
    requires maxTravelTime >= 107 && maxNPaths > 2
    ensures StartsWith(paths, 3)
  {
    InnerComesSecond(maxTravelTime, maxNPaths, paths);
    TripIsTrip(2);
    AvoidingDeviates(Detour(), "a", "b", paths, 1, 1, Trip(2));
    NextPathIsBest(Detour(), "a", "b", maxTravelTime, maxNPaths, paths, 1, 1, Trip(2));
    assert AcceptsBest(Detour(), "a", "b", paths, 1);
    var q: nat, idx: nat :| q < 2 && IsCandidateOf(Detour(), "a", "b", paths, q, idx, paths[2]);
    QuickWayIsNotFound(paths, q, idx);
    var k := OnlyTrips(paths[2]);
    assert paths[0] != paths[2] && paths[1] != paths[2];
  }

  lemma QuickWayComesFourth(maxTravelTime: nat, maxNPaths: nat, paths: seq<Path>)
    requires IsEnumeration(Detour(), "a", "b", maxTravelTime, maxNPaths, paths)
    requires maxTravelTime >= 107 && maxNPaths > 3
    ensures StartsWith(paths, 4)
  {
    SlowWayComesThird(maxTravelTime, maxNPaths, paths);
    TripIsTrip(3);
    AvoidingDeviates(Detour(), "a", "b", paths, 2, 2, Trip(3));
    NextPathIsBest(Detour(), "a", "b", maxTravelTime, maxNPaths, paths, 2, 2, Trip(3));
    var k := OnlyTrips(paths[3]);
    assert paths[0] != paths[3] && paths[1] != paths[3] && paths[2] != paths[3];
  }

  /**
   * In the network with the detour, a list with room for more than two paths is never the best one: with
   * room for three it lacks a quicker trip than its third, and with more room it lists that trip too late.
   */
  lemma NotBestBeyondTwo(maxTravelTime: nat, maxNPaths: nat, paths: seq<Path>)
    requires maxNPaths > 2 && maxTravelTime >= 107
    requires IsEnumeration(Detour(), "a", "b", maxTravelTime, maxNPaths, paths)
    ensures !AreBest(Detour(), "a", "b", maxTravelTime, maxNPaths, paths)
    ensures maxNPaths > 3 ==> |paths| > 3 && Total(paths[3]) < Total(paths[2])
  {
    SlowWayComesThird(maxTravelTime, maxNPaths, paths);
    if maxNPaths > 3 {
      QuickWayComesFourth(maxTravelTime, maxNPaths, paths);
      assert Total(paths[3]) < Total(paths[2]);
    } else {
      TripIsTrip(3);
      assert IsRival(Detour(), "a", "b", paths[0], Trip(3)) && Trip(3) !in paths;
      assert Total(Trip(3)) < Total(paths[2]);
    }
  }

  /** Searching the network with the detour gives such a list. */
  method SearchDetour(maxNPaths: nat) returns (paths: seq<Path>)
    requires maxNPaths > 2
    ensures |paths| > 2 && Total(paths[2]) == 107
    ensures IsEnumeration(Detour(), "a", "b", 122, maxNPaths, paths)
    ensures !AreBest(Detour(), "a", "b", 122, maxNPaths, paths)
  {
    paths := GetFastestTravelRoutes(Detour(), "a", "b", 60.0, maxNPaths);
    TripIsTrip(0);
    assert IsRouteTo(Detour(), Departure("a"), "b", {}, Trip(0));
    var k := OnlyTrips(paths[0]);
    assert Total(paths[0]) == 2;
    SlowWayComesThird(122, maxNPaths, paths);
    NotBestBeyondTwo(122, maxNPaths, paths);
  }
}
