/**
 * How far the quiet choice can be relied on: even without a limit on the number of paths, and with no negative
 * passenger counts, a quieter path within the slowdown can be missed.
 */
module QuietLimits {
  import opened TransportGraph
  import opened AlternativeRoutes
  import opened LineNetwork
  import opened EnumerationLimits
  import opened TravelPlans

  const U: RouteInternal := RouteInternal(0, "u", "u", ["a", "y", "e", "b"])
  const D: RouteInternal := RouteInternal(1, "d", "d", ["a", "d", "b"])
  const G: RouteInternal := RouteInternal(2, "g", "g", ["a", "s", "g", "b"])
  const H: RouteInternal := RouteInternal(3, "h", "h", ["s", "h", "b"])
  const V: RouteInternal := RouteInternal(4, "v", "v", ["s", "y", "x"])
  const E: RouteInternal := RouteInternal(5, "e", "e", ["x", "d"])
  const C: RouteInternal := RouteInternal(6, "c", "c", ["x", "c", "b"])

  function Station(id: Id, passengers: nat, edges: seq<GraphEdge>): GraphNode {
    GraphNode(id, id, passengers, edges)
  }

  /** Stations d, e, g and h are crowded; each of the others is empty. */
  function Net(): Graph {
    map["a" := Station("a", 0, [GraphEdge(U, "y", 6), GraphEdge(D, "d", 8), GraphEdge(G, "s", 1)]),
        "y" := Station("y", 0, [GraphEdge(U, "e", 1), GraphEdge(V, "x", 1)]),
        "e" := Station("e", 100, [GraphEdge(U, "b", 1)]),
        "d" := Station("d", 100, [GraphEdge(D, "b", 1)]),
        "s" := Station("s", 0, [GraphEdge(G, "g", 8), GraphEdge(H, "h", 10), GraphEdge(V, "y", 1)]),
        "g" := Station("g", 100, [GraphEdge(G, "b", 1)]),
        "h" := Station("h", 100, [GraphEdge(H, "b", 10)]),
        "x" := Station("x", 0, [GraphEdge(E, "d", 1), GraphEdge(C, "c", 10)]),
        "c" := Station("c", 0, [GraphEdge(C, "b", 5)]),
        "b" := Station("b", 0, [])]
  }

  /** The trips from a to b: three that go to y first, one that goes to d, and five that go to s. */
  function Way(k: nat): Path
    requires k < 9
  {
    match k
    case 0 => [Departure("a"), Via("a", 0, "y", 6), Via("y", 0, "e", 7), Via("e", 0, "b", 8)]
    case 1 => [Departure("a"), Via("a", 0, "y", 6), Via("y", 1, "x", 12), Via("x", 0, "d", 18), Via("d", 0, "b", 24)]
    case 2 => [Departure("a"), Via("a", 0, "y", 6), Via("y", 1, "x", 12), Via("x", 1, "c", 27), Via("c", 0, "b", 32)]
    case 3 => [Departure("a"), Via("a", 1, "d", 8), Via("d", 0, "b", 9)]
    case 4 => [Departure("a"), Via("a", 2, "s", 1), Via("s", 0, "g", 9), Via("g", 0, "b", 10)]
    case 5 => [Departure("a"), Via("a", 2, "s", 1), Via("s", 1, "h", 16), Via("h", 0, "b", 26)]
    case 6 => [Departure("a"), Via("a", 2, "s", 1), Via("s", 2, "y", 7), Via("y", 0, "e", 13), Via("e", 0, "b", 14)]
    case 7 => [Departure("a"), Via("a", 2, "s", 1), Via("s", 2, "y", 7), Via("y", 1, "x", 8), Via("x", 0, "d", 14),
               Via("d", 0, "b", 20)]
    case _ => [Departure("a"), Via("a", 2, "s", 1), Via("s", 2, "y", 7), Via("y", 1, "x", 8), Via("x", 1, "c", 23),
               Via("c", 0, "b", 28)]
  }

  lemma NetIsClosed()
    ensures Closed(Net())
  {
  }

  lemma WayByYHasLinks(k: nat, j: nat)
    requires k < 2 && 1 <= j < |Way(k)|
    ensures LinkAt(Net(), {}, Way(k), j)
  {
    NetIsClosed();
    EdgeGivesLink(Net(), Way(k)[j - 1], Way(k)[j].stop.edge.value.idx, Way(k)[j]);
  }

  lemma ShortWayHasLinks(k: nat, j: nat)
    requires 3 <= k < 6 && 1 <= j < |Way(k)|
    ensures LinkAt(Net(), {}, Way(k), j)
  {
    NetIsClosed();
    EdgeGivesLink(Net(), Way(k)[j - 1], Way(k)[j].stop.edge.value.idx, Way(k)[j]);
  }

  lemma QuietWayHasLinks(j: nat)
    requires 1 <= j < |Way(8)|
    ensures LinkAt(Net(), {}, Way(8), j)
  {
    NetIsClosed();
    EdgeGivesLink(Net(), Way(8)[j - 1], Way(8)[j].stop.edge.value.idx, Way(8)[j]);
  }

  lemma WayIsTrip(k: nat)
    requires k in {0, 1, 3, 4, 5, 8}
    ensures IsTrip(Net(), "a", "b", Way(k)) && StationSimple(Way(k))
  {
    forall j | 1 <= j < |Way(k)|
      ensures LinkAt(Net(), {}, Way(k), j)
    {
      if k < 2 {
        WayByYHasLinks(k, j);
      } else if k < 6 {
        ShortWayHasLinks(k, j);
      } else {
        QuietWayHasLinks(j);
      }
    }
  }

  lemma FirstStep(p: Path) returns (first: nat)
    requires IsTrip(Net(), "a", "b", p)
    ensures first < 3 && |p| > 2
    ensures p[1] == if first == 0 then Via("a", 0, "y", 6) else if first == 1 then Via("a", 1, "d", 8)
                    else Via("a", 2, "s", 1)
  {
    first := NextStop(Net(), "a", "b", p, 0);
    var second := NextStop(Net(), "a", "b", p, 1);
  }

  lemma OnlyWays(p: Path) returns (k: nat)
    requires IsTrip(Net(), "a", "b", p)
    ensures k < 9 && p == Way(k)
  {
    TripEndsOnce(Net(), "a", "b", p);
    var first := FirstStep(p);
    var second := NextStop(Net(), "a", "b", p, 1);
    if first == 0 {
      k := WaysByY(p, second);
    } else if first == 1 {
      k := 3;
    } else {
      k := WaysByS(p, second);
    }
  }

  lemma WaysByY(p: Path, second: nat) returns (k: nat)
    requires IsTrip(Net(), "a", "b", p) && |p| > 2 && second < 2
    requires p[1] == Via("a", 0, "y", 6)
    requires p[2] == if second == 0 then Via("y", 0, "e", 7) else Via("y", 1, "x", 12)
    ensures k < 3 && p == Way(k)
  {
    TripEndsOnce(Net(), "a", "b", p);
    var third := NextStop(Net(), "a", "b", p, 2);
    if second == 0 {
      k := 0;
    } else {
      var fourth := NextStop(Net(), "a", "b", p, 3);
      k := if third == 0 then 1 else 2;
    }
  }

  lemma WaysByS(p: Path, second: nat) returns (k: nat)
    requires IsTrip(Net(), "a", "b", p) && |p| > 2 && second < 3
    requires p[1] == Via("a", 2, "s", 1)
    requires p[2] == if second == 0 then Via("s", 0, "g", 9) else if second == 1 then Via("s", 1, "h", 16)
                     else Via("s", 2, "y", 7)
    ensures 4 <= k < 9 && p == Way(k)
  {
    TripEndsOnce(Net(), "a", "b", p);
    var third := NextStop(Net(), "a", "b", p, 2);
    if second < 2 {
      k := 4 + second;
    } else {
      k := WaysBySAndY(p, third);
    }
  }

  lemma WaysBySAndY(p: Path, third: nat) returns (k: nat)
    requires IsTrip(Net(), "a", "b", p) && |p| > 3 && third < 2
    requires p[1] == Via("a", 2, "s", 1) && p[2] == Via("s", 2, "y", 7)
    requires p[3] == if third == 0 then Via("y", 0, "e", 13) else Via("y", 1, "x", 8)
    ensures 6 <= k < 9 && p == Way(k)
  {
    TripEndsOnce(Net(), "a", "b", p);
    var fourth := NextStop(Net(), "a", "b", p, 3);
    if third == 0 {
      k := 6;
    } else {
      var fifth := NextStop(Net(), "a", "b", p, 4);
      k := if fourth == 0 then 7 else 8;
    }
  }

  // The ways by s and y are never listed

  lemma OuterComesFirst(maxTravelTime: nat, maxNPaths: nat, paths: seq<Path>)
    requires IsEnumeration(Net(), "a", "b", maxTravelTime, maxNPaths, paths)
    ensures paths[0] == Way(0)
  {
    var k := OnlyWays(paths[0]);
    WayIsTrip(0);
    assert Total(paths[0]) <= Total(Way(0));
  }

  lemma WayByDLeavesFirst(paths: seq<Path>)
    requires |paths| > 0 && paths[0] == Way(0)
    ensures DeviatesIn(Net(), "a", "b", paths, 0, 0, Way(3))
  {
    WayIsTrip(3);
    AvoidingDeviates(Net(), "a", "b", paths, 0, 0, Way(3));
  }

  lemma WayByXLeavesFirst(paths: seq<Path>)
    requires |paths| > 0 && paths[0] == Way(0)
    ensures DeviatesIn(Net(), "a", "b", paths, 0, 1, Way(1))
  {
    WayIsTrip(1);
    AvoidingDeviates(Net(), "a", "b", paths, 0, 1, Way(1));
  }

  lemma OnlyTwoAreQuick(p: Path)
    requires IsTrip(Net(), "a", "b", p) && Total(p) <= 9
    ensures p == Way(0) || p == Way(3)
  {
    var k := OnlyWays(p);
  }

  /** Before a way by s is accepted, the way by d is. */
  lemma WayByDComesBefore(maxTravelTime: nat, maxNPaths: nat, paths: seq<Path>, q: nat) returns (j: nat)
    requires IsEnumeration(Net(), "a", "b", maxTravelTime, maxNPaths, paths)
    requires q < |paths| && Total(paths[q]) > 9
    ensures j < q && paths[j] == Way(3)
  {
    OuterComesFirst(maxTravelTime, maxNPaths, paths);
    WayByDLeavesFirst(paths);
    j := QuickerIsServedBefore(Net(), "a", "b", maxTravelTime, maxNPaths, paths, q, 0, 0, Way(3));
    assert paths[j] in paths && paths[j] != paths[0];
    OnlyTwoAreQuick(paths[j]);
  }

  /** The trips that go to y first continue to e or to x. */
  lemma NextAfterY(p: Path)
    requires IsTrip(Net(), "a", "b", p) && |p| > 1 && p[1] == Via("a", 0, "y", 6)
    ensures p == Way(0) || (|p| > 2 && p[0] == Departure("a") && p[2] == Via("y", 1, "x", 12))
  {
    var k := OnlyWays(p);
  }

  /** Before the way by h is accepted, a way by y and x is, which bars that leg from all other ways. */
  lemma WayByXComesBefore(maxTravelTime: nat, maxNPaths: nat, paths: seq<Path>, q: nat) returns (j: nat)
    requires IsEnumeration(Net(), "a", "b", maxTravelTime, maxNPaths, paths)
    requires q < |paths| && Total(paths[q]) > 24
    ensures j < q && |paths[j]| > 2 && paths[j][0] == Departure("a") && paths[j][2] == Via("y", 1, "x", 12)
  {
    OuterComesFirst(maxTravelTime, maxNPaths, paths);
    WayByXLeavesFirst(paths);
    j := QuickerIsServedBefore(Net(), "a", "b", maxTravelTime, maxNPaths, paths, q, 0, 1, Way(1));
    DeviationShares(Net(), "a", "b", paths, 0, 1, paths[j], 1);
    assert paths[j] in paths && paths[j] != paths[0];
    NextAfterY(paths[j]);
  }

  /** The quickest way by s leaves the last path at the start, if any of these ways does. */
  lemma WayByGIsQuicker(paths: seq<Path>, q: nat, k: nat)
    requires (forall p :: p in paths ==> IsTrip(Net(), "a", "b", p)) && 6 <= k < 9
    ensures !IsCandidateOf(Net(), "a", "b", paths, q, 0, Way(k))
  {
    if IsCandidateOf(Net(), "a", "b", paths, q, 0, Way(k)) {
      WayIsTrip(4);
      forall j, i | 0 <= j <= q && 0 < i < |Way(4)| && SharesRoot(paths[j], paths[q], 0)
        ensures Way(4)[i].stop != paths[j][1].stop
      {
        DeviationAvoids(Net(), "a", "b", paths, q, 0, Way(k), j, 1);
        var first := FirstStep(paths[j]);
      }
      assert paths[q] in paths;
      AvoidingDeviates(Net(), "a", "b", paths, q, 0, Way(4));
      assert false;
    }
  }

  /** None of the first `n` paths goes by s and y. */
  ghost predicate NoneBySAndY(paths: seq<Path>, n: nat) {
    forall j, k :: 0 <= j < n && j < |paths| && 6 <= k < 9 ==> paths[j] != Way(k)
  }

  /** The way by s, y and e is barred by the first path, and the one by s, y, x and d by the one by d. */
  lemma CrowdedWaysAreBarred(paths: seq<Path>, q: nat, k: nat, j: nat)
    requires q < |paths| && 6 <= k < 8 && |paths[q]| > 1 && paths[q][0] == Departure("a")
    requires paths[0] == Way(0) && j <= q && paths[j] == Way(3)
    ensures !DeviatesIn(Net(), "a", "b", paths, q, 1, Way(k))
  {
    if DeviatesIn(Net(), "a", "b", paths, q, 1, Way(k)) {
      if k == 6 {
        DeviationAvoids(Net(), "a", "b", paths, q, 1, Way(k), 0, 3);
      } else {
        DeviationAvoids(Net(), "a", "b", paths, q, 1, Way(k), j, 5);
      }
      assert false;
    }
  }

  /** The quiet way is barred where a way by y and x was accepted. */
  lemma QuietWayIsBarred(paths: seq<Path>, q: nat, j: nat)
    requires q < |paths| && |paths[q]| > 1 && paths[q][0] == Departure("a")
    requires j <= q && |paths[j]| > 2 && paths[j][0] == Departure("a") && paths[j][2] == Via("y", 1, "x", 12)
    ensures !DeviatesIn(Net(), "a", "b", paths, q, 1, Way(8))
  {
    if DeviatesIn(Net(), "a", "b", paths, q, 1, Way(8)) {
      DeviationAvoids(Net(), "a", "b", paths, q, 1, Way(8), j, 3);
      assert false;
    }
  }

  /** A path that is neither the way by h nor one by s and y does not use the legs of the way by h as its second. */
  lemma OthersLeaveH(p: Path)
    requires IsTrip(Net(), "a", "b", p) && p != Way(5)
    ensures |p| > 2 && p[0] == Departure("a") && p[2].stop != Way(5)[2].stop && p[2].stop != Way(5)[3].stop
  {
    var k := OnlyWays(p);
  }

  /** As long as the way by h is not accepted, it is a quicker candidate than the quiet way. */
  lemma WayByHIsQuicker(paths: seq<Path>, q: nat)
    requires forall p :: p in paths ==> IsTrip(Net(), "a", "b", p)
    requires q < |paths| && forall j :: 0 <= j <= q ==> paths[j] != Way(5)
    ensures !IsCandidateOf(Net(), "a", "b", paths, q, 1, Way(8))
  {
    if IsCandidateOf(Net(), "a", "b", paths, q, 1, Way(8)) {
      WayIsTrip(5);
      forall j, i | 0 <= j <= q && 1 < i < |Way(5)| && SharesRoot(paths[j], paths[q], 1)
        ensures Way(5)[i].stop != paths[j][2].stop
      {
        assert paths[j] in paths;
        OthersLeaveH(paths[j]);
      }
      DeviationShares(Net(), "a", "b", paths, q, 1, Way(8), 0);
      DeviationShares(Net(), "a", "b", paths, q, 1, Way(8), 1);
      AvoidingDeviates(Net(), "a", "b", paths, q, 1, Way(5));
      assert false;
    }
  }

  /** A way by s and y leaves one of the first `n` paths only at s, if at all. */
  lemma LeavesAtS(paths: seq<Path>, n: nat, q: nat, idx: nat, k: nat)
    requires (forall p :: p in paths ==> IsTrip(Net(), "a", "b", p)) && NoneBySAndY(paths, n)
    requires q < n <= |paths| && 6 <= k < 9 && IsCandidateOf(Net(), "a", "b", paths, q, idx, Way(k))
    ensures idx == 1 && |paths[q]| > 1 && paths[q][0] == Departure("a") && Total(paths[q]) > 9
  {
    assert paths[q] in paths;
    var o := OnlyWays(paths[q]);
    if idx == 0 {
      WayByGIsQuicker(paths, q, k);
      assert false;
    } else {
      DeviationShares(Net(), "a", "b", paths, q, idx, Way(k), 1);
      DeviationShares(Net(), "a", "b", paths, q, idx, Way(k), 2);
    }
  }

  /** No way by s and y is a candidate of the rounds before. */
  lemma NoCandidateBySAndY(maxTravelTime: nat, maxNPaths: nat, paths: seq<Path>, n: nat, q: nat, idx: nat, k: nat)
    requires IsEnumeration(Net(), "a", "b", maxTravelTime, maxNPaths, paths)
    requires q < n <= |paths| && NoneBySAndY(paths, n) && 6 <= k < 9
    ensures !IsCandidateOf(Net(), "a", "b", paths, q, idx, Way(k))
  {
    if IsCandidateOf(Net(), "a", "b", paths, q, idx, Way(k)) {
      LeavesAtS(paths, n, q, idx, k);
      OuterComesFirst(maxTravelTime, maxNPaths, paths);
      var j := WayByDComesBefore(maxTravelTime, maxNPaths, paths, q);
      if k < 8 {
        CrowdedWaysAreBarred(paths, q, k, j);
      } else if h: nat :| h <= q && paths[h] == Way(5) {
        var x := WayByXComesBefore(maxTravelTime, maxNPaths, paths, h);
        QuietWayIsBarred(paths, q, x);
      } else {
        WayByHIsQuicker(paths, q);
      }
      assert false;
    }
  }

  /** No path by s and y is ever listed, for any number of paths and any slowdown. */
  lemma {:induction false} WaysBySAndYAreMissed(maxTravelTime: nat, maxNPaths: nat, paths: seq<Path>, n: nat)
    requires IsEnumeration(Net(), "a", "b", maxTravelTime, maxNPaths, paths) && n <= |paths|
    ensures NoneBySAndY(paths, n)
  {
    if n > 0 {
      WaysBySAndYAreMissed(maxTravelTime, maxNPaths, paths, n - 1);
      OuterComesFirst(maxTravelTime, maxNPaths, paths);
      if k: nat :| n > 1 && 6 <= k < 9 && paths[n - 1] == Way(k) {
        assert AcceptsBest(Net(), "a", "b", paths, n - 2);
        var q: nat, idx: nat :| q < n - 1 && IsCandidateOf(Net(), "a", "b", paths, q, idx, paths[n - 1]);
        NoCandidateBySAndY(maxTravelTime, maxNPaths, paths, n - 1, q, idx, k);
        assert false;
      }
    }
  }

  // The crowding of the listed paths

  ghost predicate NoneNegative(g: Graph) {
    forall x :: x in g ==> g[x].passengerCount >= 0
  }

  ghost predicate CountsAtMost(g: Graph, max: nat) {
    forall x :: x in g ==> g[x].passengerCount <= max
  }

  /** Without negative counts, a path is at least as crowded as each of its stations. */
  lemma {:induction false} StationsCrowdPath(g: Graph, path: Path, i: nat, max: nat)
    requires forall j :: 0 <= j < |path| ==> path[j].stop.node in g
    requires NoneNegative(g) && CountsAtMost(g, max)
    ensures 0 <= PassengersAlong(g, path) <= max * |path|
    ensures i < |path| ==> g[path[i].stop.node].passengerCount <= PassengersAlong(g, path)
    decreases |path|
  {
    if path != [] {
      var n := |path| - 1;
      StationsCrowdPath(g, path[..n], i, max);
      assert i < n ==> path[..n][i] == path[i];
      assert max * |path| == max * n + max;
    }
  }

  /** Every listed path goes through a crowded station. */
  lemma ListedGoesThroughCrowd(p: Path) returns (i: nat)
    requires IsTrip(Net(), "a", "b", p) && Total(p) < 32 && p != Way(6) && p != Way(7) && p != Way(8)
    ensures i < |p| <= 6 && p[i].stop.node in Net() && Net()[p[i].stop.node].passengerCount == 100
  {
    var k := OnlyWays(p);
    i := if k == 0 then 2 else if k == 1 then 3 else if k == 3 then 1 else 2;
  }

  lemma NetHasNoNegatives()
    ensures NoneNegative(Net()) && CountsAtMost(Net(), 100)
  {
  }

  lemma ListedIsCrowded(p: Path)
    requires IsTrip(Net(), "a", "b", p) && Total(p) < 32 && p != Way(6) && p != Way(7) && p != Way(8)
    requires forall j :: 0 <= j < |p| ==> p[j].stop.node in Net()
    ensures Crowding(Net(), p) >= 100
  {
    NetHasNoNegatives();
    var i := ListedGoesThroughCrowd(p);
    StationsCrowdPath(Net(), p, i, 100);
  }

  lemma {:induction false} EmptyStationsLeavePathEmpty(g: Graph, path: Path)
    requires forall j :: 0 <= j < |path| ==> path[j].stop.node in g && g[path[j].stop.node].passengerCount == 0
    ensures PassengersAlong(g, path) == 0
    decreases |path|
  {
    if path != [] {
      EmptyStationsLeavePathEmpty(g, path[..|path| - 1]);
    }
  }

  /** The quiet way meets no crowded station, takes 28 minutes, and is never listed. */
  lemma QuietWayIsMissed(maxTravelTime: nat, maxNPaths: nat, paths: seq<Path>)
    requires IsEnumeration(Net(), "a", "b", maxTravelTime, maxNPaths, paths)
    ensures IsRival(Net(), "a", "b", paths[0], Way(8)) && Total(Way(8)) == 28 && Way(8) !in paths
    ensures (forall j :: 0 <= j < |Way(8)| ==> Way(8)[j].stop.node in Net()) && Crowding(Net(), Way(8)) == 0
  {
    OuterComesFirst(maxTravelTime, maxNPaths, paths);
    WayIsTrip(8);
    WaysBySAndYAreMissed(maxTravelTime, maxNPaths, paths, |paths|);
    EmptyStationsLeavePathEmpty(Net(), Way(8));
  }

  /** With a slowdown that lets the quiet way pass, but not the way by y, x and c, all listed paths are crowded. */
  lemma AllListedAreCrowded(maxTravelTime: nat, maxNPaths: nat, paths: seq<Path>)
    requires IsEnumeration(Net(), "a", "b", maxTravelTime, maxNPaths, paths) && maxTravelTime < 32
    requires InNetwork(Net(), paths)
    ensures forall i :: 0 <= i < |paths| ==> Crowding(Net(), paths[i]) >= 100
  {
    OuterComesFirst(maxTravelTime, maxNPaths, paths);
    WaysBySAndYAreMissed(maxTravelTime, maxNPaths, paths, |paths|);
    forall i | 0 <= i < |paths|
      ensures Crowding(Net(), paths[i]) >= 100
    {
      assert paths[i] in paths;
      ListedIsCrowded(paths[i]);
    }
  }

  /**
   * Searching this network for a quiet route with a slowdown of 250%, for any number of paths, gives a path of
   * crowding 100 or more, although an empty one is quick enough.
   */
  method SearchQuietWay(maxNPaths: nat) returns (paths: seq<Path>, quiet: Path)
    ensures InNetwork(Net(), paths) && quiet in paths && Crowding(Net(), quiet) >= 100
    ensures |paths| > 0 && IsEnumeration(Net(), "a", "b", MaxTravelTime(Total(paths[0]), 2.5), maxNPaths, paths)
    ensures exists k: nat :: IsQuietChoice(Net(), paths, 0.5, k) && quiet == paths[k]
    ensures IsRival(Net(), "a", "b", paths[0], Way(8))
    ensures Total(Way(8)) <= MaxTravelTime(Total(paths[0]), 2.5)
    ensures (forall j :: 0 <= j < |Way(8)| ==> Way(8)[j].stop.node in Net()) && Crowding(Net(), Way(8)) == 0
  {
    NetIsClosed();
    paths := GetFastestTravelRoutes(Net(), "a", "b", 2.5, maxNPaths);
    WayIsTrip(0);
    assert IsRouteTo(Net(), Departure("a"), "b", {}, Way(0));
    OuterComesFirst(MaxTravelTime(Total(paths[0]), 2.5), maxNPaths, paths);
    assert MaxTravelTime(8, 2.5) == 28;
    forall p: Path, i | p in paths && 0 <= i < |p|
      ensures p[i].stop.node in Net()
    {
      PathStops(Net(), {}, p, i, i);
    }
    ghost var k;
    quiet, k := SelectMostQuiet(Net(), paths, 0.5);
    QuietWayIsMissed(28, maxNPaths, paths);
    AllListedAreCrowded(28, maxNPaths, paths);
  }

  // The graph is one of well-formed routes: its edges are just their legs

  lemma EdgesAreLegs(x: Id, i: nat) returns (k: nat)
    requires x in Net() && i < |Net()[x].edges|
    ensures LegAt(Net()[x].edges[i].route, k, x, Net()[x].edges[i].nextStop)
  {
    k := if x == "a" || (x == "s" && i > 0) || x == "x" then 0
         else if x == "e" || (x == "g") then 2 else 1;
  }

  lemma LegsAreEdges(r: RouteInternal, k: nat) returns (i: nat)
    requires r in {U, D, G, H, V, E, C} && k + 1 < |r.stops|
    ensures r.stops[k] in Net() && i < |Net()[r.stops[k]].edges|
    ensures Net()[r.stops[k]].edges[i].route == r && Net()[r.stops[k]].edges[i].nextStop == r.stops[k + 1]
    ensures forall j :: 0 <= j < |Net()[r.stops[k]].edges| && Net()[r.stops[k]].edges[j].route == r ==> j == i
  {
    i := if r == U || r == E then 0 else if r == D then 1 - k else if r == G then (if k == 0 then 2 else 0)
         else if r == H then 1 - k else if r == V then 2 - k else 1 - k;
  }

  lemma RoutesAreWellFormed(r: RouteInternal)
    requires r in {U, D, G, H, V, E, C}
    ensures WellFormedStops(r.stops)
  {
  }
}
