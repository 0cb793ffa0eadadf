/**
 * Enumeration of alternative paths in the style of Yen's algorithm: repeatedly deviate from the last
 * path found and accept the quickest deviation that stays within a maximum slowdown.
 */
module AlternativeRoutes {
  import opened TransportGraph
  import opened FastestSearch
  import opened Wrappers

  /** Leaving from a station: no incoming edge, no time spent yet. */
  function Departure(station: Id): PathStopDist {
    PathStopDist(PathStop(station, None), 0)
  }

  /** A legal path from `a` to `b` that ends the first time it meets `b`. */
  ghost predicate IsTrip(g: Graph, a: Id, b: Id, p: Path) {
    IsRouteTo(g, Departure(a), b, {}, p) && Misses(p[..|p| - 1], b)
  }

  /** Whether `p` has the same first `idx` stops as `last` and does not end there. */
  predicate SharesRoot(p: Path, last: Path, idx: nat)
    requires idx <= |last|
  {
    idx + 1 < |p| && p[..idx] == last[..idx]
  }

  /** The stops which the accepted paths with the same root take next. */
  function NextStops(paths: seq<Path>, last: Path, idx: nat): set<PathStop>
    requires idx <= |last|
  {
    set p: Path | p in paths && SharesRoot(p, last, idx) :: p[idx + 1].stop
  }

  method RemovedStops(fastestPaths: seq<Path>, last: Path, idx: nat) returns (removed: set<PathStop>)
    requires idx <= |last|
    ensures removed == NextStops(fastestPaths, last, idx)
  {
    removed := {};
    for i := 0 to |fastestPaths|
      invariant removed == NextStops(fastestPaths[..i], last, idx)
    {
      var path := fastestPaths[i];
      assert fastestPaths[..i + 1] == fastestPaths[..i] + [path];
      if SharesRoot(path, last, idx) {
        removed := removed + {path[idx + 1].stop};
      }
    }
    assert fastestPaths[..|fastestPaths|] == fastestPaths;
  }

  /** A path may be continued by any path that starts where its root ends. */
  lemma JoinPaths(g: Graph, avoiding: set<PathStop>, root: Path, spur: Path, idx: nat)
    requires IsPath(g, {}, root) && IsPath(g, avoiding, spur)
    requires idx < |root| && spur[0] == root[idx]
    ensures IsPath(g, {}, root[..idx] + spur)
  {
    var p := root[..idx] + spur;
    forall j | 1 <= j < |p|
      ensures LinkAt(g, {}, p, j)
    {
      if j <= idx {
        assert LinkAt(g, {}, root, j);
      } else {
        assert LinkAt(g, avoiding, spur, j - idx);
      }
    }
  }

  lemma SuffixIsPath(g: Graph, avoiding: set<PathStop>, p: Path, idx: nat)
    requires IsPath(g, {}, p) && idx < |p|
    requires forall j :: idx < j < |p| ==> p[j].stop !in avoiding
    ensures IsPath(g, avoiding, p[idx..])
  {
    PathStops(g, {}, p, idx, idx);
    forall j | 1 <= j < |p| - idx
      ensures LinkAt(g, avoiding, p[idx..], j)
    {
      assert LinkAt(g, {}, p, j + idx);
    }
  }

  /** The trips a candidate competes with: same stops up to the spur, none of the removed ones after. */
  ghost predicate IsDeviation(g: Graph, a: Id, b: Id, last: Path, idx: nat, removed: set<PathStop>, p: Path)
    requires idx < |last|
  {
    && IsTrip(g, a, b, p)
    && idx + 1 < |p| && p[..idx + 1] == last[..idx + 1]
    && forall j :: idx < j < |p| ==> p[j].stop !in removed
  }

  /** `p` leaves the last of the accepted paths at position `idx`, and uses no stop that is removed there. */
  ghost predicate Deviates(g: Graph, a: Id, b: Id, paths: seq<Path>, idx: nat, p: Path)
    requires |paths| > 0
  {
    var last := paths[|paths| - 1];
    idx < |last| && IsDeviation(g, a, b, last, idx, NextStops(paths, last, idx), p)
  }

  /**
   * `c` is a quickest trip that leaves the last of the accepted paths at position `idx`, and from there on it
   * meets no station twice.
   */
  ghost predicate IsCandidate(g: Graph, a: Id, b: Id, paths: seq<Path>, idx: nat, c: Path)
    requires |paths| > 0
  {
    && Deviates(g, a, b, paths, idx, c)
    && (forall p :: Deviates(g, a, b, paths, idx, p) ==> Total(c) <= Total(p))
    && StationSimple(c[idx..])
  }

  /** A deviation is none of the accepted paths, and leaves the last of them before its end. */
  lemma DeviationIsNew(g: Graph, a: Id, b: Id, paths: seq<Path>, idx: nat, p: Path)
    requires |paths| > 0 && IsTrip(g, a, b, paths[|paths| - 1]) && Deviates(g, a, b, paths, idx, p)
    ensures p !in paths && idx + 1 < |paths[|paths| - 1]|
  {
    var last := paths[|paths| - 1];
    assert p[..idx] == p[..idx + 1][..idx] == last[..idx + 1][..idx] == last[..idx];
    forall o: Path | o in paths && SharesRoot(o, last, idx)
      ensures o[idx + 1].stop in NextStops(paths, last, idx)
    {
    }
    assert SharesRoot(p, last, idx) && p[idx + 1].stop !in NextStops(paths, last, idx);
    assert p[..|p| - 1][idx] == p[..idx + 1][idx] == last[idx];
  }

  /** The root followed by a fastest way on: a trip that none of the accepted paths equals. */
  lemma CandidateIsNewTrip(g: Graph, a: Id, b: Id, paths: seq<Path>, idx: nat, removed: set<PathStop>, spur: Path)
    requires |paths| > 0 && (forall p :: p in paths ==> IsTrip(g, a, b, p))
    requires var last := paths[|paths| - 1];
             && idx + 1 < |last| && removed == NextStops(paths, last, idx)
             && IsRouteTo(g, last[idx], b, removed, spur) && StationSimple(spur)
    ensures var last := paths[|paths| - 1];
            var p := last[..idx] + spur;
            IsDeviation(g, a, b, last, idx, removed, p) && p !in paths
  {
    var last := paths[|paths| - 1];
    var p := last[..idx] + spur;
    assert last in paths;
    assert last[..|last| - 1][idx].stop.node != b;
    JoinPaths(g, removed, last, spur, idx);
    assert |spur| > 1;
    forall i | 0 <= i < |p| - 1
      ensures p[i].stop.node != b
    {
      if i < idx {
        assert p[i] == last[..|last| - 1][i];
      } else {
        assert spur[i - idx].stop.node != spur[|spur| - 1].stop.node;
      }
    }
    forall j | idx < j < |p|
      ensures p[j].stop !in removed
    {
      assert LinkAt(g, removed, spur, j - idx);
    }
    assert p[..idx + 1] == last[..idx + 1];
    assert p[..idx] == last[..idx];
    assert SharesRoot(p, last, idx) && p[idx + 1].stop !in removed;
  }

  lemma DeviationGivesSpur(g: Graph, a: Id, b: Id, last: Path, idx: nat, removed: set<PathStop>, p: Path)
    requires idx < |last| && IsDeviation(g, a, b, last, idx, removed, p)
    ensures IsRouteTo(g, last[idx], b, removed, p[idx..])
    ensures Total(p[idx..]) == Total(p)
  {
    SuffixIsPath(g, removed, p, idx);
    assert p[idx] == p[..idx + 1][idx];
  }

  /** A quickest trip that leaves the last path at position `idx`, or nothing if there is none. */
  method SpurCandidate(g: Graph, a: Id, b: Id, fastestPaths: seq<Path>, idx: nat) returns (newPath: Path)
    requires Closed(g) && |fastestPaths| > 0
    requires forall p :: p in fastestPaths ==> IsTrip(g, a, b, p)
    requires idx + 1 < |fastestPaths[|fastestPaths| - 1]|
    ensures newPath != [] ==> IsCandidate(g, a, b, fastestPaths, idx, newPath) && newPath !in fastestPaths
    ensures newPath == [] ==> forall p :: !Deviates(g, a, b, fastestPaths, idx, p)
  {
    var last := fastestPaths[|fastestPaths| - 1];
    assert last in fastestPaths;
    assert last[..|last| - 1][idx].stop.node != b;
    PathStops(g, {}, last, idx, idx);
    var removed := RemovedStops(fastestPaths, last, idx);
    var spurPath := GetFastestTravelRoute(g, last[idx], b, removed);
    forall p | Deviates(g, a, b, fastestPaths, idx, p)
      ensures spurPath != [] && Total(spurPath) <= Total(p)
    {
      DeviationGivesSpur(g, a, b, last, idx, removed, p);
    }
    if spurPath == [] {
      return [];
    }
    CandidateIsNewTrip(g, a, b, fastestPaths, idx, removed, spurPath);
    newPath := last[..idx] + spurPath;
    assert newPath[idx..] == spurPath;
  }

  lemma {:induction false} QuickestExists(paths: multiset<Path>, p: Path)
    requires p in paths
    ensures exists n :: n in paths && forall o :: o in paths ==> Total(n) <= Total(o)
    decreases Total(p)
  {
    if quicker :| quicker in paths && Total(quicker) < Total(p) {
      QuickestExists(paths, quicker);
    }
  }

  /** The quickest candidate that is not among the accepted paths, provided it is quick enough. */
  method SelectNext(potentialPaths: multiset<Path>, fastestPaths: seq<Path>, maxTravelTime: nat)
    returns (found: bool, kthPath: Path, rest: multiset<Path>)
    ensures rest <= potentialPaths
    ensures found ==> kthPath in potentialPaths && kthPath !in fastestPaths && Total(kthPath) <= maxTravelTime
    ensures found ==> forall c :: c in potentialPaths && c !in fastestPaths ==> Total(kthPath) <= Total(c)
    ensures found ==> forall c :: c in potentialPaths && c !in fastestPaths && c != kthPath ==> c in rest
    ensures !found ==> forall c :: c in potentialPaths && c !in fastestPaths ==> maxTravelTime < Total(c)
  {
    rest := potentialPaths;
    found, kthPath := false, [];
    while |rest| > 0
      invariant rest <= potentialPaths
      invariant forall c :: c in potentialPaths && c !in fastestPaths ==> c in rest
      decreases |rest|
    {
      ghost var any :| any in rest;
      QuickestExists(rest, any);
      kthPath :| kthPath in rest && forall o :: o in rest ==> Total(kthPath) <= Total(o);
      rest := rest - multiset{kthPath};
      if Total(kthPath) > maxTravelTime {
        return;
      }
      if kthPath !in fastestPaths {
        found := true;
        return;
      }
    }
  }

  /** The stops two paths have in common from the start. */
  function CommonPrefix(p: Path, q: Path): (n: nat)
    ensures n <= |p| && n <= |q| && p[..n] == q[..n]
    ensures n < |p| && n < |q| ==> p[n] != q[n]
  {
    if p == [] || q == [] || p[0] != q[0] then 0
    else
      var n := CommonPrefix(p[1..], q[1..]);
      assert p[..n + 1] == [p[0]] + p[1..][..n] && q[..n + 1] == [q[0]] + q[1..][..n];
      n + 1
  }

  /** A trip other than `fastest` that meets no station twice. */
  ghost predicate IsRival(g: Graph, a: Id, b: Id, fastest: Path, p: Path) {
    IsTrip(g, a, b, p) && StationSimple(p) && p != fastest
  }

  lemma TripEndsOnce(g: Graph, a: Id, b: Id, p: Path)
    requires IsTrip(g, a, b, p)
    ensures forall i :: 0 <= i < |p| ==> (p[i].stop.node == b <==> i == |p| - 1)
  {
    assert forall i :: 0 <= i < |p| - 1 ==> p[..|p| - 1][i] == p[i];
  }

  /** A rival leaves the fastest trip strictly before the end of either. */
  lemma RivalDeviates(g: Graph, a: Id, b: Id, fastest: Path, p: Path)
    requires IsTrip(g, a, b, fastest) && IsRival(g, a, b, fastest, p)
    ensures var n := CommonPrefix(p, fastest);
            1 <= n < |fastest| && IsDeviation(g, a, b, fastest, n - 1, NextStops([fastest], fastest, n - 1), p)
  {
    var n := CommonPrefix(p, fastest);
    TripEndsOnce(g, a, b, p);
    TripEndsOnce(g, a, b, fastest);
    assert p[0] == fastest[0];
    var idx := n - 1;
    assert p[idx] == p[..n][idx] == fastest[..n][idx] == fastest[idx];
    assert n == |p| ==> p == fastest;
    var removed := NextStops([fastest], fastest, idx);
    assert removed <= {fastest[n].stop};
    assert LinkAt(g, {}, fastest, n) && LinkAt(g, {}, p, n);
    assert fastest[n].stop.edge.value.from == p[idx].stop.node;
    forall j | idx < j < |p|
      ensures p[j].stop !in removed
    {
      assert LinkAt(g, {}, p, j);
      assert p[j].stop.edge.value.from == p[j - 1].stop.node;
    }
  }

  function MaxTravelTime(minTravelTime: nat, maxSlowdownPc: real): nat
    requires maxSlowdownPc >= -1.0
  {
    assert minTravelTime as real * (1.0 + maxSlowdownPc) >= 0.0;
    (minTravelTime as real * (1.0 + maxSlowdownPc)).Floor
  }

  /** The maximum in whole minutes is exact. */
  lemma MaxTravelTimeIsExact(t: nat, minTravelTime: nat, maxSlowdownPc: real)
    requires maxSlowdownPc >= -1.0
    ensures t <= MaxTravelTime(minTravelTime, maxSlowdownPc) <==>
              t as real <= minTravelTime as real * (1.0 + maxSlowdownPc)
  {
    FloorIsExact(t, minTravelTime as real * (1.0 + maxSlowdownPc));
  }

  /** The promises about the list of paths in every round of the enumeration. */
  ghost predicate AreAlternatives(g: Graph, a: Id, b: Id, maxTravelTime: nat, paths: seq<Path>) {
    && |paths| > 0
    && (forall p :: p in paths ==> IsTrip(g, a, b, p) && Total(paths[0]) <= Total(p))
    && (forall i :: 1 <= i < |paths| ==> Total(paths[i]) <= maxTravelTime)
    && (forall i, j :: 0 <= i < j < |paths| ==> paths[i] != paths[j])
  }

  // What is known of every round. Round `q` looks for candidates that leave the path at position `q`.

  /** `p` leaves the path at position `q`, in view of the paths accepted up to then. */
  ghost predicate DeviatesIn(g: Graph, a: Id, b: Id, paths: seq<Path>, q: nat, idx: nat, p: Path) {
    q < |paths| && Deviates(g, a, b, paths[..q + 1], idx, p)
  }

  /** `c` is a candidate that round `q` finds at position `idx`. */
  ghost predicate IsCandidateOf(g: Graph, a: Id, b: Id, paths: seq<Path>, q: nat, idx: nat, c: Path) {
    q < |paths| && IsCandidate(g, a, b, paths[..q + 1], idx, c)
  }

  /** One of the first `n` paths is a candidate that round `q` finds at position `idx`. */
  ghost predicate IsServed(g: Graph, a: Id, b: Id, paths: seq<Path>, n: nat, q: nat, idx: nat) {
    exists j :: 0 <= j < n <= |paths| && IsCandidateOf(g, a, b, paths, q, idx, paths[j])
  }

  /** The path is a candidate of one of the rounds before `n`. */
  ghost predicate IsFound(g: Graph, a: Id, b: Id, paths: seq<Path>, n: nat, c: Path) {
    exists q: nat, idx: nat :: q < n && IsCandidateOf(g, a, b, paths, q, idx, c)
  }

  /**
   * The path that round `r` accepts is a candidate of a round so far, and none of the other candidates that
   * were not accepted before is quicker; so no trip is that leaves one of the paths so far where none of
   * the candidates was accepted.
   */
  ghost predicate AcceptsBest(g: Graph, a: Id, b: Id, paths: seq<Path>, r: nat)
    requires r + 1 < |paths|
  {
    && IsFound(g, a, b, paths, r + 1, paths[r + 1])
    && forall q: nat, idx: nat, p :: q <= r && DeviatesIn(g, a, b, paths, q, idx, p) ==>
         Total(paths[r + 1]) <= Total(p) || IsServed(g, a, b, paths, r + 1, q, idx)
  }

  ghost predicate AllAcceptBest(g: Graph, a: Id, b: Id, paths: seq<Path>) {
    forall r: nat :: r + 1 < |paths| ==> AcceptsBest(g, a, b, paths, r)
  }

  /** Wherever a quick enough trip leaves one of the paths, a candidate was accepted. */
  ghost predicate IsExhausted(g: Graph, a: Id, b: Id, maxTravelTime: nat, paths: seq<Path>) {
    forall q, idx, p :: DeviatesIn(g, a, b, paths, q, idx, p) && Total(p) <= maxTravelTime ==>
      IsServed(g, a, b, paths, |paths|, q, idx)
  }

  /** What the enumeration returns if there is any route. */
  ghost predicate IsEnumeration(g: Graph, a: Id, b: Id, maxTravelTime: nat, maxNPaths: nat, paths: seq<Path>) {
    && AreAlternatives(g, a, b, maxTravelTime, paths)
    && IsFastest(g, Departure(a), b, {}, paths[0])
    && |paths| <= (if maxNPaths == 0 then 1 else maxNPaths)
    && AllAcceptBest(g, a, b, paths)
    && (|paths| < maxNPaths ==> IsExhausted(g, a, b, maxTravelTime, paths))
  }

  /** The trip is not slower than the first path by more than the slowdown. */
  ghost predicate IsQuickEnough(paths: seq<Path>, maxSlowdownPc: real, p: Path)
    requires |paths| > 0
  {
    Total(p) as real <= Total(paths[0]) as real * (1.0 + maxSlowdownPc)
  }

  /** All later paths are quick enough, and an early end means that a candidate was accepted for each such trip. */
  ghost predicate KeepsSlowdown(g: Graph, a: Id, b: Id, maxSlowdownPc: real, maxNPaths: nat, paths: seq<Path>)
    requires |paths| > 0
  {
    && (forall i :: 1 <= i < |paths| ==> IsQuickEnough(paths, maxSlowdownPc, paths[i]))
    && (|paths| < maxNPaths ==>
          forall q, idx, p :: DeviatesIn(g, a, b, paths, q, idx, p) && IsQuickEnough(paths, maxSlowdownPc, p) ==>
            IsServed(g, a, b, paths, |paths|, q, idx))
  }

  lemma EnumerationKeepsSlowdown(g: Graph, a: Id, b: Id, maxSlowdownPc: real, maxNPaths: nat, paths: seq<Path>)
    requires maxSlowdownPc >= -1.0 && |paths| > 0
    requires IsEnumeration(g, a, b, MaxTravelTime(Total(paths[0]), maxSlowdownPc), maxNPaths, paths)
    ensures KeepsSlowdown(g, a, b, maxSlowdownPc, maxNPaths, paths)
  {
    forall p: Path
      ensures IsQuickEnough(paths, maxSlowdownPc, p) <==>
                Total(p) <= MaxTravelTime(Total(paths[0]), maxSlowdownPc)
    {
      MaxTravelTimeIsExact(Total(p), Total(paths[0]), maxSlowdownPc);
    }
  }

  /** Every deviation of a round before `n` has a candidate as quick that is still waiting or was accepted. */
  ghost predicate AreKept(g: Graph, a: Id, b: Id, paths: seq<Path>, n: nat, waiting: multiset<Path>) {
    && (forall q: nat, idx: nat, p {:trigger DeviatesIn(g, a, b, paths, q, idx, p)} ::
          q < n && DeviatesIn(g, a, b, paths, q, idx, p) ==> IsKept(g, a, b, paths, q, idx, waiting))
    && (forall c :: c in waiting ==> IsFound(g, a, b, paths, n, c))
  }

  ghost predicate IsKept(g: Graph, a: Id, b: Id, paths: seq<Path>, q: nat, idx: nat, waiting: multiset<Path>) {
    exists c :: (c in waiting || c in paths) && IsCandidateOf(g, a, b, paths, q, idx, c)
  }

  /** Accepting more paths does not change the rounds before. */
  lemma RoundsStay(g: Graph, a: Id, b: Id, paths: seq<Path>, next: Path, q: nat, idx: nat, p: Path)
    requires q < |paths|
    ensures DeviatesIn(g, a, b, paths + [next], q, idx, p) <==> DeviatesIn(g, a, b, paths, q, idx, p)
    ensures IsCandidateOf(g, a, b, paths + [next], q, idx, p) <==> IsCandidateOf(g, a, b, paths, q, idx, p)
  {
    assert (paths + [next])[..q + 1] == paths[..q + 1];
  }

  lemma FoundStays(g: Graph, a: Id, b: Id, paths: seq<Path>, next: Path, n: nat, c: Path)
    requires n <= |paths| && IsFound(g, a, b, paths, n, c)
    ensures IsFound(g, a, b, paths + [next], n, c)
  {
    var q: nat, idx: nat :| q < n && IsCandidateOf(g, a, b, paths, q, idx, c);
    RoundsStay(g, a, b, paths, next, q, idx, c);
  }

  lemma ServedStays(g: Graph, a: Id, b: Id, paths: seq<Path>, next: Path, n: nat, q: nat, idx: nat)
    requires q < |paths| && IsServed(g, a, b, paths, n, q, idx)
    ensures IsServed(g, a, b, paths + [next], n, q, idx)
  {
    var j :| 0 <= j < n <= |paths| && IsCandidateOf(g, a, b, paths, q, idx, paths[j]);
    RoundsStay(g, a, b, paths, next, q, idx, paths[j]);
    assert (paths + [next])[j] == paths[j];
  }

  lemma KeptStays(g: Graph, a: Id, b: Id, paths: seq<Path>, next: Path, q: nat, idx: nat,
                  waiting: multiset<Path>, rest: multiset<Path>)
    requires q < |paths| && IsKept(g, a, b, paths, q, idx, waiting)
    requires forall c :: c in waiting ==> c in rest || c in paths || c == next
    ensures IsKept(g, a, b, paths + [next], q, idx, rest)
  {
    var c :| (c in waiting || c in paths) && IsCandidateOf(g, a, b, paths, q, idx, c);
    RoundsStay(g, a, b, paths, next, q, idx, c);
    assert c in rest || c in paths + [next];
  }

  lemma AcceptsBestStays(g: Graph, a: Id, b: Id, paths: seq<Path>, next: Path, r: nat)
    requires r + 1 < |paths| && AcceptsBest(g, a, b, paths, r)
    ensures AcceptsBest(g, a, b, paths + [next], r)
  {
    FoundStays(g, a, b, paths, next, r + 1, paths[r + 1]);
    forall q: nat, idx: nat, p | q <= r && DeviatesIn(g, a, b, paths + [next], q, idx, p)
      ensures Total(paths[r + 1]) <= Total(p) || IsServed(g, a, b, paths + [next], r + 1, q, idx)
    {
      RoundsStay(g, a, b, paths, next, q, idx, p);
      if IsServed(g, a, b, paths, r + 1, q, idx) {
        ServedStays(g, a, b, paths, next, r + 1, q, idx);
      }
    }
  }

  /** Taking the quickest of the waiting candidates is accepting the best. */
  lemma NextIsBest(g: Graph, a: Id, b: Id, paths: seq<Path>, waiting: multiset<Path>, next: Path)
    requires |paths| > 0 && AreKept(g, a, b, paths, |paths|, waiting)
    requires next in waiting && forall c :: c in waiting && c !in paths ==> Total(next) <= Total(c)
    ensures AcceptsBest(g, a, b, paths + [next], |paths| - 1)
  {
    FoundStays(g, a, b, paths, next, |paths|, next);
    forall q: nat, idx: nat, p | q < |paths| && DeviatesIn(g, a, b, paths + [next], q, idx, p)
      ensures Total(next) <= Total(p) || IsServed(g, a, b, paths + [next], |paths|, q, idx)
    {
      RoundsStay(g, a, b, paths, next, q, idx, p);
      var c :| (c in waiting || c in paths) && IsCandidateOf(g, a, b, paths, q, idx, c);
      if c in paths {
        var j :| 0 <= j < |paths| && paths[j] == c;
        ServedStays(g, a, b, paths, next, |paths|, q, idx);
      }
    }
  }

  lemma NextKeepsRounds(g: Graph, a: Id, b: Id, paths: seq<Path>, waiting: multiset<Path>, next: Path,
                        rest: multiset<Path>)
    requires |paths| > 0 && AllAcceptBest(g, a, b, paths) && AreKept(g, a, b, paths, |paths|, waiting)
    requires next in waiting && forall c :: c in waiting && c !in paths ==> Total(next) <= Total(c)
    requires rest <= waiting && forall c :: c in waiting && c !in paths && c != next ==> c in rest
    ensures AllAcceptBest(g, a, b, paths + [next]) && AreKept(g, a, b, paths + [next], |paths|, rest)
  {
    NextIsBest(g, a, b, paths, waiting, next);
    forall r: nat | r + 1 < |paths|
      ensures AcceptsBest(g, a, b, paths + [next], r)
    {
      AcceptsBestStays(g, a, b, paths, next, r);
    }
    forall q: nat, idx: nat, p | q < |paths| && DeviatesIn(g, a, b, paths + [next], q, idx, p)
      ensures IsKept(g, a, b, paths + [next], q, idx, rest)
    {
      RoundsStay(g, a, b, paths, next, q, idx, p);
      KeptStays(g, a, b, paths, next, q, idx, waiting, rest);
    }
    forall c | c in rest
      ensures IsFound(g, a, b, paths + [next], |paths|, c)
    {
      FoundStays(g, a, b, paths, next, |paths|, c);
    }
  }

  /** If all waiting candidates that are not accepted are too slow, the search is exhausted. */
  lemma TooSlowMeansExhausted(g: Graph, a: Id, b: Id, maxTravelTime: nat, paths: seq<Path>, waiting: multiset<Path>)
    requires AreKept(g, a, b, paths, |paths|, waiting)
    requires forall c :: c in waiting && c !in paths ==> maxTravelTime < Total(c)
    ensures IsExhausted(g, a, b, maxTravelTime, paths)
  {
    forall q, idx, p | DeviatesIn(g, a, b, paths, q, idx, p) && Total(p) <= maxTravelTime
      ensures IsServed(g, a, b, paths, |paths|, q, idx)
    {
      assert IsKept(g, a, b, paths, q, idx, waiting);
      var c :| (c in waiting || c in paths) && IsCandidateOf(g, a, b, paths, q, idx, c);
      assert Total(c) <= Total(p);
      var j :| 0 <= j < |paths| && paths[j] == c;
    }
  }

  /** The first `i` positions of the last path are done: wherever a trip leaves it, a candidate is waiting. */
  ghost predicate KeptUpTo(g: Graph, a: Id, b: Id, paths: seq<Path>, i: nat, waiting: multiset<Path>)
    requires |paths| > 0
  {
    forall idx: nat, p {:trigger Deviates(g, a, b, paths, idx, p)} :: idx < i && Deviates(g, a, b, paths, idx, p) ==>
      HasCandidate(g, a, b, paths, idx, waiting)
  }

  ghost predicate HasCandidate(g: Graph, a: Id, b: Id, paths: seq<Path>, idx: nat, waiting: multiset<Path>)
    requires |paths| > 0
  {
    exists c :: c in waiting && IsCandidate(g, a, b, paths, idx, c)
  }

  lemma KeptOneMore(g: Graph, a: Id, b: Id, paths: seq<Path>, i: nat, waiting: multiset<Path>, newPath: Path,
                    more: multiset<Path>)
    requires |paths| > 0 && KeptUpTo(g, a, b, paths, i, waiting)
    requires more == waiting + multiset{newPath} && IsCandidate(g, a, b, paths, i, newPath)
    ensures KeptUpTo(g, a, b, paths, i + 1, more)
  {
    forall idx: nat, p | idx < i + 1 && Deviates(g, a, b, paths, idx, p)
      ensures HasCandidate(g, a, b, paths, idx, more)
    {
      if idx < i {
        var c :| c in waiting && IsCandidate(g, a, b, paths, idx, c);
        assert c in more;
      } else {
        assert newPath in more;
      }
    }
  }

  lemma AllKept(g: Graph, a: Id, b: Id, paths: seq<Path>, before: multiset<Path>, waiting: multiset<Path>)
    requires |paths| > 0 && IsTrip(g, a, b, paths[|paths| - 1])
    requires AreKept(g, a, b, paths, |paths| - 1, before) && before <= waiting
    requires KeptUpTo(g, a, b, paths, |paths[|paths| - 1]| - 1, waiting)
    requires forall c :: c in waiting ==> IsFound(g, a, b, paths, |paths|, c)
    ensures AreKept(g, a, b, paths, |paths|, waiting)
  {
    forall q: nat, idx: nat, p | q < |paths| && DeviatesIn(g, a, b, paths, q, idx, p)
      ensures IsKept(g, a, b, paths, q, idx, waiting)
    {
      if q + 1 < |paths| {
        assert IsKept(g, a, b, paths, q, idx, before);
      } else {
        assert paths[..q + 1] == paths;
        DeviationIsNew(g, a, b, paths, idx, p);
        assert HasCandidate(g, a, b, paths, idx, waiting);
      }
    }
  }

  lemma CandidateIsFound(g: Graph, a: Id, b: Id, paths: seq<Path>, idx: nat, c: Path)
    requires |paths| > 0 && IsCandidate(g, a, b, paths, idx, c)
    ensures IsFound(g, a, b, paths, |paths|, c)
  {
    assert paths[..|paths|] == paths;
    assert IsCandidateOf(g, a, b, paths, |paths| - 1, idx, c);
  }

  lemma FoundIsTrip(g: Graph, a: Id, b: Id, paths: seq<Path>, n: nat, c: Path)
    requires IsFound(g, a, b, paths, n, c)
    ensures IsTrip(g, a, b, c)
  {
  }

  /** Candidates leaving the last path at each position, added to the ones found before. */
  method AddCandidates(g: Graph, a: Id, b: Id, fastestPaths: seq<Path>, before: multiset<Path>)
    returns (potentialPaths: multiset<Path>)
    requires Closed(g) && |fastestPaths| > 0
    requires forall p :: p in fastestPaths ==> IsTrip(g, a, b, p)
    requires AreKept(g, a, b, fastestPaths, |fastestPaths| - 1, before)
    ensures AreKept(g, a, b, fastestPaths, |fastestPaths|, potentialPaths)
  {
    potentialPaths := before;
    var last := fastestPaths[|fastestPaths| - 1];
    assert last in fastestPaths;
    for idx := 0 to |last| - 1
      invariant before <= potentialPaths
      invariant KeptUpTo(g, a, b, fastestPaths, idx, potentialPaths)
      invariant forall c :: c in potentialPaths ==> IsFound(g, a, b, fastestPaths, |fastestPaths|, c)
    {
      var newPath := SpurCandidate(g, a, b, fastestPaths, idx);
      if newPath != [] {
        CandidateIsFound(g, a, b, fastestPaths, idx, newPath);
        KeptOneMore(g, a, b, fastestPaths, idx, potentialPaths, newPath, potentialPaths + multiset{newPath});
        potentialPaths := potentialPaths + multiset{newPath};
      }
    }
    AllKept(g, a, b, fastestPaths, before, potentialPaths);
  }

  /** The state between two rounds. */
  ghost predicate InProgress(g: Graph, a: Id, b: Id, maxTravelTime: nat, paths: seq<Path>, waiting: multiset<Path>) {
    && AreAlternatives(g, a, b, maxTravelTime, paths)
    && AllAcceptBest(g, a, b, paths)
    && AreKept(g, a, b, paths, |paths| - 1, waiting)
  }

  lemma AcceptNext(g: Graph, a: Id, b: Id, maxTravelTime: nat, paths: seq<Path>, waiting: multiset<Path>, next: Path,
                   rest: multiset<Path>)
    requires AreAlternatives(g, a, b, maxTravelTime, paths) && IsFastest(g, Departure(a), b, {}, paths[0])
    requires AllAcceptBest(g, a, b, paths) && AreKept(g, a, b, paths, |paths|, waiting)
    requires next in waiting && next !in paths && Total(next) <= maxTravelTime
    requires forall c :: c in waiting && c !in paths ==> Total(next) <= Total(c)
    requires rest <= waiting && forall c :: c in waiting && c !in paths && c != next ==> c in rest
    ensures InProgress(g, a, b, maxTravelTime, paths + [next], rest)
  {
    NextKeepsRounds(g, a, b, paths, waiting, next, rest);
    FoundIsTrip(g, a, b, paths, |paths|, next);
  }

  method GetFastestTravelRoutes(g: Graph, a: Id, b: Id, maxSlowdownPc: real, maxNPaths: nat)
    returns (fastestPaths: seq<Path>)
    requires Closed(g) && a in g && maxSlowdownPc >= -1.0
    ensures fastestPaths == [] <==> forall p :: !IsRouteTo(g, Departure(a), b, {}, p)
    ensures fastestPaths != [] ==>
              IsEnumeration(g, a, b, MaxTravelTime(Total(fastestPaths[0]), maxSlowdownPc), maxNPaths, fastestPaths)
    ensures fastestPaths != [] ==> KeepsSlowdown(g, a, b, maxSlowdownPc, maxNPaths, fastestPaths)
  {
    var fastestPath := GetFastestTravelRoute(g, Departure(a), b, {});
    if fastestPath == [] {
      return [];
    }
    fastestPaths := [fastestPath];
    var potentialPaths: multiset<Path> := multiset{};
    var maxTravelTime := MaxTravelTime(Total(fastestPath), maxSlowdownPc);
    while |fastestPaths| < maxNPaths
      invariant |fastestPaths| > 0 && fastestPaths[0] == fastestPath
      invariant |fastestPaths| <= if maxNPaths == 0 then 1 else maxNPaths
      invariant InProgress(g, a, b, maxTravelTime, fastestPaths, potentialPaths)
      decreases maxNPaths - |fastestPaths|
    {
      potentialPaths := AddCandidates(g, a, b, fastestPaths, potentialPaths);
      var kthPathFound, kthPath, rest := SelectNext(potentialPaths, fastestPaths, maxTravelTime);
      if !kthPathFound {
        TooSlowMeansExhausted(g, a, b, maxTravelTime, fastestPaths, potentialPaths);
        break;
      }
      AcceptNext(g, a, b, maxTravelTime, fastestPaths, potentialPaths, kthPath, rest);
      potentialPaths := rest;
      fastestPaths := fastestPaths + [kthPath];
    }
    EnumerationKeepsSlowdown(g, a, b, maxSlowdownPc, maxNPaths, fastestPaths);
  }

  // What follows for single trips

  /** Only a later path can be a candidate that a round finds. */
  lemma ServedLater(g: Graph, a: Id, b: Id, paths: seq<Path>, n: nat, q: nat, idx: nat) returns (j: nat)
    requires forall p :: p in paths ==> IsTrip(g, a, b, p)
    requires IsServed(g, a, b, paths, n, q, idx)
    ensures q < j < n <= |paths| && IsCandidateOf(g, a, b, paths, q, idx, paths[j])
  {
    j :| 0 <= j < n <= |paths| && IsCandidateOf(g, a, b, paths, q, idx, paths[j]);
    assert paths[..q + 1][q] in paths;
    DeviationIsNew(g, a, b, paths[..q + 1], idx, paths[j]);
    assert forall i :: 0 <= i <= q ==> paths[..q + 1][i] == paths[i];
  }

  /** Before a slower path is accepted, a candidate is wherever a trip leaves one of the paths before it. */
  lemma QuickerIsServedBefore(g: Graph, a: Id, b: Id, maxTravelTime: nat, maxNPaths: nat, paths: seq<Path>,
                              n: nat, q: nat, idx: nat, p: Path) returns (j: nat)
    requires IsEnumeration(g, a, b, maxTravelTime, maxNPaths, paths)
    requires q < n < |paths| && DeviatesIn(g, a, b, paths, q, idx, p) && Total(p) < Total(paths[n])
    ensures q < j < n && IsCandidateOf(g, a, b, paths, q, idx, paths[j]) && Total(paths[j]) <= Total(p)
  {
    assert AcceptsBest(g, a, b, paths, n - 1);
    j := ServedLater(g, a, b, paths, n, q, idx);
  }

  /** No trip that leaves a path in view of the paths so far is quicker than the path accepted next. */
  lemma NextPathIsBest(g: Graph, a: Id, b: Id, maxTravelTime: nat, maxNPaths: nat, paths: seq<Path>,
                       r: nat, idx: nat, p: Path)
    requires IsEnumeration(g, a, b, maxTravelTime, maxNPaths, paths)
    requires DeviatesIn(g, a, b, paths, r, idx, p)
    ensures r + 1 < |paths| ==> Total(paths[r + 1]) <= Total(p)
    ensures r + 1 == |paths| < maxNPaths ==> maxTravelTime < Total(p)
  {
    if r + 1 < |paths| {
      assert AcceptsBest(g, a, b, paths, r);
    }
    if IsServed(g, a, b, paths, r + 1, r, idx) {
      var j := ServedLater(g, a, b, paths, r + 1, r, idx);
      assert false;
    }
  }

  /**
   * Where a quick enough trip leaves an accepted path, at position `idx` of the path at position `q`, it is
   * barred by a removed stop, or a candidate at least as quick that leaves there was accepted later. So a
   * trip is missed only if this is so of every accepted path.
   */
  lemma TripsAreBarredOrMatched(g: Graph, a: Id, b: Id, maxTravelTime: nat, maxNPaths: nat, paths: seq<Path>,
                                p: Path, q: nat, idx: nat)
    requires IsEnumeration(g, a, b, maxTravelTime, maxNPaths, paths) && |paths| < maxNPaths
    requires IsTrip(g, a, b, p) && Total(p) <= maxTravelTime
    requires q < |paths| && idx < |paths[q]| && idx + 1 < |p| && p[..idx + 1] == paths[q][..idx + 1]
    ensures (exists k :: idx < k < |p| && p[k].stop in NextStops(paths[..q + 1], paths[q], idx)) ||
            (exists j :: q < j < |paths| && IsCandidateOf(g, a, b, paths, q, idx, paths[j]) &&
                         Total(paths[j]) <= Total(p))
  {
    if forall k :: idx < k < |p| ==> p[k].stop !in NextStops(paths[..q + 1], paths[q], idx) {
      assert DeviatesIn(g, a, b, paths, q, idx, p);
      var j := ServedLater(g, a, b, paths, |paths|, q, idx);
    }
  }

  // What follows for the two best

  /** No rival of the fastest trip is quicker than the second path, or quick enough if there is none. */
  ghost predicate SecondIsBest(g: Graph, a: Id, b: Id, maxTravelTime: nat, paths: seq<Path>)
    requires |paths| > 0
  {
    forall p :: IsRival(g, a, b, paths[0], p) ==>
      Total(p) >= if |paths| > 1 then Total(paths[1]) else maxTravelTime + 1
  }

  /** With room for two paths, the second is the best of all rivals of the first. */
  lemma EnumerationHasSecondBest(g: Graph, a: Id, b: Id, maxTravelTime: nat, maxNPaths: nat, paths: seq<Path>)
    requires maxNPaths > 1 && IsEnumeration(g, a, b, maxTravelTime, maxNPaths, paths)
    ensures SecondIsBest(g, a, b, maxTravelTime, paths)
  {
    forall p | IsRival(g, a, b, paths[0], p)
      ensures Total(p) >= if |paths| > 1 then Total(paths[1]) else maxTravelTime + 1
    {
      var idx := CommonPrefix(p, paths[0]) - 1;
      RivalDeviates(g, a, b, paths[0], p);
      assert paths[..1] == [paths[0]];
      assert DeviatesIn(g, a, b, paths, 0, idx, p);
      if IsServed(g, a, b, paths, 1, 0, idx) {
        DeviationIsNew(g, a, b, paths[..1], idx, paths[0]);
        assert false;
      }
      if |paths| > 1 {
        assert AcceptsBest(g, a, b, paths, 0);
      }
    }
  }
}
