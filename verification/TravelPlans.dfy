/** Travel plans for the user: their assembly from a path, and the choice of the most quiet path. */
module TravelPlans {
  import opened TransportGraph

  datatype TravelStep = TravelStep(
    startStationId: Id, endStationId: Id, lineId: Id, routeId: Id, travelTime: nat)

  datatype TravelRoute = TravelRoute(
    startStationId: Id, endStationId: Id, totalTravelTime: nat, steps: seq<TravelStep>)

  /** The plan for a trip from a station to itself. */
  function StayAt(station: Id): TravelRoute {
    TravelRoute(station, station, 0, [TravelStep(station, station, "", "", 0)])
  }

  /** Routes with the same line and identifier are the same object. */
  ghost predicate RoutesIdentified(g: Graph) {
    forall r, s :: HasEdge(g, r) && HasEdge(g, s) ==>
      EdgeAt(g, r).route.line == EdgeAt(g, s).route.line && EdgeAt(g, r).route.id == EdgeAt(g, s).route.id ==>
      EdgeAt(g, r).route == EdgeAt(g, s).route
  }

  function RidingTime(steps: seq<TravelStep>): nat {
    if steps == [] then 0 else RidingTime(steps[..|steps| - 1]) + steps[|steps| - 1].travelTime
  }

  predicate SameRoute(a: TravelStep, b: TravelStep) {
    a.lineId == b.lineId && a.routeId == b.routeId
  }

  /** How often the traveller changes route. */
  function Changes(steps: seq<TravelStep>): nat {
    if |steps| < 2 then 0
    else
      Changes(steps[..|steps| - 1]) + if SameRoute(steps[|steps| - 2], steps[|steps| - 1]) then 0 else 1
  }

  /** The time that the steps account for. */
  function StepTime(steps: seq<TravelStep>): nat {
    RidingTime(steps) + CHANGE_PENALTY * Changes(steps)
  }

  /** The steps of a plan follow the path, one edge each. */
  ghost predicate Follows(g: Graph, path: Path, steps: seq<TravelStep>) {
    |steps| + 1 == |path| && forall i :: 0 <= i < |steps| ==> FollowsAt(g, path, steps, i)
  }

  /** The `i`-th step goes from the `i`-th stop to the next, along the edge used to get there. */
  ghost predicate FollowsAt(g: Graph, path: Path, steps: seq<TravelStep>, i: nat)
    requires i < |steps| && |steps| + 1 == |path|
  {
    && Step(g, path[i].stop, path[i + 1].stop)
    && steps[i].startStationId == path[i].stop.node
    && steps[i].endStationId == path[i + 1].stop.node
    && steps[i].lineId == EdgeAt(g, path[i + 1].stop.edge.value).route.line
    && steps[i].routeId == EdgeAt(g, path[i + 1].stop.edge.value).route.id
    && steps[i].travelTime == EdgeAt(g, path[i + 1].stop.edge.value).travelTime
  }

  /** The first step starts at A, the last ends at B, and each starts where the one before ends. */
  ghost predicate LeadsFrom(a: Id, b: Id, steps: seq<TravelStep>) {
    && |steps| > 0
    && steps[0].startStationId == a
    && steps[|steps| - 1].endStationId == b
    && forall i :: 1 <= i < |steps| ==> steps[i].startStationId == steps[i - 1].endStationId
  }

  lemma FollowingLeadsFrom(g: Graph, path: Path, steps: seq<TravelStep>)
    requires Follows(g, path, steps) && |path| > 1
    ensures LeadsFrom(path[0].stop.node, Last(path).stop.node, steps)
  {
    assert FollowsAt(g, path, steps, 0) && FollowsAt(g, path, steps, |steps| - 1);
    forall i | 1 <= i < |steps|
      ensures steps[i].startStationId == steps[i - 1].endStationId
    {
      assert FollowsAt(g, path, steps, i - 1) && FollowsAt(g, path, steps, i);
    }
  }

  method AssembleSteps(g: Graph, path: Path) returns (steps: seq<TravelStep>)
    requires IsPath(g, {}, path)
    ensures Follows(g, path, steps)
    ensures |path| > 1 ==> LeadsFrom(path[0].stop.node, path[|path| - 1].stop.node, steps)
  {
    steps := [];
    for idx := 1 to |path|
      invariant |steps| == idx - 1
      invariant Follows(g, path[..idx], steps)
    {
      var prevStop, currStop := path[idx - 1].stop, path[idx].stop;
      assert LinkAt(g, {}, path, idx);
      var edge := EdgeAt(g, currStop.edge.value);
      var step := TravelStep(prevStop.node, currStop.node, edge.route.line, edge.route.id, edge.travelTime);
      OneMoreStep(g, path, idx, steps, step);
      steps := steps + [step];
    }
    assert path[..|path|] == path;
    if |path| > 1 {
      FollowingLeadsFrom(g, path, steps);
    }
  }

  lemma OneMoreStep(g: Graph, path: Path, n: nat, steps: seq<TravelStep>, step: TravelStep)
    requires 1 <= n < |path| && Follows(g, path[..n], steps)
    requires FollowsAt(g, path[n - 1..n + 1], [step], 0)
    ensures Follows(g, path[..n + 1], steps + [step])
  {
    var longer, more := path[..n + 1], steps + [step];
    forall i | 0 <= i < n
      ensures FollowsAt(g, longer, more, i)
    {
      assert i < n - 1 ==> FollowsAt(g, path[..n], steps, i);
    }
  }

  /** At its `j`-th stop the path changes to another route with the same line and identifier. */
  ghost predicate HidesChange(g: Graph, path: Path, j: nat)
    requires IsPath(g, {}, path)
  {
    && 2 <= j < |path| && LinkAt(g, {}, path, j - 1) && LinkAt(g, {}, path, j)
    && var r, s := EdgeAt(g, path[j - 1].stop.edge.value).route, EdgeAt(g, path[j].stop.edge.value).route;
       r != s && r.line == s.line && r.id == s.id
  }

  /** Every change of route shows in the steps of the plan. */
  ghost predicate ShowsChanges(g: Graph, path: Path)
    requires IsPath(g, {}, path)
  {
    forall j :: 2 <= j < |path| ==> !HidesChange(g, path, j)
  }

  lemma IdentifiedShowsChanges(g: Graph, path: Path)
    requires RoutesIdentified(g) && IsPath(g, {}, path)
    ensures ShowsChanges(g, path)
  {
  }

  /** The last leg of a path adds its time, and the penalty for a change, which shows in the steps or is hidden. */
  lemma LastLeg(g: Graph, path: Path, steps: seq<TravelStep>)
    requires IsPath(g, {}, path) && |path| > 1 && path[0].stop.edge.None? && Follows(g, path, steps)
    ensures var n := |path| - 1;
            Total(path) == path[n - 1].dist + steps[n - 1].travelTime +
              CHANGE_PENALTY * (Changes(steps) - Changes(steps[..n - 1]) + if HidesChange(g, path, n) then 1 else 0)
  {
    var n := |path| - 1;
    assert LinkAt(g, {}, path, n);
    assert FollowsAt(g, path, steps, n - 1);
    if n > 1 {
      assert LinkAt(g, {}, path, n - 1);
      assert FollowsAt(g, path, steps, n - 2);
    }
  }

  /**
   * A path takes at least the time of its steps plus the penalty for each change between contiguous steps, and
   * exactly that if and only if all changes of route show in the steps.
   */
  lemma {:induction false} TotalIsRidingPlusChanges(g: Graph, path: Path, steps: seq<TravelStep>)
    requires IsPath(g, {}, path) && path[0].stop.edge.None? && path[0].dist == 0
    requires Follows(g, path, steps)
    ensures Total(path) >= StepTime(steps)
    ensures Total(path) == StepTime(steps) <==> ShowsChanges(g, path)
    decreases |path|
  {
    if |path| > 1 {
      var n := |path| - 1;
      PrefixIsPath(g, {}, path, n);
      PrefixIsFollowed(g, path, steps, n);
      TotalIsRidingPlusChanges(g, path[..n], steps[..n - 1]);
      LastLeg(g, path, steps);
      PrefixHidesSame(g, path, n);
    }
  }

  lemma PrefixIsFollowed(g: Graph, path: Path, steps: seq<TravelStep>, n: nat)
    requires Follows(g, path, steps) && 1 <= n <= |path|
    ensures Follows(g, path[..n], steps[..n - 1])
  {
    var before, fewer := path[..n], steps[..n - 1];
    forall i | 0 <= i < n - 1
      ensures FollowsAt(g, before, fewer, i)
    {
      assert FollowsAt(g, path, steps, i);
    }
  }

  lemma PrefixHidesSame(g: Graph, path: Path, n: nat)
    requires IsPath(g, {}, path) && 1 <= n && n == |path| - 1 && IsPath(g, {}, path[..n])
    ensures ShowsChanges(g, path) <==> ShowsChanges(g, path[..n]) && !HidesChange(g, path, n)
  {
    forall j | 2 <= j < n
      ensures HidesChange(g, path[..n], j) <==> HidesChange(g, path, j)
    {
      assert path[..n][j] == path[j] && path[..n][j - 1] == path[j - 1] && path[..n][j - 2] == path[j - 2];
    }
  }

  lemma StayingTakesNoTime(station: Id)
    ensures StepTime(StayAt(station).steps) == 0
  {
    var steps := StayAt(station).steps;
    assert steps[..|steps| - 1] == [] && RidingTime([]) == 0;
  }

  /** One past the largest unsigned 32-bit value. */
  const TWO_TO_THE_32: nat := 0x1_0000_0000

  /** The passengers counted along a path; counts may be negative. */
  function PassengersAlong(g: Graph, path: Path): int
    requires forall i :: 0 <= i < |path| ==> path[i].stop.node in g
  {
    if path == [] then 0
    else PassengersAlong(g, path[..|path| - 1]) + g[path[|path| - 1].stop.node].passengerCount
  }

  lemma PassengersAtStation(g: Graph, p: PathStopDist)
    requires p.stop.node in g
    ensures PassengersAlong(g, [p]) == g[p.stop.node].passengerCount
  {
    assert [p][..0] == [] && PassengersAlong(g, []) == 0;
  }

  /** The count along a path is the sum over its stops. */
  lemma {:induction false} PassengersAddUp(g: Graph, p: Path, q: Path)
    requires forall i :: 0 <= i < |p| ==> p[i].stop.node in g
    requires forall i :: 0 <= i < |q| ==> q[i].stop.node in g
    ensures forall i :: 0 <= i < |p + q| ==> (p + q)[i].stop.node in g
    ensures PassengersAlong(g, p + q) == PassengersAlong(g, p) + PassengersAlong(g, q)
    ensures |q| == 1 ==> PassengersAlong(g, q) == g[q[0].stop.node].passengerCount
    decreases |q|
  {
    if q == [] {
      assert p + q == p;
    } else {
      var n := |q| - 1;
      PassengersAddUp(g, p, q[..n]);
      assert (p + q)[..|p + q| - 1] == p + q[..n];
      if n == 0 {
        PassengersAtStation(g, q[0]);
      }
    }
  }

  /** The crowding of a path as an unsigned 32-bit number. */
  function Crowding(g: Graph, path: Path): nat
    requires forall i :: 0 <= i < |path| ==> path[i].stop.node in g
  {
    PassengersAlong(g, path) % TWO_TO_THE_32
  }

  method GetPathCrowding(g: Graph, path: Path) returns (totPassengerCount: nat)
    requires forall i :: 0 <= i < |path| ==> path[i].stop.node in g
    ensures totPassengerCount == Crowding(g, path) && totPassengerCount == PassengersAlong(g, path) % 4294967296
    ensures 0 <= PassengersAlong(g, path) < 4294967296 ==> totPassengerCount == PassengersAlong(g, path)
  {
    totPassengerCount := 0;
    for i := 0 to |path|
      invariant totPassengerCount == Crowding(g, path[..i])
    {
      assert path[..i + 1][..i] == path[..i];
      totPassengerCount := (totPassengerCount + g[path[i].stop.node].passengerCount) % TWO_TO_THE_32;
    }
    assert path[..|path|] == path;
  }

  /** The largest crowding that makes an alternative to a path of crowding `c` worthwhile. */
  function MaxCrowding(c: nat, minQuietnessPc: real): nat
    requires minQuietnessPc <= 1.0
  {
    assert c as real * (1.0 - minQuietnessPc) >= 0.0;
    (c as real * (1.0 - minQuietnessPc)).Floor
  }

  /** The bound in whole passengers is exact. */
  lemma MaxCrowdingIsExact(crowding: nat, c: nat, minQuietnessPc: real)
    requires minQuietnessPc <= 1.0
    ensures crowding <= MaxCrowding(c, minQuietnessPc) <==> crowding as real <= c as real * (1.0 - minQuietnessPc)
  {
    FloorIsExact(crowding, c as real * (1.0 - minQuietnessPc));
  }

  ghost predicate InNetwork(g: Graph, paths: seq<Path>) {
    forall p: Path, i :: p in paths && 0 <= i < |p| ==> p[i].stop.node in g
  }

  /** Whether the `k`-th path is an alternative that is quiet enough. */
  ghost predicate Qualifies(g: Graph, paths: seq<Path>, minQuietnessPc: real, k: nat)
    requires minQuietnessPc <= 1.0 && InNetwork(g, paths)
  {
    && 1 <= k < |paths|
    && Crowding(g, paths[k]) as real <= Crowding(g, paths[0]) as real * (1.0 - minQuietnessPc)
    && Crowding(g, paths[k]) < Crowding(g, paths[0])
  }

  /** The `k`-th path is the first of the least crowded that qualify, or the fastest if none does. */
  ghost predicate IsQuietChoice(g: Graph, paths: seq<Path>, minQuietnessPc: real, k: nat)
    requires minQuietnessPc <= 1.0 && InNetwork(g, paths)
  {
    && k < |paths|
    && (k == 0 || Qualifies(g, paths, minQuietnessPc, k))
    && (k == 0 ==> forall j: nat :: !Qualifies(g, paths, minQuietnessPc, j))
    && forall j: nat :: Qualifies(g, paths, minQuietnessPc, j) ==>
         && Crowding(g, paths[k]) <= Crowding(g, paths[j])
         && (j < k ==> Crowding(g, paths[k]) < Crowding(g, paths[j]))
  }

  /** The same for the first `n` paths. */
  ghost predicate IsChoiceOf(g: Graph, paths: seq<Path>, minQuietnessPc: real, n: nat, k: nat)
    requires minQuietnessPc <= 1.0 && InNetwork(g, paths)
  {
    && k < n <= |paths|
    && (k == 0 || Qualifies(g, paths, minQuietnessPc, k))
    && forall j: nat :: Qualifies(g, paths, minQuietnessPc, j) && j < n ==>
         && k > 0
         && Crowding(g, paths[k]) <= Crowding(g, paths[j])
         && (j < k ==> Crowding(g, paths[k]) < Crowding(g, paths[j]))
  }

  /** Only a path that is quiet enough and quieter than the choice so far is a better choice. */
  lemma NextChoice(g: Graph, paths: seq<Path>, minQuietnessPc: real, n: nat, k: nat)
    requires minQuietnessPc <= 1.0 && InNetwork(g, paths)
    requires n < |paths| && IsChoiceOf(g, paths, minQuietnessPc, n, k)
    ensures IsChoiceOf(g, paths, minQuietnessPc, n + 1,
                       if Crowding(g, paths[n]) <= MaxCrowding(Crowding(g, paths[0]), minQuietnessPc) &&
                          Crowding(g, paths[n]) < Crowding(g, paths[k]) then n else k)
  {
    MaxCrowdingIsExact(Crowding(g, paths[n]), Crowding(g, paths[0]), minQuietnessPc);
  }

  /** Overwrites the first of the paths with each better one it meets. */
  method SelectMostQuiet(g: Graph, candidates: seq<Path>, minQuietnessPc: real)
    returns (mostQuietPath: Path, ghost k: nat)
    requires |candidates| > 0 && minQuietnessPc <= 1.0 && InNetwork(g, candidates)
    ensures IsQuietChoice(g, candidates, minQuietnessPc, k) && mostQuietPath == candidates[k]
    ensures exists j: nat :: IsQuietChoice(g, candidates, minQuietnessPc, j) && mostQuietPath == candidates[j]
  {
    var paths := candidates;
    k := 0;
    assert paths[0] in candidates;
    var minCrowding := GetPathCrowding(g, paths[0]);
    var maxCrowding := MaxCrowding(minCrowding, minQuietnessPc);
    for idx := 1 to |paths|
      invariant |paths| == |candidates| && paths[1..] == candidates[1..]
      invariant IsChoiceOf(g, candidates, minQuietnessPc, idx, k)
      invariant paths[0] == candidates[k] && minCrowding == Crowding(g, candidates[k])
    {
      assert paths[idx] == candidates[idx] && candidates[idx] in candidates;
      var crowding := GetPathCrowding(g, paths[idx]);
      NextChoice(g, candidates, minQuietnessPc, idx, k);
      if crowding > maxCrowding {
        continue;
      }
      if crowding < minCrowding {
        minCrowding := crowding;
        paths := paths[0 := paths[idx]];
        k := idx;
      }
    }
    mostQuietPath := paths[0];
  }
}
