/** Travel times between neighbors and along a route. */
module TravelTimes {
  import opened Wrappers
  import opened TransportGraph
  import opened LineNetwork

  /** The edge leads from `a` to `b` or back. */
  predicate Connects(g: Graph, r: EdgeRef, a: Id, b: Id) {
    && HasEdge(g, r)
    && ((r.from == a && EdgeAt(g, r).nextStop == b) || (r.from == b && EdgeAt(g, r).nextStop == a))
  }

  /** All edges between two stations, in both directions, take the same time. */
  ghost predicate Uniform(g: Graph) {
    forall r, s, a, b :: Connects(g, r, a, b) && Connects(g, s, a, b) ==>
      EdgeAt(g, r).travelTime == EdgeAt(g, s).travelTime
  }

  function RetimeEdges(edges: seq<GraphEdge>, to: Id, travelTime: nat): (r: seq<GraphEdge>)
    ensures |r| == |edges| && HopsOf(r) == HopsOf(edges)
  {
    seq(|edges|, i requires 0 <= i < |edges| =>
      if edges[i].nextStop == to then edges[i].(travelTime := travelTime) else edges[i])
  }

  /** The graph after setting the time of every edge from `from` to `to`. */
  function Retime(g: Graph, from: Id, to: Id, travelTime: nat): Graph
    requires from in g
  {
    g[from := g[from].(edges := RetimeEdges(g[from].edges, to, travelTime))]
  }

  /** The graph after setting the time between two stations in both directions. */
  function RetimeBoth(g: Graph, a: Id, b: Id, travelTime: nat): Graph
    requires a in g && b in g
  {
    Retime(Retime(g, a, b, travelTime), b, a, travelTime)
  }

  /** The time of the first edge to `to`. */
  function FirstTimeTo(edges: seq<GraphEdge>, to: Id): (t: Option<nat>)
    ensures t.None? <==> forall i :: 0 <= i < |edges| ==> edges[i].nextStop != to
    ensures t.Some? ==> exists i :: 0 <= i < |edges| && edges[i].nextStop == to && edges[i].travelTime == t.value
  {
    if edges == [] then None
    else if edges[0].nextStop == to then Some(edges[0].travelTime)
    else FirstTimeTo(edges[1..], to)
  }

  /** The time between two stations: that of an edge there, else of one back, else 0. */
  function TravelTimeBetween(g: Graph, a: Id, b: Id): nat {
    if a !in g || b !in g then 0
    else
      match FirstTimeTo(g[a].edges, b)
      case Some(t) => t
      case None =>
        match FirstTimeTo(g[b].edges, a)
        case Some(t) => t
        case None => 0
  }

  /** Setting a time touches the edges between the two stations and nothing else. */
  lemma RetimeBothEdges(g: Graph, a: Id, b: Id, travelTime: nat, r: EdgeRef)
    requires a in g && b in g
    ensures var h := RetimeBoth(g, a, b, travelTime);
            && h.Keys == g.Keys
            && (HasEdge(h, r) <==> HasEdge(g, r))
            && (HasEdge(g, r) ==>
                  EdgeAt(h, r) ==
                    if Connects(g, r, a, b) then EdgeAt(g, r).(travelTime := travelTime) else EdgeAt(g, r))
  {
  }

  /** The first edge there gives the time; without one, the first edge back does. */
  lemma {:induction false} FirstEdgeGivesTheTime(edges: seq<GraphEdge>, to: Id, i: nat)
    requires i < |edges| && edges[i].nextStop == to && forall j :: 0 <= j < i ==> edges[j].nextStop != to
    ensures FirstTimeTo(edges, to) == Some(edges[i].travelTime)
  {
    if i > 0 {
      assert forall j :: 0 <= j < i - 1 ==> edges[1..][j] == edges[j + 1];
      assert edges[0].nextStop != to;
      FirstEdgeGivesTheTime(edges[1..], to, i - 1);
    }
  }

  /** The `i`-th edge of station `x` is its first to `to`. */
  ghost predicate IsFirstEdgeTo(g: Graph, x: Id, to: Id, i: nat) {
    && x in g && i < |g[x].edges| && g[x].edges[i].nextStop == to
    && forall j :: 0 <= j < i ==> g[x].edges[j].nextStop != to
  }

  /** The time between two stations is that of the first edge there, else of the first one back, else 0. */
  lemma TimeThereOrBack(g: Graph, a: Id, b: Id, i: nat)
    ensures IsFirstEdgeTo(g, a, b, i) && b in g ==> TravelTimeBetween(g, a, b) == g[a].edges[i].travelTime
    ensures IsFirstEdgeTo(g, b, a, i) && a in g && (forall e :: e in g[a].edges ==> e.nextStop != b) ==>
              TravelTimeBetween(g, a, b) == g[b].edges[i].travelTime
    ensures (forall r :: !Connects(g, r, a, b)) || a !in g || b !in g ==> TravelTimeBetween(g, a, b) == 0
  {
    if IsFirstEdgeTo(g, a, b, i) {
      FirstEdgeGivesTheTime(g[a].edges, b, i);
    }
    if IsFirstEdgeTo(g, b, a, i) {
      FirstEdgeGivesTheTime(g[b].edges, a, i);
    }
    if a in g && b in g {
      SomeEdgeGivesTheTime(g, a, b);
      assert forall j :: 0 <= j < |g[a].edges| ==> g[a].edges[j] in g[a].edges;
    }
  }

  /** Settings change nothing about a station but the times of its edges. */
  lemma {:induction false} SettingsKeepStations(g: Graph, settings: seq<TimeSetting>, x: Id)
    requires x in g
    ensures x in AfterSettings(g, settings)
    ensures var after := AfterSettings(g, settings)[x];
            after == g[x].(edges := after.edges) && HopsOf(after.edges) == HopsOf(g[x].edges)
    decreases |settings|
  {
    if settings != [] {
      SettingsKeepStations(g, settings[..|settings| - 1], x);
    }
  }

  /** Uniform times stay uniform when a time is set. */
  lemma RetimeBothKeepsUniform(g: Graph, a: Id, b: Id, travelTime: nat)
    requires a in g && b in g && Uniform(g)
    ensures Uniform(RetimeBoth(g, a, b, travelTime))
  {
    var h := RetimeBoth(g, a, b, travelTime);
    forall r, s, x, y | Connects(h, r, x, y) && Connects(h, s, x, y)
      ensures EdgeAt(h, r).travelTime == EdgeAt(h, s).travelTime
    {
      RetimeBothEdges(g, a, b, travelTime, r);
      RetimeBothEdges(g, a, b, travelTime, s);
      assert Connects(g, r, x, y) && Connects(g, s, x, y);
    }
  }

  lemma SomeEdgeGivesTheTime(g: Graph, a: Id, b: Id)
    requires a in g && b in g
    ensures (exists r :: Connects(g, r, a, b) && EdgeAt(g, r).travelTime == TravelTimeBetween(g, a, b))
            || (TravelTimeBetween(g, a, b) == 0 && forall r :: !Connects(g, r, a, b))
  {
    if i :| 0 <= i < |g[a].edges| && g[a].edges[i].nextStop == b &&
            FirstTimeTo(g[a].edges, b) == Some(g[a].edges[i].travelTime) {
      assert Connects(g, EdgeRef(a, i), a, b);
    } else if i :| 0 <= i < |g[b].edges| && g[b].edges[i].nextStop == a &&
                   FirstTimeTo(g[b].edges, a) == Some(g[b].edges[i].travelTime) {
      assert Connects(g, EdgeRef(b, i), a, b);
    }
  }

  /** With uniform times, the time between two stations is that of every edge, in either direction. */
  lemma UniformTimes(g: Graph, a: Id, b: Id)
    requires a in g && b in g && Uniform(g)
    ensures TravelTimeBetween(g, a, b) == TravelTimeBetween(g, b, a)
    ensures forall r :: Connects(g, r, a, b) ==> EdgeAt(g, r).travelTime == TravelTimeBetween(g, a, b)
  {
    SomeEdgeGivesTheTime(g, a, b);
    SomeEdgeGivesTheTime(g, b, a);
    assert forall r :: Connects(g, r, a, b) <==> Connects(g, r, b, a);
  }

  predicate SamePair(a: Id, b: Id, x: Id, y: Id) {
    (x == a && y == b) || (x == b && y == a)
  }

  /** The time read back after setting it is the new time, if any edge connects the two stations. */
  lemma TimeJustSet(g: Graph, a: Id, b: Id, travelTime: nat, x: Id, y: Id)
    requires a in g && b in g && Uniform(g) && SamePair(a, b, x, y)
    ensures TravelTimeBetween(RetimeBoth(g, a, b, travelTime), x, y) ==
              if exists r :: Connects(g, r, a, b) then travelTime else 0
  {
    var h := RetimeBoth(g, a, b, travelTime);
    RetimeBothKeepsUniform(g, a, b, travelTime);
    UniformTimes(h, x, y);
    SomeEdgeGivesTheTime(h, x, y);
    if r :| Connects(g, r, a, b) {
      RetimeBothEdges(g, a, b, travelTime, r);
      assert Connects(h, r, x, y);
    } else if r :| Connects(h, r, x, y) {
      RetimeBothEdges(g, a, b, travelTime, r);
      assert Connects(g, r, a, b);
      assert false;
    }
  }

  /** Setting a time leaves the times between all other pairs of stations as they were. */
  lemma OtherTimesStay(g: Graph, a: Id, b: Id, travelTime: nat, x: Id, y: Id)
    requires a in g && b in g && x in g && y in g && Uniform(g) && !SamePair(a, b, x, y)
    ensures TravelTimeBetween(RetimeBoth(g, a, b, travelTime), x, y) == TravelTimeBetween(g, x, y)
  {
    var h := RetimeBoth(g, a, b, travelTime);
    RetimeBothKeepsUniform(g, a, b, travelTime);
    UniformTimes(g, x, y);
    UniformTimes(h, x, y);
    SomeEdgeGivesTheTime(g, x, y);
    SomeEdgeGivesTheTime(h, x, y);
    if r :| Connects(g, r, x, y) {
      RetimeBothEdges(g, a, b, travelTime, r);
      assert Connects(h, r, x, y);
    } else if r :| Connects(h, r, x, y) {
      RetimeBothEdges(g, a, b, travelTime, r);
      assert Connects(g, r, x, y);
      assert false;
    }
  }

  /** The position of the first edge of a route, or the number of edges if there is none. */
  function EdgeIndex(edges: seq<GraphEdge>, r: RouteInternal): (i: nat)
    ensures i <= |edges|
    ensures i < |edges| ==> edges[i].route == r
    ensures forall j :: 0 <= j < i ==> edges[j].route != r
  {
    if edges == [] || edges[0].route == r then 0 else 1 + EdgeIndex(edges[1..], r)
  }

  /** The time of the route's edge at its `k`-th stop. */
  function LegTime(g: Graph, r: RouteInternal, k: nat): nat
    requires k < |r.stops|
  {
    var x := r.stops[k];
    if x in g && EdgeIndex(g[x].edges, r) < |g[x].edges| then g[x].edges[EdgeIndex(g[x].edges, r)].travelTime
    else 0
  }

  /** The time along a route from its `i`-th to its `j`-th stop. */
  function RouteTime(g: Graph, r: RouteInternal, i: nat, j: nat): nat
    requires i <= j < |r.stops|
    decreases j
  {
    if i == j then 0 else RouteTime(g, r, i, j - 1) + LegTime(g, r, j - 1)
  }

  lemma {:induction false} RouteTimeIsAdditive(g: Graph, r: RouteInternal, i: nat, j: nat, k: nat)
    requires i <= j <= k < |r.stops|
    ensures RouteTime(g, r, i, k) == RouteTime(g, r, i, j) + RouteTime(g, r, j, k)
    decreases k
  {
    if j < k {
      RouteTimeIsAdditive(g, r, i, j, k - 1);
    }
  }

  /** With uniform times, each leg of a route takes the time between its two stations. */
  lemma LegTimeIsTravelTime(g: Graph, routes: seq<RouteInternal>, bound: nat, r: RouteInternal, k: nat)
    requires ProperRoutes(routes, bound) && Agrees(g, routes) && Uniform(g)
    requires r in routes && k + 1 < |r.stops|
    ensures LegTime(g, r, k) == TravelTimeBetween(g, r.stops[k], r.stops[k + 1])
  {
    var x, next := r.stops[k], r.stops[k + 1];
    assert StopsKnown(g, r) && LegAt(r, k, x, next);
    var i := RouteHasOneEdge(g, routes, bound, x, r, k, next);
    assert EdgeIndex(g[x].edges, r) == i;
    assert Connects(g, EdgeRef(x, i), x, next);
    UniformTimes(g, x, next);
  }

  /** A station is not its own neighbor, so the time from a station to itself is 0. */
  lemma NoTimeToStay(g: Graph, routes: seq<RouteInternal>, bound: nat, x: Id)
    requires ProperRoutes(routes, bound) && Agrees(g, routes)
    ensures TravelTimeBetween(g, x, x) == 0
  {
    if x in g {
      forall i | 0 <= i < |g[x].edges|
        ensures g[x].edges[i].nextStop != x
      {
        var h := HopOf(g[x].edges[i]);
        assert HopsAgree(g, routes, x) && HopsOf(g[x].edges)[i] == h;
        HopIsLeg(routes, x, h);
        var k: nat :| LegAt(h.route, k, x, h.nextStop);
        assert WellFormedStops(h.route.stops);
      }
    }
  }

  /** No travel time was set yet. */
  ghost predicate Untimed(g: Graph) {
    forall x, e :: x in g && e in g[x].edges ==> e.travelTime == 0
  }

  lemma UntimedIsUniform(g: Graph)
    requires Untimed(g)
    ensures Uniform(g)
  {
    assert forall r :: HasEdge(g, r) ==> EdgeAt(g, r) in g[r.from].edges;
  }

  lemma {:induction false} RoutesStartUntimed(g: Graph, routes: seq<RouteInternal>)
    requires Untimed(g)
    ensures Untimed(WithRoutes(g, routes))
  {
    if routes != [] {
      RoutesStartUntimed(g, routes[..|routes| - 1]);
    }
  }

  /** A request to set the time between two stations; it is ignored if either is unknown. */
  datatype TimeSetting = TimeSetting(a: Id, b: Id, travelTime: nat)

  function AfterSetting(g: Graph, s: TimeSetting): Graph {
    if s.a in g && s.b in g then RetimeBoth(g, s.a, s.b, s.travelTime) else g
  }

  function AfterSettings(g: Graph, settings: seq<TimeSetting>): Graph {
    if settings == [] then g
    else AfterSetting(AfterSettings(g, settings[..|settings| - 1]), settings[|settings| - 1])
  }

  /** The time last set for a pair of stations, in either direction. */
  function LastSetting(settings: seq<TimeSetting>, x: Id, y: Id): Option<nat> {
    if settings == [] then None
    else
      var s := settings[|settings| - 1];
      if SamePair(s.a, s.b, x, y) then Some(s.travelTime)
      else LastSetting(settings[..|settings| - 1], x, y)
  }

  /** Some edge connects the two stations. */
  ghost predicate Joined(g: Graph, x: Id, y: Id) {
    exists r :: Connects(g, r, x, y)
  }

  /** The same edges connect `x` and `y` after a setting. */
  lemma SettingKeepsConnections(g: Graph, s: TimeSetting, x: Id, y: Id)
    ensures AfterSetting(g, s).Keys == g.Keys
    ensures forall r :: Connects(AfterSetting(g, s), r, x, y) <==> Connects(g, r, x, y)
    ensures Joined(AfterSetting(g, s), x, y) <==> Joined(g, x, y)
  {
    if s.a in g && s.b in g {
      forall r
        ensures Connects(AfterSetting(g, s), r, x, y) <==> Connects(g, r, x, y)
      {
        RetimeBothEdges(g, s.a, s.b, s.travelTime, r);
      }
    }
    if r :| Connects(g, r, x, y) {
      assert Connects(AfterSetting(g, s), r, x, y);
    }
  }

  /** A setting for two joined stations is read back; every other time stays. */
  lemma TimeAfterSetting(g: Graph, s: TimeSetting, x: Id, y: Id)
    requires Uniform(g) && x in g && y in g
    ensures Uniform(AfterSetting(g, s))
    ensures TravelTimeBetween(AfterSetting(g, s), x, y) ==
              if SamePair(s.a, s.b, x, y) && Joined(g, x, y) then s.travelTime else TravelTimeBetween(g, x, y)
  {
    if s.a in g && s.b in g {
      RetimeBothKeepsUniform(g, s.a, s.b, s.travelTime);
      if SamePair(s.a, s.b, x, y) {
        assert forall r :: Connects(g, r, s.a, s.b) <==> Connects(g, r, x, y);
        TimeJustSet(g, s.a, s.b, s.travelTime, x, y);
        SomeEdgeGivesTheTime(g, x, y);
      } else {
        OtherTimesStay(g, s.a, s.b, s.travelTime, x, y);
      }
    }
  }

  /**
   * Over any run of settings, two stations joined by an edge are as far apart, in both directions and on
   * every route, as the last setting for them says; others are not affected.
   */
  lemma {:induction false} TimesAfterSettings(g: Graph, settings: seq<TimeSetting>, x: Id, y: Id)
    requires Uniform(g) && x in g && y in g
    ensures AfterSettings(g, settings).Keys == g.Keys && Uniform(AfterSettings(g, settings))
    ensures forall r :: Connects(AfterSettings(g, settings), r, x, y) <==> Connects(g, r, x, y)
    ensures Joined(AfterSettings(g, settings), x, y) <==> Joined(g, x, y)
    ensures TravelTimeBetween(AfterSettings(g, settings), x, y) == TravelTimeBetween(AfterSettings(g, settings), y, x)
    ensures TravelTimeBetween(AfterSettings(g, settings), x, y) ==
              if Joined(g, x, y) && LastSetting(settings, x, y).Some? then LastSetting(settings, x, y).value
              else TravelTimeBetween(g, x, y)
    decreases |settings|
  {
    if settings == [] {
      UniformTimes(g, x, y);
    } else {
      var s, earlier := settings[|settings| - 1], settings[..|settings| - 1];
      TimesAfterSettings(g, earlier, x, y);
      SettingKeepsConnections(AfterSettings(g, earlier), s, x, y);
      TimeAfterSetting(AfterSettings(g, earlier), s, x, y);
      UniformTimes(AfterSettings(g, settings), x, y);
    }
  }

  /** The setting is for two joined stations. */
  ghost predicate IsHeeded(g: Graph, s: TimeSetting) {
    s.a in g && s.b in g && Joined(g, s.a, s.b)
  }

  lemma {:induction false} HeededAsBefore(g: Graph, settings: seq<TimeSetting>, s: TimeSetting)
    ensures AfterSettings(g, settings).Keys == g.Keys
    ensures IsHeeded(AfterSettings(g, settings), s) <==> IsHeeded(g, s)
    decreases |settings|
  {
    if settings != [] {
      var earlier := settings[..|settings| - 1];
      HeededAsBefore(g, earlier, s);
      SettingKeepsConnections(AfterSettings(g, earlier), settings[|settings| - 1], s.a, s.b);
    }
  }

  lemma SettingsKeepHeeded(g: Graph, settings: seq<TimeSetting>)
    ensures AfterSettings(g, settings).Keys == g.Keys
    ensures forall s :: IsHeeded(AfterSettings(g, settings), s) <==> IsHeeded(g, s)
  {
    forall s
      ensures AfterSettings(g, settings).Keys == g.Keys
      ensures IsHeeded(AfterSettings(g, settings), s) <==> IsHeeded(g, s)
    {
      HeededAsBefore(g, settings, s);
    }
  }

  /** Every time is the one set last for two joined stations, in either direction, and 0 elsewhere. */
  ghost predicate HasTimes(g: Graph, settings: seq<TimeSetting>) {
    forall x, y :: x in g && y in g ==> HasTime(g, settings, x, y)
  }

  ghost predicate HasTime(g: Graph, settings: seq<TimeSetting>, x: Id, y: Id) {
    TravelTimeBetween(g, x, y) ==
      if Joined(g, x, y) && LastSetting(settings, x, y).Some? then LastSetting(settings, x, y).value else 0
  }

  lemma UntimedTimeIsZero(g: Graph, x: Id, y: Id)
    requires Untimed(g) && x in g && y in g
    ensures TravelTimeBetween(g, x, y) == 0
  {
    SomeEdgeGivesTheTime(g, x, y);
    if r :| Connects(g, r, x, y) && EdgeAt(g, r).travelTime == TravelTimeBetween(g, x, y) {
      assert EdgeAt(g, r) in g[r.from].edges;
    }
  }

  lemma TimesAreThoseSet(g: Graph, settings: seq<TimeSetting>)
    requires Untimed(g)
    ensures Uniform(AfterSettings(g, settings)) && HasTimes(AfterSettings(g, settings), settings)
  {
    UntimedIsUniform(g);
    var h := AfterSettings(g, settings);
    SettingsKeepHeeded(g, settings);
    forall x, y | x in h && y in h
      ensures HasTime(h, settings, x, y)
    {
      TimesAfterSettings(g, settings, x, y);
      UntimedTimeIsZero(g, x, y);
    }
    SettingsKeepUniform(g, settings);
  }

  lemma {:induction false} SettingsKeepUniform(g: Graph, settings: seq<TimeSetting>)
    requires Uniform(g)
    ensures Uniform(AfterSettings(g, settings))
    decreases |settings|
  {
    if settings != [] {
      var s, before := settings[|settings| - 1], AfterSettings(g, settings[..|settings| - 1]);
      SettingsKeepUniform(g, settings[..|settings| - 1]);
      if s.a in before && s.b in before {
        RetimeBothKeepsUniform(before, s.a, s.b, s.travelTime);
      }
    }
  }
}
