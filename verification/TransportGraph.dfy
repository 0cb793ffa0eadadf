/** The line graph searched by `TransportNetwork`, and what a path through it is. */
module TransportGraph {
  import opened Wrappers

  /** Station, line and route identifiers. */
  type Id = string

  /** A route object. Routes are compared by object identity, which `handle` stands for. */
  datatype RouteInternal = RouteInternal(handle: nat, id: Id, line: Id, stops: seq<Id>)

  datatype GraphEdge = GraphEdge(route: RouteInternal, nextStop: Id, travelTime: nat)

  datatype GraphNode = GraphNode(id: Id, name: string, passengerCount: int, edges: seq<GraphEdge>)

  type Graph = map<Id, GraphNode>

  /** An edge object: edges are only ever appended, so its position identifies it. */
  datatype EdgeRef = EdgeRef(from: Id, idx: nat)

  /** A station together with the edge used to get to it. */
  datatype PathStop = PathStop(node: Id, edge: Option<EdgeRef>)

  datatype PathStopDist = PathStopDist(stop: PathStop, dist: nat)

  type Path = seq<PathStopDist>

  /** Minutes added when a path changes route. */
  const CHANGE_PENALTY: nat := 5

  /** Every edge leads to a station of the network. */
  ghost predicate Closed(g: Graph) {
    forall x, i :: x in g && 0 <= i < |g[x].edges| ==> g[x].edges[i].nextStop in g
  }

  predicate HasEdge(g: Graph, r: EdgeRef) {
    r.from in g && r.idx < |g[r.from].edges|
  }

  function EdgeAt(g: Graph, r: EdgeRef): GraphEdge
    requires HasEdge(g, r)
  {
    g[r.from].edges[r.idx]
  }

  /** The stop reached by leaving station `x` through its `i`-th edge. */
  function StopVia(g: Graph, x: Id, i: nat): PathStop
    requires x in g && i < |g[x].edges|
  {
    PathStop(g[x].edges[i].nextStop, Some(EdgeRef(x, i)))
  }

  predicate ValidStop(g: Graph, p: PathStop) {
    && p.node in g
    && (p.edge.Some? ==> HasEdge(g, p.edge.value) && EdgeAt(g, p.edge.value).nextStop == p.node)
  }

  /** `q` is a stop one edge away from the station of `p`. */
  predicate Step(g: Graph, p: PathStop, q: PathStop) {
    && q.edge.Some?
    && q.edge.value.from == p.node
    && ValidStop(g, q)
  }

  /** Whether reaching `q` from `p` means boarding another route. */
  predicate ChangesRoute(g: Graph, p: PathStop, q: PathStop)
    requires ValidStop(g, p) && Step(g, p, q)
  {
    p.edge.Some? && EdgeAt(g, p.edge.value).route != EdgeAt(g, q.edge.value).route
  }

  /** Minutes to reach `q` from `p`, counting a change of route. */
  function Leg(g: Graph, p: PathStop, q: PathStop): nat
    requires ValidStop(g, p) && Step(g, p, q)
  {
    EdgeAt(g, q.edge.value).travelTime + if ChangesRoute(g, p, q) then CHANGE_PENALTY else 0
  }

  /** `b` follows `a` with the exact cumulative time, at a stop that is not avoided. */
  predicate Link(g: Graph, avoiding: set<PathStop>, a: PathStopDist, b: PathStopDist) {
    && ValidStop(g, a.stop)
    && Step(g, a.stop, b.stop)
    && b.stop !in avoiding
    && b.dist == a.dist + Leg(g, a.stop, b.stop)
  }

  predicate LinkAt(g: Graph, avoiding: set<PathStop>, p: Path, j: nat)
    requires 1 <= j < |p|
  {
    Link(g, avoiding, p[j - 1], p[j])
  }

  /** A legal walk with exact cumulative times; its first stop may carry any distance. */
  ghost predicate IsPath(g: Graph, avoiding: set<PathStop>, p: Path) {
    && |p| > 0
    && ValidStop(g, p[0].stop)
    && forall j :: 1 <= j < |p| ==> LinkAt(g, avoiding, p, j)
  }

  function Last(p: Path): PathStopDist
    requires |p| > 0
  {
    p[|p| - 1]
  }

  /** The time at which a path ends. */
  function Total(p: Path): nat {
    if p == [] then 0 else Last(p).dist
  }

  /** No station occurs twice. */
  ghost predicate StationSimple(p: Path) {
    forall i, j :: 0 <= i < j < |p| ==> p[i].stop.node != p[j].stop.node
  }

  ghost predicate Misses(p: Path, station: Id) {
    forall i :: 0 <= i < |p| ==> p[i].stop.node != station
  }

  /** A path from `start` to `target`, avoiding some stops after the first. */
  ghost predicate IsRouteTo(g: Graph, start: PathStopDist, target: Id, avoiding: set<PathStop>, p: Path) {
    IsPath(g, avoiding, p) && p[0] == start && Last(p).stop.node == target
  }

  /** Rounding a bound down excludes no whole number. */
  lemma FloorIsExact(n: nat, x: real)
    ensures n <= x.Floor <==> n as real <= x
  {
  }

  lemma ExtendPath(g: Graph, avoiding: set<PathStop>, p: Path, next: PathStopDist)
    requires IsPath(g, avoiding, p)
    requires Link(g, avoiding, Last(p), next)
    ensures IsPath(g, avoiding, p + [next])
  {
    var r := p + [next];
    forall j | 1 <= j < |r|
      ensures LinkAt(g, avoiding, r, j)
    {
      if j < |p| {
        assert LinkAt(g, avoiding, p, j);
      }
    }
  }

  lemma PrefixIsPath(g: Graph, avoiding: set<PathStop>, p: Path, n: nat)
    requires IsPath(g, avoiding, p)
    requires 1 <= n <= |p|
    ensures IsPath(g, avoiding, p[..n])
  {
    forall j | 1 <= j < n
      ensures LinkAt(g, avoiding, p[..n], j)
    {
      assert LinkAt(g, avoiding, p, j);
    }
  }

  /** Every stop of a path is real, and times never decrease along it. */
  lemma {:induction false} PathStops(g: Graph, avoiding: set<PathStop>, p: Path, k: nat, j: nat)
    requires IsPath(g, avoiding, p)
    requires k <= j < |p|
    ensures ValidStop(g, p[k].stop) && ValidStop(g, p[j].stop)
    ensures p[k].dist <= p[j].dist
    decreases j
  {
    if k < j {
      PathStops(g, avoiding, p, k, j - 1);
      assert LinkAt(g, avoiding, p, j);
    } else if k > 0 {
      assert LinkAt(g, avoiding, p, k);
    }
  }

  /** Reaching a later stop on another route costs at least one penalty. */
  lemma {:induction false} ChangeIsPaid(g: Graph, avoiding: set<PathStop>, p: Path, k: nat, j: nat)
    requires IsPath(g, avoiding, p)
    requires k <= j < |p| && p[k].stop.edge.Some?
    ensures ValidStop(g, p[k].stop) && ValidStop(g, p[j].stop) && p[j].stop.edge.Some?
    ensures p[j].dist >= p[k].dist
    ensures EdgeAt(g, p[j].stop.edge.value).route != EdgeAt(g, p[k].stop.edge.value).route
            ==> p[j].dist >= p[k].dist + CHANGE_PENALTY
    decreases j
  {
    PathStops(g, avoiding, p, k, j);
    if k < j {
      ChangeIsPaid(g, avoiding, p, k, j - 1);
      assert LinkAt(g, avoiding, p, j);
    }
  }

  /**
   * Leaving a station on the first visit is never dearer than looping back to it and leaving then,
   * whatever the routes used on the way.
   */
  lemma LoopIsNotCheaper(g: Graph, avoiding: set<PathStop>, p: Path, k: nat, j: nat, q: PathStop)
    requires IsPath(g, avoiding, p)
    requires k <= j < |p| && p[k].stop.node == p[j].stop.node
    requires Step(g, p[j].stop, q)
    ensures ValidStop(g, p[k].stop) && ValidStop(g, p[j].stop) && Step(g, p[k].stop, q)
    ensures p[k].dist + Leg(g, p[k].stop, q) <= p[j].dist + Leg(g, p[j].stop, q)
  {
    PathStops(g, avoiding, p, k, j);
    if p[k].stop.edge.Some? {
      ChangeIsPaid(g, avoiding, p, k, j);
    }
  }
}
