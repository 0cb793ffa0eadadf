/**
 * The fastest-route search: Dijkstra's algorithm over stops (station plus incoming edge), with a
 * penalty for changing route, a preset first stop and a set of stops to leave out.
 */
module FastestSearch {
  import opened Wrappers
  import opened TransportGraph

  datatype Query = Query(g: Graph, start: PathStopDist, target: Id, avoiding: set<PathStop>)

  ghost predicate ValidQuery(q: Query) {
    Closed(q.g) && ValidStop(q.g, q.start.stop)
  }

  /**
   * The records of a search in progress. `dist`, `prev` and `queue` are the algorithm's own;
   * `tree` gives for every recorded stop the path its distance measures, `done` the stops taken from
   * the queue so far, `unseen` all other stops of the graph, and `level` the distance of the stop
   * taken last.
   */
  datatype Labels = Labels(
    dist: map<PathStop, nat>, prev: map<PathStop, PathStop>, queue: multiset<PathStopDist>,
    tree: map<PathStop, Path>, done: set<PathStop>, unseen: set<PathStop>, level: nat)

  /** Every recorded distance is that of a real path from the start. */
  ghost predicate Backed(q: Query, l: Labels) {
    && l.tree.Keys == l.dist.Keys
    && q.start.stop in l.dist
    && l.tree[q.start.stop] == [q.start]
    && forall s :: s in l.dist ==>
         && IsPath(q.g, q.avoiding, l.tree[s])
         && l.tree[s][0] == q.start
         && Last(l.tree[s]) == PathStopDist(s, l.dist[s])
  }

  /** The previous stop of `s` carries the rest of its path, which meets no station twice. */
  ghost predicate HasParent(q: Query, l: Labels, s: PathStop)
    requires s in l.prev
  {
    && s in l.dist && s in l.tree
    && l.prev[s] in l.done && l.prev[s] in l.tree
    && l.tree[s] == l.tree[l.prev[s]] + [PathStopDist(s, l.dist[s])]
    && StationSimple(l.tree[l.prev[s]])
    && Misses(l.tree[l.prev[s]], q.target)
  }

  ghost predicate Chained(q: Query, l: Labels) {
    && l.prev.Keys == l.dist.Keys - {q.start.stop}
    && forall s :: s in l.prev ==> HasParent(q, l, s)
  }

  /** All but the last stop of a recorded path are done, at the distances the path gives them. */
  ghost predicate Finished(l: Labels) {
    && l.done <= l.dist.Keys
    && l.tree.Keys == l.dist.Keys
    && forall s, k :: s in l.tree && 0 <= k < |l.tree[s]| - 1 ==>
         && l.tree[s][k].stop in l.done
         && l.dist[l.tree[s][k].stop] == l.tree[s][k].dist
  }

  /** What the order of the queue gives: done stops are no further than the level, queued ones no nearer. */
  ghost predicate Ordered(q: Query, l: Labels) {
    && (forall s :: s in l.done ==> s in l.dist && l.dist[s] <= l.level)
    && (forall e :: e in l.queue ==> l.level <= e.dist && e.stop in l.dist && l.dist[e.stop] <= e.dist)
    && (forall s :: s in l.dist && s !in l.done ==> PathStopDist(s, l.dist[s]) in l.queue)
    && (forall s :: s in l.dist ==> q.start.dist <= l.dist[s] && (s in l.done || s in l.unseen))
    && (forall x, i :: x in q.g && 0 <= i < |q.g[x].edges| ==>
         StopVia(q.g, x, i) in l.done || StopVia(q.g, x, i) in l.unseen)
  }

  /** A path as the search records it: up to its last stop it meets no station twice, and not station B. */
  ghost predicate IsRecord(q: Query, p: Path) {
    && IsPath(q.g, q.avoiding, p) && p[0] == q.start
    && (|p| > 1 ==> StationSimple(p[..|p| - 1]) && Misses(p[..|p| - 1], q.target))
  }

  ghost predicate WasRecorded(q: Query, e: PathStopDist) {
    exists p :: IsRecord(q, p) && Last(p) == e
  }

  /** Every entry of the queue, stale ones too, was the end of a recorded path at some time. */
  ghost predicate Queued(q: Query, l: Labels) {
    forall e :: e in l.queue ==> WasRecorded(q, e)
  }

  ghost predicate Inv(q: Query, l: Labels) {
    Backed(q, l) && Chained(q, l) && Finished(l) && Ordered(q, l) && Queued(q, l)
  }

  /** Leaving `s` through its `i`-th edge offers no improvement on the recorded distances. */
  ghost predicate RelaxedVia(q: Query, dist: map<PathStop, nat>, s: PathStop, i: nat)
    requires s in dist && ValidStop(q.g, s) && i < |q.g[s.node].edges| && Closed(q.g)
  {
    var n := StopVia(q.g, s.node, i);
    n in q.avoiding || (n in dist && dist[n] <= dist[s] + Leg(q.g, s, n))
  }

  ghost predicate Relaxed(q: Query, dist: map<PathStop, nat>, s: PathStop)
    requires Closed(q.g)
  {
    && s in dist && ValidStop(q.g, s)
    && (s.node != q.target ==> forall i :: 0 <= i < |q.g[s.node].edges| ==> RelaxedVia(q, dist, s, i))
  }

  ghost predicate AllRelaxed(q: Query, dist: map<PathStop, nat>, done: set<PathStop>)
    requires Closed(q.g)
  {
    forall s :: s in done ==> Relaxed(q, dist, s)
  }

  /** Every stop a search can record. */
  ghost function Universe(q: Query): set<PathStop> {
    {q.start.stop} + set x, i | x in q.g && 0 <= i < |q.g[x].edges| :: StopVia(q.g, x, i)
  }

  lemma EarlierExitIsRelaxed(q: Query, l: Labels, relaxed: set<PathStop>, e: PathStopDist, n: PathStop)
    requires Closed(q.g) && AllRelaxed(q, l.dist, relaxed)
    requires e.stop in relaxed && e.stop.node != q.target && l.dist[e.stop] == e.dist
    requires ValidStop(q.g, e.stop) && Step(q.g, e.stop, n) && n !in q.avoiding
    ensures n in l.dist && l.dist[n] <= e.dist + Leg(q.g, e.stop, n)
  {
    assert Relaxed(q, l.dist, e.stop);
    assert RelaxedVia(q, l.dist, e.stop, n.edge.value.idx);
  }

  /** The path recorded for `c` meets no station twice if leaving it for `n` is an improvement. */
  lemma ImprovingPathIsSimple(q: Query, l: Labels, relaxed: set<PathStop>, c: PathStop, n: PathStop)
    requires ValidQuery(q) && Inv(q, l) && AllRelaxed(q, l.dist, relaxed)
    requires q.start.stop.node != q.target
    requires c in l.dist && c.node != q.target
    requires forall k :: 0 <= k < |l.tree[c]| - 1 ==> l.tree[c][k].stop in relaxed
    requires ValidStop(q.g, c) && Step(q.g, c, n) && n !in q.avoiding
    requires n !in l.dist || l.dist[c] + Leg(q.g, c, n) < l.dist[n]
    ensures StationSimple(l.tree[c]) && Misses(l.tree[c], q.target)
  {
    var p := l.tree[c];
    if c != q.start.stop {
      assert HasParent(q, l, c);
      var rest := l.tree[l.prev[c]];
      assert p == rest + [PathStopDist(c, l.dist[c])];
      forall k | 0 <= k < |rest|
        ensures p[k].stop.node != c.node
      {
        if p[k].stop.node == c.node {
          LoopIsNotCheaper(q.g, q.avoiding, p, k, |p| - 1, n);
          EarlierExitIsRelaxed(q, l, relaxed, p[k], n);
          assert false;
        }
      }
      forall i, j | 0 <= i < j < |p|
        ensures p[i].stop.node != p[j].stop.node
      {
        if j < |rest| {
          assert rest[i].stop.node != rest[j].stop.node;
        }
      }
    }
  }

  /** Recording an improved distance for `n`, reached from the done stop `c`. */
  ghost function Improve(l: Labels, c: PathStop, n: PathStop, d: nat): Labels
    requires c in l.tree
  {
    l.(dist := l.dist[n := d],
       prev := l.prev[n := c],
       queue := l.queue + multiset{PathStopDist(n, d)},
       tree := l.tree[n := l.tree[c] + [PathStopDist(n, d)]])
  }

  lemma ImproveKeepsBacked(q: Query, l: Labels, c: PathStop, n: PathStop, d: nat)
    requires Backed(q, l) && c in l.dist && n != q.start.stop
    requires IsPath(q.g, q.avoiding, l.tree[c] + [PathStopDist(n, d)])
    ensures Backed(q, Improve(l, c, n, d))
  {
  }

  lemma ImproveKeepsFinished(l: Labels, c: PathStop, n: PathStop, d: nat)
    requires Finished(l) && c in l.done && n !in l.done && |l.tree[c]| > 0
    requires Last(l.tree[c]) == PathStopDist(c, l.dist[c])
    ensures Finished(Improve(l, c, n, d))
  {
    var m := Improve(l, c, n, d);
    forall s, k | s in m.tree && 0 <= k < |m.tree[s]| - 1
      ensures m.tree[s][k].stop in m.done && m.dist[m.tree[s][k].stop] == m.tree[s][k].dist
    {
      if s == n {
        assert m.tree[s][k] == l.tree[c][k];
        if k < |l.tree[c]| - 1 {
          assert l.tree[c][k].stop in l.done;
        }
      } else {
        assert l.tree[s][k].stop in l.done;
      }
    }
  }

  lemma ImproveKeepsChained(q: Query, l: Labels, c: PathStop, n: PathStop, d: nat)
    requires Chained(q, l) && l.tree.Keys == l.dist.Keys
    requires c in l.done && c in l.tree && n !in l.done && n != q.start.stop
    requires StationSimple(l.tree[c]) && Misses(l.tree[c], q.target)
    ensures Chained(q, Improve(l, c, n, d))
  {
    var m := Improve(l, c, n, d);
    forall s | s in m.prev
      ensures HasParent(q, m, s)
    {
      if s == n {
        assert m.tree[c] == l.tree[c];
      } else {
        assert HasParent(q, l, s);
        assert m.tree[l.prev[s]] == l.tree[l.prev[s]];
      }
    }
  }

  lemma ImproveKeepsRelaxed(q: Query, l: Labels, relaxed: set<PathStop>, c: PathStop, n: PathStop, d: nat)
    requires Closed(q.g) && AllRelaxed(q, l.dist, relaxed) && c in l.tree
    requires n !in relaxed && (n !in l.dist || d < l.dist[n])
    ensures AllRelaxed(q, Improve(l, c, n, d).dist, relaxed)
  {
    var m := Improve(l, c, n, d);
    forall s | s in relaxed
      ensures Relaxed(q, m.dist, s)
    {
      assert Relaxed(q, l.dist, s);
      if s.node != q.target {
        forall i | 0 <= i < |q.g[s.node].edges|
          ensures RelaxedVia(q, m.dist, s, i)
        {
          assert RelaxedVia(q, l.dist, s, i);
        }
      }
    }
  }

  /** A recorded improvement keeps the invariant; done stops are never improved. */
  lemma ImproveKeepsInv(q: Query, l: Labels, relaxed: set<PathStop>, c: PathStop, n: PathStop, d: nat)
    requires ValidQuery(q) && Inv(q, l) && AllRelaxed(q, l.dist, relaxed)
    requires relaxed <= l.done
    requires q.start.stop.node != q.target
    requires c in l.done && c.node != q.target && l.dist[c] == l.level
    requires forall k :: 0 <= k < |l.tree[c]| - 1 ==> l.tree[c][k].stop in relaxed
    requires ValidStop(q.g, c) && Step(q.g, c, n) && n !in q.avoiding
    requires d == l.dist[c] + Leg(q.g, c, n) && (n !in l.dist || d < l.dist[n])
    ensures Inv(q, Improve(l, c, n, d)) && AllRelaxed(q, Improve(l, c, n, d).dist, relaxed)
    ensures n !in l.done && n != q.start.stop
  {
    ImprovingPathIsSimple(q, l, relaxed, c, n);
    ExtendPath(q.g, q.avoiding, l.tree[c], PathStopDist(n, d));
    assert n == StopVia(q.g, c.node, n.edge.value.idx);
    ImproveKeepsBacked(q, l, c, n, d);
    ImproveKeepsFinished(l, c, n, d);
    ImproveKeepsChained(q, l, c, n, d);
    ImproveKeepsRelaxed(q, l, relaxed, c, n, d);
    ImproveKeepsOrdered(q, l, c, n, d);
    ImproveKeepsQueued(q, l, c, n, d);
  }

  lemma ImproveKeepsQueued(q: Query, l: Labels, c: PathStop, n: PathStop, d: nat)
    requires Queued(q, l) && c in l.tree && |l.tree[c]| > 0 && l.tree[c][0] == q.start
    requires IsPath(q.g, q.avoiding, l.tree[c] + [PathStopDist(n, d)])
    requires StationSimple(l.tree[c]) && Misses(l.tree[c], q.target)
    ensures Queued(q, Improve(l, c, n, d))
  {
    var p := l.tree[c] + [PathStopDist(n, d)];
    assert p[..|p| - 1] == l.tree[c] && IsRecord(q, p);
  }

  lemma ImproveKeepsOrdered(q: Query, l: Labels, c: PathStop, n: PathStop, d: nat)
    requires Ordered(q, l) && c in l.tree && n !in l.done && n in l.unseen
    requires q.start.dist <= l.level <= d && (n !in l.dist || d < l.dist[n])
    ensures Ordered(q, Improve(l, c, n, d))
  {
  }

  lemma {:induction false} NearestExists(queue: multiset<PathStopDist>, e: PathStopDist)
    requires e in queue
    ensures exists n :: n in queue && forall o :: o in queue ==> n.dist <= o.dist
    decreases e.dist
  {
    if nearer :| nearer in queue && nearer.dist < e.dist {
      NearestExists(queue, nearer);
    }
  }

  /** Taking a nearest entry off the queue; it may be a stale one, for a stop that is already done. */
  ghost function TakeTop(l: Labels, top: PathStopDist): Labels {
    l.(queue := l.queue - multiset{top},
       done := l.done + {top.stop},
       unseen := if top.stop in l.done then l.unseen else l.unseen - {top.stop},
       level := top.dist)
  }

  lemma TakeTopKeepsOrdered(q: Query, l: Labels, top: PathStopDist)
    requires Ordered(q, l)
    requires top in l.queue && forall o :: o in l.queue ==> top.dist <= o.dist
    ensures Ordered(q, TakeTop(l, top))
    ensures top.stop !in l.done ==> l.dist[top.stop] == top.dist
  {
    var m := TakeTop(l, top);
    assert forall e :: e in m.queue ==> e in l.queue;
    if top.stop !in l.done {
      assert PathStopDist(top.stop, l.dist[top.stop]) in l.queue;
    }
    forall s | s in m.dist && s !in m.done
      ensures PathStopDist(s, m.dist[s]) in m.queue
    {
      assert PathStopDist(s, l.dist[s]) in l.queue;
    }
  }

  /**
   * The stop `c`, taken at distance `d`, has had its first `i` edges looked at; `relaxed` are the
   * stops whose edges had all been looked at before. A stale `c` is one of those already.
   */
  ghost predicate Visiting(q: Query, l: Labels, relaxed: set<PathStop>, c: PathStop, d: nat, i: nat) {
    && ValidQuery(q) && Inv(q, l)
    && AllRelaxed(q, l.dist, relaxed)
    && l.done == relaxed + {c} && l.level == d
    && ValidStop(q.g, c) && c in l.dist && c.node != q.target
    && l.dist[c] <= d && (c !in relaxed ==> l.dist[c] == d)
    && (forall k :: 0 <= k < |l.tree[c]| - 1 ==> l.tree[c][k].stop in relaxed)
    && i <= |q.g[c.node].edges|
    && forall k :: 0 <= k < i ==> RelaxedVia(q, l.dist, c, k)
  }

  lemma TakeTopKeepsChained(q: Query, l: Labels, top: PathStopDist)
    requires Chained(q, l)
    ensures Chained(q, TakeTop(l, top))
  {
    var m := TakeTop(l, top);
    forall s | s in m.prev
      ensures HasParent(q, m, s)
    {
      assert HasParent(q, l, s);
    }
  }

  lemma TakeTopKeepsFinished(l: Labels, top: PathStopDist)
    requires Finished(l) && top.stop in l.dist
    ensures Finished(TakeTop(l, top))
  {
  }

  lemma TakeTopKeepsInv(q: Query, l: Labels, top: PathStopDist)
    requires Inv(q, l)
    requires top in l.queue && forall o :: o in l.queue ==> top.dist <= o.dist
    ensures Inv(q, TakeTop(l, top))
    ensures top.stop in l.dist && (top.stop in l.done || top.stop in l.unseen)
    ensures l.dist[top.stop] <= top.dist && (top.stop !in l.done ==> l.dist[top.stop] == top.dist)
  {
    TakeTopKeepsOrdered(q, l, top);
    TakeTopKeepsChained(q, l, top);
    TakeTopKeepsFinished(l, top);
  }

  lemma TakeTopShrinks(l: Labels, top: PathStopDist)
    requires top in l.queue && (top.stop in l.done || top.stop in l.unseen)
    ensures |TakeTop(l, top).queue| < |l.queue|
    ensures TakeTop(l, top).unseen < l.unseen || (TakeTop(l, top).unseen == l.unseen && top.stop in l.done)
  {
  }

  lemma RecordedStopIsValid(q: Query, l: Labels, s: PathStop)
    requires Backed(q, l) && s in l.dist
    ensures ValidStop(q.g, s)
  {
    PathStops(q.g, q.avoiding, l.tree[s], 0, |l.tree[s]| - 1);
  }

  /** All stops before the last on a recorded path are done. */
  lemma EarlierStopsAreDone(l: Labels, s: PathStop)
    requires Finished(l) && s in l.tree
    ensures forall k :: 0 <= k < |l.tree[s]| - 1 ==> l.tree[s][k].stop in l.done
  {
  }

  /** The stop just taken is about to be visited, unless it is at station B. */
  lemma StartVisit(q: Query, l: Labels, top: PathStopDist)
    requires ValidQuery(q) && Inv(q, l) && AllRelaxed(q, l.dist, l.done)
    requires top in l.queue && forall o :: o in l.queue ==> top.dist <= o.dist
    ensures Inv(q, TakeTop(l, top)) && ValidStop(q.g, top.stop)
    ensures top.stop in l.done || top.stop in l.unseen
    ensures top.stop.node == q.target ==> AllRelaxed(q, l.dist, TakeTop(l, top).done)
    ensures top.stop.node != q.target ==> Visiting(q, TakeTop(l, top), l.done, top.stop, top.dist, 0)
  {
    TakeTopKeepsInv(q, l, top);
    RecordedStopIsValid(q, l, top.stop);
    EarlierStopsAreDone(l, top.stop);
  }

  lemma ImproveKeepsVisited(q: Query, l: Labels, c: PathStop, n: PathStop, nd: nat, i: nat)
    requires Closed(q.g) && c in l.dist && c in l.tree && ValidStop(q.g, c) && i < |q.g[c.node].edges|
    requires n == StopVia(q.g, c.node, i) && n != c
    requires nd == l.dist[c] + Leg(q.g, c, n) && (n !in l.dist || nd < l.dist[n])
    requires forall k :: 0 <= k < i ==> RelaxedVia(q, l.dist, c, k)
    ensures forall k :: 0 <= k < i + 1 ==> RelaxedVia(q, Improve(l, c, n, nd).dist, c, k)
  {
    forall k | 0 <= k < i + 1
      ensures RelaxedVia(q, Improve(l, c, n, nd).dist, c, k)
    {
      if k < i {
        assert RelaxedVia(q, l.dist, c, k);
      }
    }
  }

  lemma VisitImproves(q: Query, l: Labels, relaxed: set<PathStop>, c: PathStop, d: nat, i: nat, n: PathStop, nd: nat)
    requires q.start.stop.node != q.target
    requires Visiting(q, l, relaxed, c, d, i) && i < |q.g[c.node].edges|
    requires n == StopVia(q.g, c.node, i) && n !in q.avoiding && Step(q.g, c, n)
    requires nd == d + Leg(q.g, c, n) && (n !in l.dist || nd < l.dist[n])
    ensures c !in relaxed && Visiting(q, Improve(l, c, n, nd), relaxed, c, d, i + 1)
  {
    if c in relaxed {
      EarlierExitIsRelaxed(q, l, relaxed, PathStopDist(c, l.dist[c]), n);
      assert false;
    }
    ImproveKeepsInv(q, l, relaxed, c, n, nd);
    ImproveKeepsVisited(q, l, c, n, nd, i);
  }

  lemma VisitSkips(q: Query, l: Labels, relaxed: set<PathStop>, c: PathStop, d: nat, i: nat)
    requires Visiting(q, l, relaxed, c, d, i) && i < |q.g[c.node].edges|
    requires var n := StopVia(q.g, c.node, i);
             n in q.avoiding || (Step(q.g, c, n) && n in l.dist && l.dist[n] <= d + Leg(q.g, c, n))
    ensures Visiting(q, l, relaxed, c, d, i + 1)
  {
    if c in relaxed {
      assert Relaxed(q, l.dist, c);
    }
    assert RelaxedVia(q, l.dist, c, i);
  }

  lemma VisitDone(q: Query, l: Labels, relaxed: set<PathStop>, c: PathStop, d: nat)
    requires Closed(q.g) && ValidStop(q.g, c) && Visiting(q, l, relaxed, c, d, |q.g[c.node].edges|)
    ensures AllRelaxed(q, l.dist, l.done)
  {
  }

  /** Looks at the stops one edge away from `currStop`, recording the improvements. */
  method VisitNeighbors(q: Query, currStop: PathStop, currentDistFromA: nat,
                        dist: map<PathStop, nat>, prev: map<PathStop, PathStop>, queue: multiset<PathStopDist>,
                        ghost before: Labels, ghost relaxed: set<PathStop>)
    returns (distFromA: map<PathStop, nat>, previousStop: map<PathStop, PathStop>,
             nodesToVisit: multiset<PathStopDist>, ghost l: Labels)
    requires q.start.stop.node != q.target
    requires Visiting(q, before, relaxed, currStop, currentDistFromA, 0)
    requires before.dist == dist && before.prev == prev && before.queue == queue
    ensures l.dist == distFromA && l.prev == previousStop && l.queue == nodesToVisit
    ensures l.done == before.done && l.unseen == before.unseen && Inv(q, l) && AllRelaxed(q, l.dist, l.done)
    ensures currStop in relaxed ==> nodesToVisit == queue
  {
    distFromA, previousStop, nodesToVisit, l := dist, prev, queue, before;
    var edges := q.g[currStop.node].edges;
    for i := 0 to |edges|
      invariant l.dist == distFromA && l.prev == previousStop && l.queue == nodesToVisit
      invariant Visiting(q, l, relaxed, currStop, currentDistFromA, i)
      invariant l.unseen == before.unseen && (currStop in relaxed ==> nodesToVisit == queue)
    {
      var neighbor := StopVia(q.g, currStop.node, i);
      if neighbor in q.avoiding {
        VisitSkips(q, l, relaxed, currStop, currentDistFromA, i);
        continue;
      }
      var neighborDistFromA := currentDistFromA + Leg(q.g, currStop, neighbor);
      if neighbor !in distFromA || neighborDistFromA < distFromA[neighbor] {
        VisitImproves(q, l, relaxed, currStop, currentDistFromA, i, neighbor, neighborDistFromA);
        l := Improve(l, currStop, neighbor, neighborDistFromA);
        distFromA := distFromA[neighbor := neighborDistFromA];
        previousStop := previousStop[neighbor := currStop];
        nodesToVisit := nodesToVisit + multiset{PathStopDist(neighbor, neighborDistFromA)};
      } else {
        VisitSkips(q, l, relaxed, currStop, currentDistFromA, i);
      }
    }
    VisitDone(q, l, relaxed, currStop, currentDistFromA);
  }

  /** Takes a nearest entry off the queue and, unless it is station B, looks at its neighbors. */
  method VisitNearest(q: Query, dist: map<PathStop, nat>, prev: map<PathStop, PathStop>,
                      queue: multiset<PathStopDist>, ghost before: Labels)
    returns (distFromA: map<PathStop, nat>, previousStop: map<PathStop, PathStop>,
             nodesToVisit: multiset<PathStopDist>, ghost l: Labels)
    requires q.start.stop.node != q.target && queue != multiset{}
    requires ValidQuery(q) && Inv(q, before) && AllRelaxed(q, before.dist, before.done)
    requires before.dist == dist && before.prev == prev && before.queue == queue
    ensures l.dist == distFromA && l.prev == previousStop && l.queue == nodesToVisit
    ensures Inv(q, l) && AllRelaxed(q, l.dist, l.done)
    ensures l.unseen < before.unseen || (l.unseen == before.unseen && |nodesToVisit| < |queue|)
  {
    ghost var any :| any in queue;
    NearestExists(queue, any);
    var top :| top in queue && forall o :: o in queue ==> top.dist <= o.dist;
    StartVisit(q, before, top);
    TakeTopShrinks(before, top);
    distFromA, previousStop, nodesToVisit, l := dist, prev, queue - multiset{top}, TakeTop(before, top);
    // Station B is not explored, but the rest of the queue still is.
    if top.stop.node != q.target {
      distFromA, previousStop, nodesToVisit, l :=
        VisitNeighbors(q, top.stop, top.dist, distFromA, previousStop, nodesToVisit, l, before.done);
    }
  }

  /** What a finished search knows. */
  ghost predicate Explored(q: Query, l: Labels) {
    ValidQuery(q) && Inv(q, l) && l.done == l.dist.Keys && AllRelaxed(q, l.dist, l.done)
  }

  /** The records before the first stop is taken. */
  ghost function Initial(q: Query): Labels {
    Labels(map[q.start.stop := q.start.dist], map[], multiset{q.start}, map[q.start.stop := [q.start]], {},
           Universe(q), q.start.dist)
  }

  lemma InitialInv(q: Query)
    requires ValidQuery(q)
    ensures Inv(q, Initial(q)) && AllRelaxed(q, Initial(q).dist, {})
  {
    assert IsRecord(q, [q.start]) && Last([q.start]) == q.start;
  }

  method Explore(q: Query)
    returns (distFromA: map<PathStop, nat>, previousStop: map<PathStop, PathStop>, ghost l: Labels)
    requires ValidQuery(q) && q.start.stop.node != q.target
    ensures Explored(q, l) && l.dist == distFromA && l.prev == previousStop
  {
    distFromA := map[q.start.stop := q.start.dist];
    previousStop := map[];
    var nodesToVisit := multiset{q.start};
    l := Initial(q);
    InitialInv(q);
    while nodesToVisit != multiset{}
      invariant l.dist == distFromA && l.prev == previousStop && l.queue == nodesToVisit
      invariant Inv(q, l) && AllRelaxed(q, l.dist, l.done)
      decreases l.unseen, |nodesToVisit|
    {
      distFromA, previousStop, nodesToVisit, l := VisitNearest(q, distFromA, previousStop, nodesToVisit, l);
    }
  }

  /** Where all recorded stops are relaxed, the end of any path is recorded, unless it runs on past station B. */
  lemma {:induction false} RelaxedPathsAreRecorded(q: Query, dist: map<PathStop, nat>, p: Path)
    requires Closed(q.g) && AllRelaxed(q, dist, dist.Keys)
    requires q.start.stop in dist && dist[q.start.stop] <= q.start.dist
    requires IsPath(q.g, q.avoiding, p) && p[0] == q.start && Misses(p[..|p| - 1], q.target)
    ensures Last(p).stop in dist && dist[Last(p).stop] <= Last(p).dist
    decreases |p|
  {
    if |p| > 1 {
      var rest := p[..|p| - 1];
      PrefixIsPath(q.g, q.avoiding, p, |p| - 1);
      RelaxedPathsAreRecorded(q, dist, rest);
      var c, n := Last(rest).stop, Last(p).stop;
      assert LinkAt(q.g, q.avoiding, p, |p| - 1);
      assert rest[|rest| - 1].stop.node != q.target;
      assert Relaxed(q, dist, c);
      assert RelaxedVia(q, dist, c, n.edge.value.idx);
    }
  }

  /** A finished search has recorded the end of any path, unless it runs on past station B. */
  lemma PathsAreRecorded(q: Query, l: Labels, p: Path)
    requires Explored(q, l)
    requires IsPath(q.g, q.avoiding, p) && p[0] == q.start && Misses(p[..|p| - 1], q.target)
    ensures Last(p).stop in l.dist && l.dist[Last(p).stop] <= Last(p).dist
  {
    assert q.start == Last(l.tree[q.start.stop]);
    RelaxedPathsAreRecorded(q, l.dist, p);
  }

  /** The part of a path up to where it meets a station first. */
  lemma FirstArrival(g: Graph, avoiding: set<PathStop>, p: Path, station: Id) returns (arrival: Path)
    requires IsPath(g, avoiding, p) && Last(p).stop.node == station
    ensures IsPath(g, avoiding, arrival) && arrival[0] == p[0]
    ensures Last(arrival).stop.node == station && Misses(arrival[..|arrival| - 1], station)
    ensures Last(arrival).dist <= Last(p).dist
  {
    var k := 0;
    while p[k].stop.node != station
      invariant 0 <= k < |p|
      invariant Misses(p[..k], station)
      decreases |p| - k
    {
      k := k + 1;
    }
    arrival := p[..k + 1];
    PrefixIsPath(g, avoiding, p, k + 1);
    assert arrival[..|arrival| - 1] == p[..k];
    PathStops(g, avoiding, p, k, |p| - 1);
  }

  /** Every path to station B is at least as long as the distance recorded for some stop there. */
  lemma RoutesAreRecorded(q: Query, l: Labels, p: Path) returns (s: PathStop)
    requires Explored(q, l)
    requires IsRouteTo(q.g, q.start, q.target, q.avoiding, p)
    ensures s in l.dist && s.node == q.target && l.dist[s] <= Last(p).dist
  {
    var arrival := FirstArrival(q.g, q.avoiding, p, q.target);
    PathsAreRecorded(q, l, arrival);
    s := Last(arrival).stop;
  }

  lemma RecordedRouteIsSimple(q: Query, l: Labels, s: PathStop)
    requires Explored(q, l) && s in l.dist && s.node == q.target && q.start.stop.node != q.target
    ensures StationSimple(l.tree[s])
    ensures IsRouteTo(q.g, q.start, q.target, q.avoiding, l.tree[s])
  {
    assert HasParent(q, l, s);
    var rest := l.tree[l.prev[s]];
    assert l.tree[s] == rest + [PathStopDist(s, l.dist[s])];
    forall i, j | 0 <= i < j < |l.tree[s]|
      ensures l.tree[s][i].stop.node != l.tree[s][j].stop.node
    {
      assert rest[i].stop.node != q.target;
      if j < |rest| {
        assert rest[i].stop.node != rest[j].stop.node;
      }
    }
  }

  /** A stop at station B with the least recorded distance, if there is any. */
  method FastestStopAt(distFromA: map<PathStop, nat>, stationB: Id) returns (best: Option<PathStop>)
    ensures best.None? ==> forall s :: s in distFromA ==> s.node != stationB
    ensures best.Some? ==> best.value in distFromA && best.value.node == stationB
    ensures best.Some? ==>
      forall s :: s in distFromA && s.node == stationB ==> distFromA[best.value] <= distFromA[s]
  {
    best := None;
    var rest := distFromA.Keys;
    while rest != {}
      invariant rest <= distFromA.Keys
      invariant best.None? ==> forall s :: s in distFromA && s !in rest ==> s.node != stationB
      invariant best.Some? ==> best.value in distFromA && best.value.node == stationB
      invariant best.Some? ==> forall s :: s in distFromA && s !in rest && s.node == stationB ==>
        distFromA[best.value] <= distFromA[s]
      decreases rest
    {
      var s :| s in rest;
      rest := rest - {s};
      if s.node == stationB && (best.None? || distFromA[s] < distFromA[best.value]) {
        best := Some(s);
      }
    }
  }

  function Reversed(p: Path): (r: Path)
    ensures |r| == |p|
    ensures forall i :: 0 <= i < |p| ==> r[i] == p[|p| - 1 - i]
  {
    seq(|p|, i requires 0 <= i < |p| => p[|p| - 1 - i])
  }

  lemma ParentTree(q: Query, l: Labels, s: PathStop)
    requires Explored(q, l) && s in l.dist && s != q.start.stop
    ensures s in l.prev && l.prev[s] in l.dist
    ensures l.tree[s] == l.tree[l.prev[s]] + [PathStopDist(s, l.dist[s])]
    ensures Last(l.tree[l.prev[s]]) == PathStopDist(l.prev[s], l.dist[l.prev[s]])
  {
    assert HasParent(q, l, s);
  }

  /** The path recorded for `last` is the one for `stop`, continued by the stops walked back over so far. */
  ghost predicate WalkedBack(l: Labels, last: PathStop, stop: PathStop, path: Path) {
    && stop in l.dist && stop in l.tree && last in l.tree && |l.tree[stop]| > 0
    && Last(l.tree[stop]) == PathStopDist(stop, l.dist[stop])
    && l.tree[last] == l.tree[stop][..|l.tree[stop]| - 1] + Reversed(path)
  }

  lemma WalkStarts(l: Labels, last: PathStop)
    requires last in l.dist && last in l.tree && |l.tree[last]| > 0
    requires Last(l.tree[last]) == PathStopDist(last, l.dist[last])
    ensures WalkedBack(l, last, last, [PathStopDist(last, l.dist[last])])
  {
    assert Reversed([PathStopDist(last, l.dist[last])]) == [PathStopDist(last, l.dist[last])];
  }

  lemma StepBack(l: Labels, last: PathStop, stop: PathStop, path: Path, parent: PathStop)
    requires WalkedBack(l, last, stop, path)
    requires parent in l.dist && parent in l.tree && |l.tree[parent]| > 0
    requires l.tree[stop] == l.tree[parent] + [PathStopDist(stop, l.dist[stop])]
    requires Last(l.tree[parent]) == PathStopDist(parent, l.dist[parent])
    ensures WalkedBack(l, last, parent, path + [PathStopDist(parent, l.dist[parent])])
  {
    var step := PathStopDist(parent, l.dist[parent]);
    var rest := l.tree[parent];
    assert Reversed(path + [step]) == [step] + Reversed(path);
    assert l.tree[stop][..|l.tree[stop]| - 1] == rest == rest[..|rest| - 1] + [step];
  }

  /** Station A occurs once on the path, so walking back to it is walking back to the very first stop. */
  lemma WalkEndsAtStart(l: Labels, last: PathStop, stop: PathStop, path: Path)
    requires WalkedBack(l, last, stop, path) && path != []
    requires StationSimple(l.tree[last]) && stop.node == l.tree[last][0].stop.node
    requires path[|path| - 1].stop == stop
    ensures Reversed(path) == l.tree[last]
  {
    assert l.tree[last][|l.tree[stop]| - 1] == Reversed(path)[0] == path[|path| - 1];
  }

  /** Follows the previous stops from B back to the first stop at station A. */
  method AssemblePath(q: Query, distFromA: map<PathStop, nat>, previousStop: map<PathStop, PathStop>,
                      last: PathStop, ghost l: Labels)
    returns (path: Path)
    requires Explored(q, l) && l.dist == distFromA && l.prev == previousStop
    requires q.start.stop.node != q.target
    requires last in distFromA && last.node == q.target
    ensures path == l.tree[last]
  {
    RecordedRouteIsSimple(q, l, last);
    var stop := last;
    path := [PathStopDist(stop, distFromA[stop])];
    WalkStarts(l, last);
    while stop.node != q.start.stop.node
      invariant stop in l.dist && WalkedBack(l, last, stop, path)
      invariant path != [] && path[|path| - 1].stop == stop
      decreases |l.tree[stop]|
    {
      ParentTree(q, l, stop);
      StepBack(l, last, stop, path, previousStop[stop]);
      stop := previousStop[stop];
      path := path + [PathStopDist(stop, distFromA[stop])];
    }
    WalkEndsAtStart(l, last, stop, path);
    path := Reversed(path);
  }

  /**
   * What the search promises: an empty path exactly when no route exists, otherwise a route that meets
   * no station twice and is as fast as any.
   */
  ghost predicate IsFastest(g: Graph, start: PathStopDist, target: Id, avoiding: set<PathStop>, path: Path) {
    if path == [] then
      forall p :: !IsRouteTo(g, start, target, avoiding, p)
    else
      && IsRouteTo(g, start, target, avoiding, path)
      && StationSimple(path)
      && forall p :: IsRouteTo(g, start, target, avoiding, p) ==> Last(path).dist <= Last(p).dist
  }

  method GetFastestTravelRoute(g: Graph, stopA: PathStopDist, stationB: Id, excludedStops: set<PathStop>)
    returns (path: Path)
    requires Closed(g) && ValidStop(g, stopA.stop)
    ensures stopA.stop.node == stationB ==> path == [PathStopDist(PathStop(stationB, None), 0)]
    ensures stopA.stop.node != stationB ==> IsFastest(g, stopA, stationB, excludedStops, path)
  {
    if stopA.stop.node == stationB {
      return [PathStopDist(PathStop(stationB, None), 0)];
    }
    var q := Query(g, stopA, stationB, excludedStops);
    var distFromA, previousStop, l := Explore(q);
    var best := FastestStopAt(distFromA, stationB);
    if best.None? {
      forall p | IsRouteTo(g, stopA, stationB, excludedStops, p)
        ensures false
      {
        var s := RoutesAreRecorded(q, l, p);
      }
      return [];
    }
    path := AssemblePath(q, distFromA, previousStop, best.value, l);
    RecordedRouteIsSimple(q, l, best.value);
    forall p | IsRouteTo(g, stopA, stationB, excludedStops, p)
      ensures Last(path).dist <= Last(p).dist
    {
      var s := RoutesAreRecorded(q, l, p);
    }
  }
}
