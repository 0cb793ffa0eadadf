/** Passenger counts at stations: single events and pre-seeded crowding. */
module PassengerCounts {
  import opened TransportGraph

  datatype EventType = In | Out

  datatype PassengerEvent = PassengerEvent(stationId: Id, kind: EventType)

  /** What a network can be told about its passengers. */
  datatype CountUpdate = Event(event: PassengerEvent) | Crowding(passengerCounts: map<Id, int>)

  /** The graph after `n` more passengers (or fewer, if negative) are counted at a station, if it is known. */
  function WithPassengers(g: Graph, station: Id, n: int): Graph {
    if station in g then g[station := g[station].(passengerCount := g[station].passengerCount + n)] else g
  }

  function Delta(kind: EventType): int {
    if kind.In? then 1 else -1
  }

  /** The graph after the counts of all known stations are increased by the given amounts. */
  function Seeded(g: Graph, passengerCounts: map<Id, int>): Graph {
    map x | x in g ::
      if x in passengerCounts then g[x].(passengerCount := g[x].passengerCount + passengerCounts[x]) else g[x]
  }

  function Updated(g: Graph, u: CountUpdate): Graph {
    match u
    case Event(e) => WithPassengers(g, e.stationId, Delta(e.kind))
    case Crowding(counts) => Seeded(g, counts)
  }

  /** The graph after a run of updates. */
  function AfterRun(g: Graph, run: seq<CountUpdate>): Graph {
    if run == [] then g else Updated(AfterRun(g, run[..|run| - 1]), run[|run| - 1])
  }

  /** What a run says about station `x`: its Ins minus its Outs plus all crowding amounts given for it. */
  function NetPassengers(run: seq<CountUpdate>, x: Id): int {
    if run == [] then 0
    else
      NetPassengers(run[..|run| - 1], x) +
      match run[|run| - 1]
      case Event(e) => if e.stationId == x then (if e.kind.In? then 1 else -1) else 0
      case Crowding(counts) => if x in counts then counts[x] else 0
  }

  /** Conservation: after any run each known station has exactly what the run says about it; nothing else changes. */
  lemma {:induction false} CountsAreConserved(g: Graph, run: seq<CountUpdate>)
    ensures var h := AfterRun(g, run);
            && h.Keys == g.Keys
            && forall x :: x in g ==>
                 h[x] == g[x].(passengerCount := g[x].passengerCount + NetPassengers(run, x))
  {
    if run != [] {
      CountsAreConserved(g, run[..|run| - 1]);
    }
  }

  /** Seeding gives a known station the desired count exactly if nothing was counted there before. */
  lemma SeedsFromZero(g: Graph, passengerCounts: map<Id, int>, x: Id)
    requires x in g && x in passengerCounts
    ensures Seeded(g, passengerCounts)[x].passengerCount == passengerCounts[x] <==> g[x].passengerCount == 0
  {
  }

  lemma SeedOneMore(g: Graph, passengerCounts: map<Id, int>, rest: set<Id>, station: Id)
    requires station in rest && station in passengerCounts
    ensures Seeded(g, passengerCounts - (rest - {station})) ==
            WithPassengers(Seeded(g, passengerCounts - rest), station, passengerCounts[station])
  {
  }

  lemma PassengersAdd(g: Graph, station: Id, m: int, n: int)
    ensures WithPassengers(WithPassengers(g, station, m), station, n) == WithPassengers(g, station, m + n)
  {
  }
}
