# A verified model of the network monitor's core

This project models, in Dafny, the three parts of the network monitor in which most of its logic lives, and
proves what they promise.

**Routes through the transport network** (`src/transport-network.cpp`). Stations and lines form a graph with one
edge for each route leaving a station. Three searches build on each other: the fastest route, a search over
*stops* (a station and the edge used to reach it) that charges five minutes per change of route; an enumeration
of alternatives, in the style of Yen's algorithm, that accepts paths within a maximum slowdown; and the choice of
the most quiet of those. The model follows the code loop by loop. The proofs show that a fastest route is found
exactly when there is one, that it is optimal and never meets a station twice even where travel times are 0, that
walking back over the previous stops ends exactly at the preset first stop, and that every search ends. They
carry on to every round of the enumeration, to the quiet choice, and to laws over several searches. The network
itself is a class whose methods keep the graph in agreement with the routes that were added to it.

**STOMP frames** (`src/stomp-frame.cpp`). The parser moves a cursor over the text, the printer appends to it. The
parser is proved to accept exactly the frames of an independent grammar and to tell what they say, and to report
each error exactly for the texts that have it. Printing and
parsing are inverse for exactly the components that a predicate describes, whatever the order of the headers. The
standard is the STOMP Protocol Specification, Version 1.2, sections "STOMP Frames" and "Repeated Header Entries".

**STOMP server and client** (`include/stomp-server.h`, `include/stomp-client.h`). The handlers are methods of two
classes, each proved against one step of a state machine. Over all runs of the server's machine its two maps stay
inverse, and the calls posted for any connection are nothing, or a connect, then messages, then at most one
disconnect. Over all runs of the client's machine subscribers are given exactly the messages meant for them.
Together with the frame results this shows that messages arrive as they were sent, and that three
branches which the code marks as unexpected cannot be reached: an unrecognized WebSocket connection in `Send` and
in `Close`, and a CONNECTED frame that is not valid.

## Layout

| file | content |
|---|---|
| `TransportGraph.dfy` | the graph, paths, and the cost of a leg |
| `FastestSearch.dfy` | the fastest route between two stations |
| `AlternativeRoutes.dfy`, `EnumerationLimits.dfy`, `QuietLimits.dfy` | the list of alternatives; how far it and the quiet choice can be relied on |
| `TravelPlans.dfy` | plans for the user, crowding, the quiet choice |
| `LineNetwork.dfy` | agreement of graph and routes |
| `TravelTimes.dfy`, `LateRoutes.dfy` | travel times between neighbors and along routes; routes added after times were set |
| `PassengerCounts.dfy` | passenger counts over runs of updates |
| `RouteLaws.dfy` | laws over several searches |
| `TransportNetwork.dfy`, `NetworkLaws.dfy` | the network as an object; laws over several queries to it |
| `StompText.dfy`, `StompSyntax.dfy`, `StompFaults.dfy` | names and numbers; the grammar and the parser as a function; which text has which error |
| `StompFrames.dfy` | frames as objects: parsing, validating, printing |
| `ServerModel.dfy`, `ClientModel.dfy` | the state machines of server and client, and their runs |
| `StompServers.dfy`, `StompClients.dfy` | server and client as objects |
| `EndToEnd.dfy` | messages from one end of the wire to the other |

`dafny verify dfyconfig.toml` checks everything.

## Reading the model

- A station is its identifier. An edge is a position in its station's list, which only ever grows; a route is the
  number (`handle`) of the object made for it. The maps and lists that the code changes through shared pointers
  are fields of the classes.
- Where the code takes the first of several equally good entries of a priority queue, or goes through a hash
  map, the model makes an arbitrary choice: what is proved holds for every order.
- `ghost` results and parameters (`k`, `n`, `order`, `served`, `paths`, `l`) name what a method found; they are
  not part of what it computes.
- A route has at least two stops and none twice (`WellFormedStops`), as `include/transport-network.h:45-54`
  demands of callers. The other conditions given there are checked by the code, or not used by it.
- Travel times and distances are natural numbers. `RecordedDistancesAreBounded` and `ComputedDistancesAreBounded`
  bound every distance that a search records, queues or computes by one tour of the network. So unsigned
  arithmetic is exact in the search for every network where that bound fits.
- Crowding is computed modulo 2^32, as in the code. Percentages are reals, with the conversion to `unsigned int`
  as rounding down. A slowdown below -1 and a quietness above 1 are excluded: the conversion of a negative number
  is undefined.
- `junk` is the value of the variable that validation leaves uninitialised when a content length exceeds 64 bits
  (`src/stomp-frame.cpp:517-524`). The results hold for every value of it.
- Reading past the end of a text raises an exception (`src/stomp-frame.cpp:393`). This is the outcome `Threw` of the
  grammar and `Exception` of the methods; a handler that it leaves has changed nothing.
- A `char` stands for an octet. New identifiers (`newId`, `id`) are parameters that make valid header values.
- A message of 2^64 octets or more is excluded: its length would not be a `size_t`.

## Model

| member | source | states |
|---|---|---|
| TransportGraph.PathStops | src/transport-network.cpp:808-828 | along any legal path every stop is real, and times never decrease |
| TransportGraph.ChangeIsPaid | src/transport-network.cpp:821-828 | being on another route later on a path has cost at least one penalty, wherever the change was |
| TransportGraph.LoopIsNotCheaper | src/transport-network.cpp:815-849 | leaving a station on the first visit is never dearer than looping back to it and leaving then, for all travel times, 0 included |
| FastestSearch.ImprovingPathIsSimple | src/transport-network.cpp:830-849 | a strict improvement is only ever made from a stop whose recorded path meets no station twice and not station B |
| FastestSearch.ImproveKeepsInv | src/transport-network.cpp:832-848 | recording an improvement keeps distances backed by paths, previous stops acyclic and the queue in step; done stops are never improved |
| FastestSearch.TakeTopKeepsInv | src/transport-network.cpp:800-804 | taking the nearest entry, stale or not, keeps the invariant; a stop not done before has its recorded distance |
| FastestSearch.StartVisit | src/transport-network.cpp:800-811 | a stop taken off the queue can be visited with all earlier stops of its path done, or lies at station B |
| FastestSearch.VisitImproves | src/transport-network.cpp:830-849 | an edge that improves on the records belongs to a stop visited for the first time, and keeps the invariant |
| FastestSearch.VisitNeighbors | src/transport-network.cpp:813-850 | after the loop over the edges, no edge out of a done stop offers an improvement; a stale entry changes nothing |
| FastestSearch.VisitNearest | src/transport-network.cpp:799-851 | one round keeps the invariant and makes the measure (stops not seen, queue length) smaller |
| FastestSearch.Explore | src/transport-network.cpp:785-851 | the search ends on every finite network, with all recorded stops done and relaxed |
| FastestSearch.PathsAreRecorded | src/transport-network.cpp:798-851 | after the search, the end of every path that does not run past B is recorded, at no greater distance |
| FastestSearch.RoutesAreRecorded | src/transport-network.cpp:806-811 | every path to B, even one through B, is at least as long as some distance recorded for B |
| FastestSearch.RecordedRouteIsSimple | src/transport-network.cpp:830-849 | the path recorded for a stop at B is a route from the preset first stop that meets no station twice |
| FastestSearch.FastestStopAt | src/transport-network.cpp:853-868 | nothing exactly if no stop at B is recorded, else one with the least distance |
| FastestSearch.AssemblePath | src/transport-network.cpp:870-882 | walking back never misses a stop and yields exactly the recorded path, ending at the preset first stop and not at another stop of A |
| FastestSearch.GetFastestTravelRoute | src/transport-network.cpp:769-883 | empty exactly if no walk avoids the excluded stops, else a route of least time among all walks, with exact cumulative times, that meets no station twice |
| AlternativeRoutes.RemovedStops | src/transport-network.cpp:925-936 | the removed stops are the next ones of exactly the accepted paths that share the root |
| AlternativeRoutes.CandidateIsNewTrip | src/transport-network.cpp:938-955 | root plus spur is a legal trip that meets B only at its end, avoids the removed stops, and differs from every accepted path |
| AlternativeRoutes.DeviationGivesSpur | src/transport-network.cpp:938-944 | every trip that leaves the last path at a position, avoiding the removed stops, is a way on for the spur search |
| AlternativeRoutes.DeviationIsNew | src/transport-network.cpp:925-936 | a trip that avoids the removed stops is none of the accepted paths, and leaves the last one before its end |
| AlternativeRoutes.SpurCandidate | src/transport-network.cpp:920-956 | the candidate is new, a quickest of all trips that leave the last path there and avoid the removed stops, and repeats no station from there on; none is found only if there is none |
| AlternativeRoutes.SelectNext | src/transport-network.cpp:958-981 | the selected path is new, within the time, and the quickest new candidate; nothing is selected only if all new candidates are too slow |
| AlternativeRoutes.CommonPrefix | src/transport-network.cpp:930-933 | two paths agree on exactly that many stops from the start |
| AlternativeRoutes.RivalDeviates | src/transport-network.cpp:925-936 | any other simple trip leaves the fastest one before its end and is not barred by the removed stops |
| AlternativeRoutes.AddCandidates | src/transport-network.cpp:918-956 | in every round, wherever a trip leaves an accepted path in view of the paths then accepted, a quickest such trip is waiting or was accepted; and nothing else is waiting |
| AlternativeRoutes.NextIsBest | src/transport-network.cpp:958-981 | taking the quickest waiting candidate that is new is taking the best of all that any round so far has found |
| AlternativeRoutes.QuickerIsServedBefore | src/transport-network.cpp:958-981 | before a slower path is accepted, a candidate at least as quick was accepted wherever a quicker trip leaves one of the paths before |
| AlternativeRoutes.TooSlowMeansExhausted | src/transport-network.cpp:964-983 | when the list ends early, a candidate was accepted wherever a quick enough trip leaves an accepted path |
| AlternativeRoutes.MaxTravelTimeIsExact | src/transport-network.cpp:914-916 | a time is within the maximum in whole minutes exactly if it is at most the fastest time stretched by the slowdown, as a real number |
| AlternativeRoutes.EnumerationKeepsSlowdown | src/transport-network.cpp:914-983 | all later paths keep within that real bound, and an early end means that a candidate was accepted wherever a trip within it leaves an accepted path |
| AlternativeRoutes.GetFastestTravelRoutes | src/transport-network.cpp:885-985 | empty exactly if there is no route; else at most max(1, maxNPaths) pairwise distinct trips, the first a fastest, the others at most slower by the slowdown, compared as real numbers; each is a quickest way to leave one of the paths before it, and none of the other candidates that were not accepted before is quicker; the list ends early only when all that are left are too slow |
| AlternativeRoutes.NextPathIsBest | src/transport-network.cpp:918-981 | in every round, no trip that leaves the last path, avoiding the removed stops, is quicker than the path accepted next; when the list ends early, all of them are too slow |
| AlternativeRoutes.TripsAreBarredOrMatched | src/transport-network.cpp:925-981 | a quick enough trip can be missed only if, wherever it leaves an accepted path, it uses a removed stop or a candidate as quick that leaves there was accepted |
| AlternativeRoutes.EnumerationHasSecondBest | src/transport-network.cpp:885-985 | with room for two paths, the second is the best of all other trips that meet no station twice, and is missing only if all are too slow |
| EnumerationLimits.BestUpToTwo | src/transport-network.cpp:907-913 | in every network, a list with room for at most two paths is the best one among trips that meet no station twice, in order of time |
| EnumerationLimits.NotBestBeyondTwo | src/transport-network.cpp:910-981 | for every larger number there is a network in which no list is the best one: it lacks a quicker trip than its third, or lists that trip after a slower one |
| EnumerationLimits.SearchDetour | src/transport-network.cpp:885-985 | searching that network gives such a list |
| EnumerationLimits.ChangeBackIsMissed | src/transport-network.cpp:928-936 | with two lines side by side, one of the two ways to change between them is missed for any number of paths and any slowdown |
| EnumerationLimits.SearchTwoLines | src/transport-network.cpp:885-985 | searching that network gives such a list |
| EnumerationLimits.TwoLinesAgree | src/transport-network.cpp:723-767 | this network is what adding its two routes gives |
| EnumerationLimits.DetourAgrees | src/transport-network.cpp:723-767 | the one with the detour is what adding its four routes gives |
| QuietLimits.WaysBySAndYAreMissed | src/transport-network.cpp:918-956 | in a network of seven routes, no way through two certain stations is ever listed, for any number of paths and any slowdown |
| QuietLimits.QuietWayIsMissed | src/transport-network.cpp:925-956 | one of these ways, which meets no crowded station, is a trip that meets no station twice |
| QuietLimits.AllListedAreCrowded | src/transport-network.cpp:583-607 | with a slowdown that lets it pass, all listed paths are crowded |
| QuietLimits.SearchQuietWay | src/transport-network.cpp:532-607 | so without a limit on the number of paths, and with no negative counts, the quiet choice is crowded although an empty way is quick enough |
| QuietLimits.LegsAreEdges | src/transport-network.cpp:753-761 | each leg of the seven routes has exactly one edge in that network |
| QuietLimits.EdgesAreLegs | src/transport-network.cpp:753-761 | each of its edges is a leg of its route |
| TravelPlans.AssembleSteps | src/transport-network.cpp:517-528 | each step goes from one stop of the path to the next, with line, route and time of the edge between; the first starts where the path does, each starts where the one before ends, and the last ends where the path does |
| TravelPlans.TotalIsRidingPlusChanges | src/transport-network.cpp:508-529 | the total time of a plan is at least the time of its steps plus five minutes for each change between contiguous steps, and exactly that if and only if no change of route is hidden by the same line and route identifier |
| TravelPlans.GetPathCrowding | src/transport-network.cpp:987-996 | the signed sum of the counts modulo 2^32, hence the true sum whenever that is in range |
| TravelPlans.PassengersAddUp | src/transport-network.cpp:987-996 | the count along two paths in a row is the sum of theirs, and that of a single stop is its station's |
| TravelPlans.MaxCrowdingIsExact | src/transport-network.cpp:593-595 | a crowding is within the bound in whole passengers exactly if it is at most that of the fastest path less the required quietness, as a real number |
| TravelPlans.SelectMostQuiet | src/transport-network.cpp:583-607 | although the first path is overwritten, the result is the earliest of the least crowded paths that are quieter than the fastest by at least the required share, compared as real numbers, or the fastest if there is none |
| LineNetwork.HopIsLeg | src/transport-network.cpp:753-761 | every edge of a station comes from a leg of some route |
| LineNetwork.RouteHasOneEdge | src/transport-network.cpp:753-761 | where a route goes on from a station, the station has exactly one edge of it, leading to the next stop |
| LineNetwork.OtherStationsHaveNoEdge | src/transport-network.cpp:753-761 | a station where a route does not go on has no edge of it |
| LineNetwork.AgreeingGraphIsClosed | src/transport-network.cpp:733-743 | no edge leads to an unknown station |
| LineNetwork.WithRouteAgrees | src/transport-network.cpp:723-767 | adding a route keeps the graph in agreement with all routes added so far |
| LineNetwork.LeavingRoutes | src/transport-network.cpp:328-331 | the edges of a station belong to pairwise distinct routes, exactly those that go on from there |
| LineNetwork.RoutesLeaveEdges | src/transport-network.cpp:753-761 | adding routes always changes the graph |
| LineNetwork.RoutesKeepStations | src/transport-network.cpp:753-761 | adding routes only appends edges to a station, one for each leg from there; its name, its passengers and the edges it had stay |
| LineNetwork.LinkIsLeg | src/transport-network.cpp:753-761 | every link of a path goes along a leg of the route of its edge |
| TravelTimes.RetimeBothEdges | src/transport-network.cpp:367-378 | setting a time changes the edges between the two stations, both ways, and nothing else |
| TravelTimes.RetimeBothKeepsUniform | src/transport-network.cpp:367-378 | if all edges between two stations took the same time before a setting, they do after it |
| TravelTimes.UniformTimes | src/transport-network.cpp:395-409 | the time between two stations is symmetric and that of every edge between them |
| TravelTimes.TimeThereOrBack | src/transport-network.cpp:395-410 | with or without uniform times, the time between two stations is that of the first edge there, else of the first edge back, else 0 |
| TravelTimes.SettingsKeepStations | src/transport-network.cpp:353-381 | settings change nothing about a station but the times of its edges |
| TravelTimes.TimeJustSet | src/transport-network.cpp:353-410 | the time set for two stations joined by an edge is the time read back, in either direction |
| TravelTimes.OtherTimesStay | src/transport-network.cpp:353-410 | a setting leaves the time between every other pair of stations as it was |
| TravelTimes.RouteTimeIsAdditive | src/transport-network.cpp:433-456 | the time along a route adds up over its stops |
| TravelTimes.LegTimeIsTravelTime | src/transport-network.cpp:447-455 | each leg of a route takes the time between its two stations |
| TravelTimes.NoTimeToStay | src/transport-network.cpp:383-410 | the time from a station to itself is 0 |
| TravelTimes.TimesAfterSettings | src/transport-network.cpp:353-410 | over any run of settings the time between two joined stations is the last one set for them, either way round; other times stay |
| TravelTimes.TimesAreThoseSet | src/transport-network.cpp:198-205 | if all times were 0 before a run of settings, every time is the last one set for two joined stations, and 0 elsewhere |
| LateRoutes.RouteKeepsUniform | src/transport-network.cpp:396-398 | adding a route keeps all edges between two stations at the same time exactly if no time was set for any of its legs before |
| LateRoutes.RoutesKeepUniform | src/transport-network.cpp:248-253 | the same for a list of routes, as a line adds them |
| LateRoutes.LateLineIsUntimed | src/transport-network.cpp:396-398 | a line added after the times were set makes the time between its stations differ by direction |
| LateRoutes.OneWayAgrees | src/transport-network.cpp:723-767 | the network before that is what adding its route gives |
| RouteLaws.RideRoute | src/transport-network.cpp:412-460 | riding a route from one stop to a later one is a legal path that takes the route's own time |
| RouteLaws.FastestBeatsSingleRoute | src/transport-network.cpp:412-530 | the fastest route exists and is never slower than staying on one route that serves both stations in order |
| RouteLaws.JoinJourneys | src/transport-network.cpp:821-828 | two journeys can be joined at the cost of at most one penalty |
| RouteLaws.TriangleWithChange | src/transport-network.cpp:462-530 | T(A, C) <= T(A, B) + 5 + T(B, C) whenever both legs exist, and then A reaches C |
| NetworkLaws.PlanOrRide | src/transport-network.cpp:412-530 | the plan for two stops of a known route is never slower than the time along the route |
| NetworkLaws.PlanByWayOf | src/transport-network.cpp:462-530 | for three plans of one network, going by way of B and changing there is never quicker than the direct plan |
| NetworkLaws.ListAfterFailure | src/transport-network.cpp:248-253 | after a line failed part way, a station lists a route that belongs to no line |
| NetworkLaws.ChangeIsHidden | src/transport-network.cpp:498-529 | when the line is added later, every path over an old and a new leg hides a change |
| NetworkLaws.PlanAfterFailure | src/transport-network.cpp:462-530 | the plan for such a path takes longer than its steps tell |
| RouteLaws.SimplePathIsShort | src/transport-network.cpp:870-882 | a path that meets no station twice has at most as many stops as there are stations |
| RouteLaws.RecordedDistancesAreBounded | src/transport-network.cpp:784-787 | no distance ever recorded by a search exceeds the start plus one tour of the network |
| RouteLaws.ComputedDistancesAreBounded | src/transport-network.cpp:799-845 | neither does any queue entry, stale or not, nor any distance computed from one before it is compared |
| PassengerCounts.CountsAreConserved | src/transport-network.cpp:261-313 | after any run of events and crowding amounts each station's count has grown by Ins minus Outs plus all amounts given for it; unknown stations and everything else in the graph are not affected |
| PassengerCounts.SeedsFromZero | src/transport-network.cpp:297-313 | seeding gives the desired count exactly if nothing was counted before |
| TransportNetworks.RouteKeepsConsistent | src/transport-network.cpp:723-767 | adding a well-formed route through known stations keeps the network consistent |
| TransportNetworks.NewStationStaysConsistent | src/transport-network.cpp:210-229 | no route runs through a station before it is added, so adding it without edges keeps the network consistent |
| TransportNetworks.RegisteredRoutesAreIdentified | src/transport-network.cpp:248-256 | unless a line failed to be added part way, line and route identifiers tell the routes of edges apart |
| TransportNetworks.ServingMeansContaining | src/transport-network.cpp:326-348 | a known route contains a station exactly if it goes on from there or ends there, and never both |
| TransportNetworks.StepsRideLegs | src/transport-network.cpp:517-528 | every step of a plan rides a leg of a route with the line and route identifier it names |
| TransportNetworks.StepsTakeTheirTime | src/transport-network.cpp:517-528 | with uniform times, every step takes the time between its two stations |
| TransportNetworks.TransportNetwork.constructor | src/transport-network.cpp:134 | a new network is empty and consistent |
| TransportNetworks.TransportNetwork.AddStation | src/transport-network.cpp:210-229 | succeeds exactly for a new identifier, and then adds a station without edges and passengers |
| TransportNetworks.TransportNetwork.AddEdges | src/transport-network.cpp:753-761 | the loop over the stops adds one edge for each leg of the route |
| TransportNetworks.TransportNetwork.AddRouteToLine | src/transport-network.cpp:723-767 | succeeds exactly for a new identifier and known stops, and changes nothing otherwise |
| TransportNetworks.TransportNetwork.AddLine | src/transport-network.cpp:231-259 | succeeds exactly for a new identifier if every route can be added; on failure exactly the edges of the routes before the first bad one stay, so that failure changes nothing exactly if there are none; keeps times uniform exactly if no time was set for a leg of these routes |
| TransportNetworks.TransportNetwork.LoadStations | src/transport-network.cpp:160-170 | all stations are added exactly if their identifiers are new and distinct |
| TransportNetworks.TransportNetwork.LoadLines | src/transport-network.cpp:172-197 | all lines are added exactly if each can be; then the lines are those known before, unchanged, and the new ones with all their routes |
| TransportNetworks.TransportNetwork.LoadTimes | src/transport-network.cpp:199-205 | the result says whether every setting was for two joined stations; the others are ignored |
| TransportNetworks.TransportNetwork.FromLayout | src/transport-network.cpp:154-208 | loading is abandoned exactly if some station or line cannot be added; else just these lines are added, and an untimed network gets uniform times, each the last one set |
| TransportNetworks.TransportNetwork.SetTravelTime | src/transport-network.cpp:353-381 | reports whether any edge joins the stations, keeps times uniform, and leaves unknown stations alone |
| TransportNetworks.TransportNetwork.GetTravelTime | src/transport-network.cpp:383-410 | the time between the two stations, of which the lemmas on travel times speak; 0 for a station and itself |
| TransportNetworks.TransportNetwork.GetTravelTimeOnRoute | src/transport-network.cpp:412-460 | the time along the route if B comes at or after A on it, and 0 otherwise |
| TransportNetworks.TransportNetwork.WalkRoute | src/transport-network.cpp:432-459 | the walk adds up the legs from A to B and never meets the branch for a missing edge before B |
| TransportNetworks.TransportNetwork.RecordPassengerEvent | src/transport-network.cpp:261-282 | one passenger more or less at a known station, nothing for an unknown one |
| TransportNetworks.TransportNetwork.GetPassengerCount | src/transport-network.cpp:284-295 | the count, or nothing (an exception) for an unknown station |
| TransportNetworks.TransportNetwork.SetNetworkCrowding | src/transport-network.cpp:302-313 | the amounts come on top of the counts, at known stations only, in whatever order they are read |
| TransportNetworks.TransportNetwork.GetRoutesServingStation | src/transport-network.cpp:315-351 | lists each route that goes on from the station or is known and ends there, exactly once; these are the known routes that contain the station if and only if no route of a line that failed goes on from it |
| TransportNetworks.TransportNetwork.GetFastestTravelRoute | src/transport-network.cpp:462-530 | the plan of a fastest path; an empty plan exactly if there is no route or a station is unknown; its steps lead from A to B, ride legs of routes with the line and route they name, and take the time between their stations where that is uniform; the total is at least riding time plus changes, and exactly that if and only if all changes of route show in the steps |
| TransportNetworks.TransportNetwork.GetQuietTravelRoute | src/transport-network.cpp:532-632 | the plan of the quiet choice among the paths of the enumeration, with all that is known of it; slowdown and quietness are kept as real numbers; its steps and total as for the fastest route |
| StompText.CommandNames | src/stomp-frame.cpp:44-95 | names and commands determine each other, and no name contains a newline |
| StompText.HeaderNames | src/stomp-frame.cpp:99-154 | names and headers determine each other, and no name is empty or contains a colon or a newline |
| StompText.CommandWords | src/stomp-frame.cpp:44-62 | the words for the commands |
| StompText.HeaderWordsToHost | src/stomp-frame.cpp:99-121 | the words for the headers |
| StompText.HeaderWordsToPasscode | src/stomp-frame.cpp:99-121 | the words for the headers, continued |
| StompText.HeaderWordsToVersion | src/stomp-frame.cpp:99-121 | the words for the headers, continued |
| StompText.StoIReadsDigits | src/stomp-frame.cpp:32-40 | digits are read up to the first other character, a value beyond 64 bits is out of range, and without a digit there is no number |
| StompText.SizeRoundTrip | src/stomp-frame.cpp:32-40 | every 64-bit size written in decimal is read back |
| StompSyntax.ParseLines | src/stomp-frame.cpp:376-412 | any header lines are read up to the blank line, each header with the value of its first line |
| StompSyntax.FirstOfRepeatedCounts | src/stomp-frame.cpp:403-409 | adding lines one by one keeps exactly the headers of the lines, each with the value of the first line that has it |
| StompSyntax.HeadersAreRead | src/stomp-frame.cpp:374-418 | header text is accepted, with these headers, exactly if it is valid lines and a blank line, each header with the value of its first line |
| StompSyntax.ReadLinesHaveValues | src/stomp-frame.cpp:391-396 | lines with an empty value are always refused |
| StompSyntax.ParseWrittenBody | src/stomp-frame.cpp:421-458 | a body whose end can be told is read back, whatever its octets |
| StompSyntax.ParseWritten | src/stomp-frame.cpp:354-464 | every frame of the grammar is accepted |
| StompSyntax.HeadersAreLines | src/stomp-frame.cpp:374-412 | header text that is accepted consists of valid lines and a blank line |
| StompSyntax.ParsedIsFrame | src/stomp-frame.cpp:354-464 | whatever is accepted is a frame of the grammar |
| StompSyntax.ParserDecidesFrames | src/stomp-frame.cpp:354-464 | the parser accepts exactly the frames of the grammar, with what they say: of repeated headers the first line counts, and no text says two things |
| StompSyntax.RepeatedDestination | src/stomp-frame.cpp:403-409 | of two destinations in a text the first one counts |
| StompSyntax.NullInBody | src/stomp-frame.cpp:421-441 | with a content length the body may hold NULL octets, and newlines may follow the frame |
| StompFaults.ParserFindsFaults | src/stomp-frame.cpp:354-464 | each of the eleven errors that the parser reports is reported exactly for the texts whose first fault is of its kind |
| StompFaults.CommandFaults | src/stomp-frame.cpp:361-373 | a command line is refused exactly if it does not end, or names no command |
| StompFaults.HeadersFaults | src/stomp-frame.cpp:374-418 | headers are refused exactly where, after valid lines, the text ends, or a colon, a known name, a value or the end of a line is missing |
| StompFaults.BodyFaults | src/stomp-frame.cpp:420-457 | a body is refused exactly for a content length that is no number or too large, a missing NULL octet, or something other than newlines after it |
| StompSyntax.ParserThrowsAtColon | src/stomp-frame.cpp:390-396 | the parser reads past the end exactly on texts of a command line, valid header lines, and a header name with its colon |
| StompSyntax.BrokenOffTextThrows | src/stomp-frame.cpp:393 | such a text |
| StompSyntax.WrittenNeverThrows | src/stomp-frame.cpp:267-284 | a written frame never makes the parser read past its end |
| StompFrames.OrderDoesNotMatter | src/stomp-frame.cpp:270-275 | the lines of a header map, written in any order, are read back as the map |
| StompFrames.ParsedIsFaithful | src/stomp-frame.cpp:354-464 | what parses has non-empty values without newlines, and a body whose end can be told |
| StompFrames.PrintParse | src/stomp-frame.cpp:258-285 | components survive printing and parsing, in any order of headers, exactly if they are faithful |
| StompFrames.Reprint | src/stomp-frame.cpp:267-284 | reprinting what was parsed parses to the same |
| StompFrames.ValidationAfterParsing | src/stomp-frame.cpp:467-530 | after a successful parse only a missing header can be found wrong, unless a content length exceeds 64 bits |
| StompFrames.ValidationFindsFaults | src/stomp-frame.cpp:467-530 | each error of validation is reported exactly for its fault, the first of several; which header is needed is stated header by header |
| StompFrames.ContentLengthDecides | src/stomp-frame.cpp:421-457 | an accepted body is as long as the digits of its content length say, and empty if they exceed 64 bits |
| StompFrames.CheckTells | src/stomp-frame.cpp:345-352 | making a frame raises an exception on a text that breaks off, else reports its fault, else what validation finds |
| StompFrames.PrintCheck | src/stomp-frame.cpp:258-285 | printed components are valid and say the same exactly if they are printable |
| StompFrames.PrintedValuesAreNotEmpty | src/stomp-frame.cpp:394-396 | without newlines in the values, printed components parse at all only if no value is empty |
| StompFrames.PrintedLinesSay | src/stomp-frame.cpp:267-284 | if the printed lines read as other valid lines, the printed components say what those lines say |
| StompFrames.DestinationSplits | src/stomp-frame.cpp:267-284 | a destination with a newline is read as a destination and a further header |
| StompFrames.StompFrame.ParseHeaderName | src/stomp-frame.cpp:378-389 | the cursor reads a name as the grammar does |
| StompFrames.StompFrame.ParseHeaderValue | src/stomp-frame.cpp:390-401 | the cursor reads a value as the grammar does, and raises an exception at the end of the text |
| StompFrames.StompFrame.ParseHeaderLines | src/stomp-frame.cpp:374-412 | the loop over the header lines accepts exactly valid lines up to a blank line, and keeps the first value of each header |
| StompFrames.StompFrame.FindBodyEnd | src/stomp-frame.cpp:421-452 | the end of the body by content length or by NULL octet, or the right error |
| StompFrames.StompFrame.ParseFrame | src/stomp-frame.cpp:354-464 | what is kept is what the text says as a frame, the first of repeated headers included; each error and the exception come exactly for their texts, and then nothing is kept |
| StompFrames.StompFrame.ValidateFrame | src/stomp-frame.cpp:467-530 | the result of validation, including a variable left uninitialised |
| StompFrames.StompFrame.FromText | src/stomp-frame.cpp:240-256 | a frame made from a text says what the text says, and has its error |
| StompFrames.StompFrame.Print | src/stomp-frame.cpp:267-279 | the text is the components, with the headers in some order |
| StompFrames.StompFrame.FromComponents | src/stomp-frame.cpp:258-285 | components come back unchanged and valid exactly if they are printable, and never raise an exception |
| ServerModel.ConnectKeepsInverse | include/stomp-server.h:446-454 | a new connection keeps the two maps inverse exactly if neither its session nor its identifier is taken otherwise |
| ServerModel.StepKeepsInverse | include/stomp-server.h:373-593 | every event keeps the two maps inverse |
| ServerModel.PhasesAreConversations | include/stomp-server.h:518-713 | the phase of a connection describes the calls posted for it |
| ServerModel.StepKeepsPhase | include/stomp-server.h:427-713 | every event keeps each connection's phase in step with its status |
| ServerModel.InvariantHolds | include/stomp-server.h:373-713 | the invariant holds after every possible run |
| ServerModel.MapsStayInverse | include/stomp-server.h:413-425 | through every interleaving of connects, messages, disconnects, closes and stops the maps are each other's inverse |
| ServerModel.CallsAreConversations | include/stomp-server.h:518-713 | with all handlers set, the calls posted for a connection are nothing, or a connect, then messages, then at most one disconnect |
| ServerModel.StepPostsWithCause | include/stomp-server.h:518-713 | an event posts at most one call, and only one it is the reason for |
| ServerModel.CallsHaveCauses | include/stomp-server.h:595-713 | in every run a connect is posted only on a STOMP frame whose headers name version 1.2 and the server's host for a pending connection, and a message only on a SEND frame on an established one, with the values of its headers |
| ServerModel.CausesMakeCalls | include/stomp-server.h:595-713 | conversely every such event posts its call |
| ServerModel.WhoStays | include/stomp-server.h:427-713 | an event adds the connection it opens, drops just those it ends, establishes just the one it greets for, and changes no other |
| ServerModel.KnownWhileOpen | include/stomp-server.h:427-713 | through every possible run a connection is known exactly from the event that opens it to the first that ends it |
| ServerModel.GoneIsNotHeardOf | include/stomp-server.h:518-593 | once a connection is gone, no call for it is posted in any continuation of the run |
| ServerModel.ProtocolErrorsDrop | include/stomp-server.h:484-515 | a text that is no frame, a command that is not supported, and a second STOMP frame drop a connection, and nothing is posted |
| ServerModel.DroppedIsNotReported | include/stomp-server.h:572-593 | the user is never told that the server dropped a connection because of a message |
| ServerModel.ErrorIsNotReported | include/stomp-server.h:572-593 | a possible run in which the user hears of a connection, and never of its end |
| StompServers.ConnectedIsPrintable | include/stomp-server.h:635-652 | the CONNECTED frame is always valid, so its error branch is never taken |
| StompServers.SendIsPrintable | include/stomp-server.h:264-283 | a SEND frame survives the wire exactly if request and destination make valid values; the message is arbitrary |
| StompServers.SentHasDestination | include/stomp-server.h:279-283 | without newlines in its headers, a SEND frame that is valid has a request and a destination |
| StompServers.CrashMeansBrokenOff | include/stomp-server.h:482-493 | a message raises an exception exactly if it breaks off after the colon of a header |
| StompServers.StompServer.OnWsSessionConnect | include/stomp-server.h:427-455 | the step of the machine for a connect; a failed connection is closed and not kept |
| StompServers.StompServer.OnWsSessionMessage | include/stomp-server.h:457-516 | the step of the machine for a message, and what goes over the wire in answer |
| StompServers.StompServer.HandleStomp | include/stomp-server.h:595-666 | a STOMP frame whose headers name version 1.2 and the server's host establishes a pending connection, is answered by CONNECTED, and the user is told; any other drops the connection, posts nothing, and sends an ERROR frame before closing |
| StompServers.StompServer.HandleSend | include/stomp-server.h:668-713 | a SEND frame reaches the user on an established connection, and drops any other without a word |
| StompServers.StompServer.OnWsSessionDisconnect | include/stomp-server.h:518-548 | the step of the machine for a disconnect |
| StompServers.StompServer.CloseConnection | include/stomp-server.h:572-593 | both entries are dropped, and the session is closed after the ERROR frame, if any |
| StompServers.StompServer.MakeErrorFrame | include/stomp-server.h:715-736 | the ERROR frame is always valid |
| StompServers.StompServer.SendMessage | include/stomp-server.h:228-301 | the printed parts, a valid frame, go to the session of an established connection, under the request identifier returned; the frame says destination and message exactly if there is no newline in request or destination; nothing is sent otherwise; without newlines it fails exactly for an empty destination |
| StompServers.StompServer.Close | include/stomp-server.h:310-363 | a known connection is dropped and its session closed; the branch for an unrecognized WebSocket connection is never taken |
| StompServers.StompServer.Stop | include/stomp-server.h:373-382 | every session is closed exactly once after what was sent before, both maps are emptied, and no call is posted |
| StompClients.StompIsPrintable | include/stomp-client.h:381-406 | the greeting survives the wire exactly if server name and credentials make valid values |
| StompClients.SubscribeIsPrintable | include/stomp-client.h:217-235 | a subscription request survives the wire exactly if the destination makes a valid value |
| StompClients.StompClient.OnWsConnect | include/stomp-client.h:360-412 | the printed greeting is sent, a valid frame, which says server name and credentials exactly if they make valid values, or an error is posted, and never both |
| StompClients.StompClient.SendMessage | include/stomp-client.h:276-320 | the printed parts are sent, a valid frame, under the new request identifier, or nothing; the frame says destination and message exactly if there is no newline in the destination; without one it fails exactly for an empty destination |
| StompClients.StompClient.SubscribeTo | include/stomp-client.h:202-252 | the printed request is sent, a valid frame, or nothing; it says the destination exactly if there is no newline in it; without one it fails exactly for an empty destination |
| StompClients.StompClient.OnWsSendSubscribe | include/stomp-client.h:435-465 | the step of the client's machine that keeps a subscription once its request was sent, or reports the failure |
| StompClients.StompClient.OnWsMessage | include/stomp-client.h:467-522 | the step of the client's machine for a message, which posts at most one call |
| ClientModel.SubscriptionStays | include/stomp-client.h:435-447 | until the client is closed, a subscription that is kept stays and never changes |
| ClientModel.KeptMeansRequested | include/stomp-client.h:435-447 | over every run, a subscription is kept exactly if its request was sent under an identifier not in use and the client was not closed since |
| ClientModel.ClientPostsWithCause | include/stomp-client.h:360-691 | an event posts at most one call, and only one it is the reason for |
| ClientModel.ClientCausesMakeCalls | include/stomp-client.h:360-691 | conversely every such event posts its call |
| ClientModel.ClientCallsHaveCauses | include/stomp-client.h:360-691 | in every run each call has its cause |
| ClientModel.SubscribersGetTheirMessages | include/stomp-client.h:588-633 | in every run a subscriber is given a message only if a MESSAGE frame with this content came for the subscription, with the destination subscribed to, after the request was sent and before the client was closed |
| ClientModel.SubscribersMissNothing | include/stomp-client.h:588-633 | while a subscription is kept, every such frame is given to the subscriber, and one with another destination is reported as an error |
| ClientModel.LateErrorIsReported | include/stomp-client.h:475-494 | an unreadable message after the connection is reported to the handler for connecting |
| EndToEnd.DeliverToClient | include/stomp-server.h:228-301 | without newlines in the headers, a non-empty result of the server's `Send` means that the client's user is given the same destination and content, whatever its octets, and on an established connection it is empty exactly for an empty destination |
| EndToEnd.DeliverToServer | include/stomp-client.h:276-320 | without a newline in the destination, a non-empty result of the client's `Send` on an established connection means that the server's user is given the same destination and content, and the request identifier returned; it is empty exactly for an empty destination |
| EndToEnd.Exchange | include/stomp-client.h:287-319 | a request can be answered by echoing what the server's user was given, and the answer reaches the client under the identifier of the request |
| EndToEnd.ReceivedIsFaithful | include/stomp-server.h:482-493 | a text is handled as a frame exactly if it is one of the grammar with all headers it needs and, for a content length beyond 64 bits, the uninitialised variable is 0; it could be sent again as it is |
| EndToEnd.ConnectsNameTheHost | include/stomp-server.h:595-666 | in every run of messages read from texts, a connect is posted only after a valid STOMP frame with accept-version 1.2 and the server's host on the connection while it was pending |
| EndToEnd.GreetingDecides | include/stomp-server.h:603-666 | a STOMP frame that is read has both headers; it establishes a pending connection and tells the user if they are version 1.2 and the server's host, and drops the connection without a call otherwise |
| EndToEnd.RequestsCanBeEchoed | include/stomp-server.h:687-711 | request identifier and destination given to the user can be used in an answer without further checks |
| EndToEnd.Handshake | include/stomp-client.h:360-412 | a client that names the server's host greets it, the connection is established, and the answer tells the client so |

## Where documentation and code differ

- The alternatives are announced as all paths within a travel time (`include/transport-network.h:496-498`,
  `src/transport-network.cpp:910-913`). From the third path on the code may miss some, and may accept a quicker
  path after a slower one: the comparison of roots leaves out the spur stop (`src/transport-network.cpp:930-933`),
  and a removed stop is barred from the whole spur. `SearchTwoLines` and `SearchDetour` give a network for each.
  `TripsAreBarredOrMatched` says which trips can be missed, for all networks. A caller can rely on the list being
  the best one exactly if maxNPaths is at most 2: `BestUpToTwo` shows it for all networks, and
  `NotBestBeyondTwo` has a network that fails for every larger number.
- Paths beyond maxNPaths are said to be the only reason for a quiet route that is not the best
  (`include/transport-network.h:357-358`). As paths within the slowdown can be missed for any number of paths, this
  does not hold either, not even if no count is negative: `SearchQuietWay` has the network.
- The result of making a frame is said to be stored in the error code (`include/stomp-frame.h:122-137`). An exception
  is raised instead exactly if the text breaks off after the colon of a header (`ParserThrowsAtColon`), as in
  `BrokenOffTextThrows`. Making a frame from components never raises it (`WrittenNeverThrows`).
- The travel time between two stations is said to be the same in both directions and on all routes
  (`src/transport-network.cpp:396-398`). A line added after a time was set brings edges with time 0
  (`LateLineIsUntimed`). Adding a line keeps the claim true exactly if no time was set for any of its legs before
  (`RoutesKeepUniform`, and the contract of `AddLine`). `FromLayout` adds lines first, so there it holds.
- A line that cannot be added leaves edges in the graph (`src/transport-network.cpp:248-253`). `AddLine` says
  exactly which. A station then lists a route that belongs to no line (`ListAfterFailure`), and a plan can hide a
  change of route (`PlanAfterFailure`). The contracts of the queries have the exact conditions: the list is that of
  the known routes if and only if no route of a failed line goes on from the station, and the total is riding time
  plus changes if and only if no two contiguous legs are of different routes with the same identifiers. Both hold
  where there are no such edges at all (`NoOrphans`).
- Crowding is said to be set (`src/transport-network.cpp:297-301`), but it comes on top of earlier counts:
  `SeedsFromZero` says when the two agree.
- The client's onConnect is announced for failures before a successful connection
  (`include/stomp-client.h:110-113`). An unreadable message is reported to it at any time (`LateErrorIsReported`);
  `ClientPostsWithCause` and `ClientCausesMakeCalls` say exactly when each call is made.
- A content length above 64 bits counts as 0 for the parser and as an arbitrary number for validation
  (`src/stomp-frame.cpp:39`, `src/stomp-frame.cpp:517-524`). `ValidationAfterParsing` gives the exact outcome.
- onClientDisconnect is announced for clients that the server disconnects because of a protocol error
  (`include/stomp-server.h:155-157`), but `CloseConnection` posts nothing and forgets the connection
  (`include/stomp-server.h:572-593`). `ProtocolErrorsDrop` has the inputs, `ErrorIsNotReported` has a run, and `DroppedIsNotReported` shows that
  the user is not told later either. By `StepPostsWithCause` and `CausesMakeCalls` it is called exactly when an
  established connection that is still known is reported as disconnected by its WebSocket session.
- The ERROR frame always reports an unsupported frame, whatever the reason (`include/stomp-server.h:588-590`).

## Left out

- TravelPlans.GetPathCrowding: the signed 64-bit width of a station's own count, because counts move by one.
- TravelPlans.SelectMostQuiet: a crowding bound of 2^32 or more, for which a quietness below 0 would be needed; its conversion is undefined.
- AlternativeRoutes.GetFastestTravelRoutes: a maximum travel time of 2^32 or more, whose conversion is undefined. That all paths within the slowdown are found, or are sorted by time, is not true of the code; see above.
- Escaping of values, which is not implemented: a value with a newline is printed as it is. The contracts of the sending methods give the exact text, and `ParserDecidesFrames` what it says.
- StompServers.StompServer.OnWsSessionConnect: a session that connects twice, or an identifier that was used before; `ConnectKeepsInverse` says exactly when these would do harm.
- Shared pointers and copies of a network that share their stations. Stations, edges and routes are values held by the network.
- Unsigned wrap-around of travel times and distances beyond the bound of `ComputedDistancesAreBounded`, and of times added up along a route.
- Rounding of percentages as floating-point numbers.
- Conversion from JSON before `FromLayout`, and the route fields that no code here uses (direction, line, start and end station).
- Carriage returns and heart-beats of the protocol, which are not implemented.
- Strings for commands, headers and errors beyond the names the parser and the printer need, and the copying and moving of frames.
- The handlers onSend, onClientClose and onClose of individual calls: they pass an error code on.
- WebSocket, TLS, DNS and Asio layers, timing of posted calls, logging, file download, environment variables.
- The wiring of the network monitor, which configures these parts and passes events and requests on.
