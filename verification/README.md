# Metro routing core

A Dafny model of the routing core of a small metro simulator
(`MalikaDugusheva_MetroSimulation.py`). It has two parts:

- **The network.** A `Station` (`Istasyon`) has a key, a display name and a line label. It keeps an
  ordered list of connections: neighbour key and travel minutes. A `Network` (`MetroAgi`) holds a
  key→station table (`istasyonlar`) and groups station keys by line (`hatlar`).
  - Registering a key that is already present changes nothing.
  - Connecting two stations appends one entry to each endpoint's list.
- **The two queries.**
  - The fewest-transfers query (`en_az_aktarma_bul`) is a breadth-first search. Its queue holds
    (station, path) pairs. A station is marked visited when it is appended. The start is not marked
    when it is placed in the initial queue, so it can be appended, and then marked, once more.
  - The fastest-route query (`en_hizli_rota_bul`) is a uniform-cost (Dijkstra) search with lazy
    deletion. An entry popped for a station already finalised at a time no later than the entry's
    time is dropped. Otherwise the station is finalised, the goal ends the search, and one entry is
    pushed per connection.
  - Both queries answer with the display names along the route. The fastest query also gives the
    route's minutes.

The model has four modules:

- `Graphs` (`graphs.dfy`) describes the network as a value, a map from station key to its
  connection list. It defines routes, timed routes, reachability and two-way symmetry, and proves the
  facts the other modules use about them.
- `RouteSearch` (`route_search.dfy`) gives step-by-step reference definitions of both searches on
  that value (`BfsRun`, `DijkstraRun`). It proves them correct: a route is found exactly when the
  goal is reachable, the BFS route has fewest hops, and the Dijkstra route is timed and has least
  total minutes.
- `Metro` (`metro.dfy`) holds the imperative code.
  - The `Station` and `Network` classes update their fields in place.
  - The two search loops (`BreadthFirst`, `UniformCost`) work over the stations' connection lists.
    Each is proved equal to its reference definition.
  - A ghost `graph` field of `Network` mirrors every station's list. Its invariant `Valid` keeps the
    graph closed and symmetric, and keeps the line groups in agreement with the stations.
- `Demo` (`demo.dfy`) covers the six-station network the script builds, as a graph value. It proves
  the answers of both reference searches for M1→M5.
- `DemoBuild` (`demo_build.dfy`) builds that network with the `Network` methods: six registrations,
  then six connections. It proves that the result is the graph of `Demo`, and that both queries on it
  answer with the expected display names.

On the demo network the route via M6 is also a timed route, but it takes 21 minutes
(`Demo.DemoRouteViaM6`). The code answers M1-M2-M3-M4-M5 in 4+2+6+8 = 20 minutes
(`Demo.DemoFastest`).

## Model

| member | source | states |
|---|---|---|
| Metro.Station.constructor | MalikaDugusheva_MetroSimulation.py:15-19 | A new station carries the given key, name and line, and has no connections. |
| Metro.Station.AddNeighbour | MalikaDugusheva_MetroSimulation.py:21-23 | The connection list gains exactly (neighbour key, minutes), at its end, and is otherwise unchanged. |
| Metro.Network.constructor | MalikaDugusheva_MetroSimulation.py:32-34 | A new network has no stations, no line groups and an empty graph, and satisfies the invariant. |
| Metro.Network.AddStation | MalikaDugusheva_MetroSimulation.py:37-42 | A key already present leaves stations, line groups and graph unchanged, and the original station is kept. A new key maps to a fresh station with the given name and line and no connections. The key is appended to the end of its line's group. Every other key and group is unchanged. The invariant is kept. |
| Metro.Group | MalikaDugusheva_MetroSimulation.py:34 | Defines the group of a line as in a `defaultdict(list)`: the stored group, or the empty group for a line never used. `Metro.Network.AddStation` appends to it, and `Metro.RegisterKeepsLinesAgree` proves the groups stay consistent. |
| Metro.RegisterKeepsLinesAgree | MalikaDugusheva_MetroSimulation.py:39-42 | Registering a new key and appending it to its line's group keeps the groups consistent: each group lists registered stations of that line, each once, and every station is in its line's group. |
| Graphs.AddStationKeepsShape | MalikaDugusheva_MetroSimulation.py:39-41 | Adding a station with no connections keeps the network closed and two-way symmetric. |
| Metro.Network.Connect | MalikaDugusheva_MetroSimulation.py:45-50 | If a is not registered, the lookup failure names a; otherwise, if b is not registered, it names b. In both cases nothing changes. Otherwise the graph becomes `Link(graph, a, b, minutes)`. Stations and line groups are unchanged, and the invariant is kept. |
| Graphs.Link | MalikaDugusheva_MetroSimulation.py:45-50 | Connecting a and b appends (b, w) to a's list and (a, w) to b's list. A self-connection appends both entries to the one list. Every other list is unchanged, and every list only grows (the old list is a prefix). |
| Graphs.LinkKeepsSymmetric | MalikaDugusheva_MetroSimulation.py:45-50 | After a connection, for every u, v and w, u's list still holds (v, w) as many times as v's list holds (u, w). |
| Graphs.LinkKeepsClosed | MalikaDugusheva_MetroSimulation.py:45-50 | After a connection, every neighbour entry still names a registered station. |
| Metro.Network.RouteNames | MalikaDugusheva_MetroSimulation.py:61-70 | The answer lists, position by position, the display name of each station on the route. |
| Metro.Network.FewestTransfers | MalikaDugusheva_MetroSimulation.py:53-72 | A route is returned exactly when both keys are registered and the goal is reachable. The route runs from start to goal along connections and has fewest hops of all routes. From a station to itself the answer is that station alone. The answer is the route's display names. |
| Metro.BreadthFirst | MalikaDugusheva_MetroSimulation.py:61-72 | The queue loop returns exactly the reference breadth-first answer `FewestHopsSearch`. The ghost `pushed` records the stations the loop appends, in order: it equals `BfsPushes` from the initial state, and no station occurs in it twice. |
| RouteSearch.Expand | MalikaDugusheva_MetroSimulation.py:68-71 | Defines one expansion: each unvisited neighbour, in list order, is appended with the path extended by it and marked visited. Its contract keeps the queue's stations and the visited set inside the network, only grows the visited set, and leaves the queue as it was when nothing new is visited. Its enqueue behaviour is proved by `RouteSearch.ExpandEnqueuesOnce`. |
| RouteSearch.BfsRun | MalikaDugusheva_MetroSimulation.py:64-72 | Defines the queue loop from a given queue and visited set: an empty queue gives no route, a goal at the head gives its path, and otherwise the head is expanded. Proved correct by `RouteSearch.BfsRunCorrect`. |
| RouteSearch.FewestHopsSearch | MalikaDugusheva_MetroSimulation.py:53-72 | Defines the fewest-transfers query: no route for an unknown key, else `BfsRun` from the start alone with nothing visited. Proved correct by `RouteSearch.FewestHopsSearchCorrect`. |
| RouteSearch.BfsPushes | MalikaDugusheva_MetroSimulation.py:64-71 | Defines the stations the queue loop appends from a given state, in order. Proved free of repeats by `RouteSearch.BfsPushesFresh`. |
| RouteSearch.BfsRound | MalikaDugusheva_MetroSimulation.py:64-71 | One pass of the loop that does not end the search keeps the queue in the network and leaves the answer unchanged. The stations appended from the old state are those the expansion appends, followed by those appended from the new state. The search progresses: more is visited, or nothing new is visited and the queue is shorter. |
| RouteSearch.EnqueueUnvisited | MalikaDugusheva_MetroSimulation.py:68-71 | The inner loop appends each unvisited neighbour, in list order, with the path extended by it, and marks it visited. This equals the reference expansion `Expand`. |
| RouteSearch.ExpandEnqueuesOnce | MalikaDugusheva_MetroSimulation.py:68-71 | One expansion keeps the old queue as a prefix. It appends only stations unvisited before it, none twice, each with the extended path and each now visited. Every newly visited station is among those appended. |
| RouteSearch.BfsPushesFresh | MalikaDugusheva_MetroSimulation.py:64-71 | From any state, the search appends only stations not yet visited, and no station twice. |
| RouteSearch.FewestHopsEnqueuesOnce | MalikaDugusheva_MetroSimulation.py:61-72 | Over a whole query no station is appended twice. The start is not marked when it is placed in the initial queue, so it can be appended once more: counting the initial queue it can occur twice, and every other station at most once. |
| RouteSearch.BfsRunCorrect | MalikaDugusheva_MetroSimulation.py:64-72 | From any state satisfying the layer invariant, the search answers exactly when the goal is reachable, and its answer is a route with fewest hops. |
| RouteSearch.FewestHopsSearchCorrect | MalikaDugusheva_MetroSimulation.py:53-72 | The reference answer exists exactly when both keys are present and the goal is reachable. It is a fewest-hops route, and it is [start] when goal == start. |
| Metro.Network.FastestRoute | MalikaDugusheva_MetroSimulation.py:74-94 | With non-negative minutes, a result is returned exactly when both keys are registered and the goal is reachable. The route is a walk from start to goal whose per-hop connection minutes sum to the returned time, and no timed route is faster. From a station to itself the result is (that station, 0). The answer is the route's display names with its minutes. |
| Metro.UniformCost | MalikaDugusheva_MetroSimulation.py:82-94 | The heap loop, with lazy deletion and the goal check after finalising, returns exactly the reference answer `FastestSearch`. |
| RouteSearch.FirstMinIndex | MalikaDugusheva_MetroSimulation.py:86 | The popped position holds an entry of least time, the earliest such entry when several tie. |
| RouteSearch.Without | MalikaDugusheva_MetroSimulation.py:86 | Popping removes exactly that entry and keeps the others in order. |
| RouteSearch.Relax | MalikaDugusheva_MetroSimulation.py:92-93 | Defines the entry pushed for one connection: time plus minutes, the neighbour, the path extended by it. Used by `RouteSearch.PushSuccessors` and `RouteSearch.PopKeepsSettled`. |
| RouteSearch.Successors | MalikaDugusheva_MetroSimulation.py:92-93 | Defines the entries pushed when a station is expanded: one `Relax` per connection, in list order. `RouteSearch.PushSuccessors` is proved to append exactly these. |
| RouteSearch.PushSuccessors | MalikaDugusheva_MetroSimulation.py:92-93 | The expansion loop pushes, per connection and in list order, an entry with the time increased by the connection's minutes and the path extended by the neighbour. No entry is skipped. |
| RouteSearch.PopKeepsSettled | MalikaDugusheva_MetroSimulation.py:86-93 | Popping a least entry keeps every queued time no earlier than every finalised time. An entry that is not dropped belongs to a station not yet finalised, and finalising and expanding it keeps that order. |
| RouteSearch.DijkstraRunStep | MalikaDugusheva_MetroSimulation.py:86-93 | One pop either drops a stale entry, returns the goal's path and time, or finalises and expands the station. The answer is unchanged by the step. |
| RouteSearch.DijkstraRun | MalikaDugusheva_MetroSimulation.py:85-94 | Defines the heap loop from a given heap and finalised map: pop the first least entry, drop it if its station was finalised no later, return it at the goal, otherwise finalise and push its successors. Proved correct by `RouteSearch.DijkstraRunCorrect`. |
| RouteSearch.FastestSearch | MalikaDugusheva_MetroSimulation.py:74-94 | Defines the fastest-route query: no route for an unknown key, else `DijkstraRun` from (0, start, [start]) with nothing finalised. Proved correct by `RouteSearch.FastestSearchCorrect`. |
| RouteSearch.DijkstraRunCorrect | MalikaDugusheva_MetroSimulation.py:85-94 | From any state satisfying the invariant (finalised times optimal, every connection out of the finalised stations covered by a queued entry), the answer exists exactly when the goal is reachable. It is a timed route whose hop minutes sum to the reported time, and no route is faster. |
| RouteSearch.FastestSearchCorrect | MalikaDugusheva_MetroSimulation.py:74-94 | With non-negative minutes, the reference answer exists exactly when both keys are present and the goal is reachable. It is a timed route, fastest of all, and is ([start], 0) when goal == start. |
| Demo.DemoGraph | MalikaDugusheva_MetroSimulation.py:116-121 | The connection lists the six connections leave form a closed network with non-negative minutes. |
| Demo.DemoFewest | MalikaDugusheva_MetroSimulation.py:116-124 | In the demo network, the fewest-hops answer from M1 to M5 is M1, M2, M3, M4, M5. |
| DemoBuild.LinkFirstThree | MalikaDugusheva_MetroSimulation.py:116-118 | On six distinct unconnected stations, the first three connections leave exactly the lists M1: (M2, 4); M2: (M1, 4), (M3, 2); M3: (M2, 2), (M4, 6); M4: (M3, 6); M5 and M6 empty. |
| DemoBuild.LinkLastThree | MalikaDugusheva_MetroSimulation.py:119-121 | From there, the last three connections append (M5, 8) and (M4, 8), then (M6, 10) and (M5, 10), then (M6, 5) to M3 and (M3, 5) to M6. |
| DemoBuild.DemoListsAreDemoGraph | MalikaDugusheva_MetroSimulation.py:116-121 | Those six lists on the keys M1..M6 are exactly `Demo.DemoGraph`. |
| DemoBuild.RegisterNew | MalikaDugusheva_MetroSimulation.py:39-42 | Registering an absent key adds exactly that key, with a station of the given name, and an empty connection list. The invariant is kept. |
| DemoBuild.RegisterThree | MalikaDugusheva_MetroSimulation.py:109-114 | Registering three distinct absent keys adds exactly those keys, with the given names and empty connection lists, and keeps every other station. |
| DemoBuild.RegisterDemoStations | MalikaDugusheva_MetroSimulation.py:109-114 | The six registrations of the script give the keys M1..M6 with their display names, each with an empty connection list. |
| DemoBuild.ConnectDemoStations | MalikaDugusheva_MetroSimulation.py:116-121 | The six connections of the script, made on those stations, leave exactly the connection lists of `Demo.DemoGraph`. Stations and their set are unchanged. |
| DemoBuild.BuildDemo | MalikaDugusheva_MetroSimulation.py:107-121 | The network the script builds satisfies the invariant, has the graph `Demo.DemoGraph` and has the script's display names. |
| DemoBuild.DemoRouteNames | MalikaDugusheva_MetroSimulation.py:109-113 | On that network, the route M1-M2-M3-M4-M5 reads Üsküdar, Sirkeci, Yenikapı, Bayrampaşa, Sultangazi. |
| DemoBuild.DemoQueries | MalikaDugusheva_MetroSimulation.py:123-134 | Both queries of the script from M1 to M5, on the network it builds, answer Üsküdar, Sirkeci, Yenikapı, Bayrampaşa, Sultangazi; the fastest query with 20 minutes. |
| Demo.DemoRouteViaM6 | MalikaDugusheva_MetroSimulation.py:116-121 | M1-M2-M3-M6-M5 is a timed route of 21 minutes. |
| Demo.DemoTwentyMinuteRoute | MalikaDugusheva_MetroSimulation.py:116-121 | The only timed route from M1 to M5 taking 20 minutes is M1-M2-M3-M4-M5. |
| Demo.DemoAtMostTwenty | MalikaDugusheva_MetroSimulation.py:116-121 | No time that every timed route from M1 to M5 meets can exceed 20 minutes. |
| Demo.DemoFastest | MalikaDugusheva_MetroSimulation.py:116-132 | In the demo network, the fastest answer from M1 to M5 is M1-M2-M3-M4-M5 in 20 minutes. |

## Left out

- The drawing method `rotayi_ciz` and the `graf` networkx mirror (lines 35, 43, 51, 96-104) are not modelled. They are visualisation through foreign libraries and hold no routing logic.
- The console output and drawing of the script part (lines 106-138) are not modelled. Its network and its two queries are `DemoBuild.BuildDemo` and `DemoBuild.DemoQueries`.
- `RouteSearch.FirstMinIndex`: the heap's tie-break is not modelled. The source orders heap entries as tuples: by time, then by `id(...)` of the station object, then, for entries of the same station, by the display-name path, compared lexicographically (the station objects compare equal by identity). Object identity has no value meaning, so the model pops, among entries of equal least time, the one queued first. Which of several equally fast routes is returned may therefore differ from the source, but its time and optimality do not.
- `Metro.Network.FastestRoute`: requires all minutes to be non-negative. The source does not check this, and with negative minutes its answer need not be fastest. That case is not modelled.
- `Metro.Network.Connect`: the source raises a lookup error (KeyError) for an unregistered key. The model returns it as a `NoSuchStation` outcome instead. Both lookups precede any change, so in both the network is left unchanged.
- Line groups hold station keys, not station objects. The station is found through the key→station table, which maps each key to the station with that key.
- Connection lists hold neighbour keys rather than references to neighbour stations, for the same reason.
- `Metro.Network.FewestTransfers` and `Metro.Network.FastestRoute`: the route-level properties (route, fewest hops, fastest) are stated about the ghost key path. Display names need not be unique, so they are stated about the names only through `RouteNames`.
