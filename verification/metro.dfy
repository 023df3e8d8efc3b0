/**
 * The metro network: stations that keep an ordered list of connections,
 * and a network that registers stations by key, groups their keys by line,
 * connects stations in both directions and answers the two route queries.
 */
module Metro {
  import opened Graphs
  import opened RouteSearch

  /** A station: its key, display name, line label and ordered connections. */
  class Station {
    const key: string
    const name: string
    const line: string
    /** (neighbour key, travel minutes), in the order the connections were made. */
    var neighbours: seq<(string, int)>

    constructor (key: string, name: string, line: string)
      ensures this.key == key && this.name == name && this.line == line
      ensures neighbours == []
    {
      this.key := key;
      this.name := name;
      this.line := line;
      neighbours := [];
    }

    /** Records a connection to other taking the given minutes, at the end of the list. */
    method AddNeighbour(other: Station, minutes: int)
      modifies this
      ensures neighbours == old(neighbours) + [(other.key, minutes)]
    {
      neighbours := neighbours + [(other.key, minutes)];
    }
  }

  /** The keys grouped under line h; a line never used has the empty group. */
  function Group(lines: map<string, seq<string>>, h: string): seq<string> {
    if h in lines then lines[h] else []
  }

  /**
   * Every line group lists registered stations of that line, each once,
   * and every station is listed in the group of its line.
   */
  ghost predicate LinesAgree(stations: map<string, Station>, lines: map<string, seq<string>>) {
    && (forall h, i :: h in lines && 0 <= i < |lines[h]| ==>
          lines[h][i] in stations && stations[lines[h][i]].line == h)
    && (forall h, i, j :: h in lines && 0 <= i < j < |lines[h]| ==> lines[h][i] != lines[h][j])
    && (forall k :: k in stations ==> k in Group(lines, stations[k].line))
  }

  /** Registering a new station and appending its key to its line's group keeps the groups in agreement. */
  lemma RegisterKeepsLinesAgree(stations: map<string, Station>, lines: map<string, seq<string>>,
                                key: string, station: Station)
    requires LinesAgree(stations, lines) && key !in stations
    ensures LinesAgree(stations[key := station], lines[station.line := Group(lines, station.line) + [key]])
  {
    var line := station.line;
    var stations', lines' := stations[key := station], lines[line := Group(lines, line) + [key]];
    forall h, i | h in lines' && 0 <= i < |lines'[h]|
      ensures lines'[h][i] in stations' && stations'[lines'[h][i]].line == h
    {
      if h == line && i == |lines'[h]| - 1 {
        assert lines'[h][i] == key;
      } else {
        assert lines'[h][i] == lines[h][i];
      }
    }
  }

  /** Outcome of connecting two stations: done, or the first key not registered. */
  datatype Outcome = Connected | NoSuchStation(key: string)

  /** Every registered station keeps, as its connection list, its entry of g. */
  ghost predicate Mirrors(g: Graph, stations: map<string, Station>)
    reads stations.Values
  {
    && g.Keys == stations.Keys
    && forall k :: k in stations ==> stations[k].neighbours == g[k]
  }

  /**
   * Breadth-first search over the stations' connection lists.  The queue
   * holds (station, path) pairs; a station is marked visited when it is
   * appended.  The start is not marked when it is placed in the initial
   * queue, so it can be appended, and then marked, once more.  The ghost
   * out-parameter records every appended station, in order.
   */
  method BreadthFirst(ghost g: Graph, stations: map<string, Station>, start: string, goal: string)
    returns (found: Option<seq<string>>, ghost pushed: seq<string>)
    requires Closed(g) && Mirrors(g, stations) && start in g && goal in g
    ensures found == FewestHopsSearch(g, start, goal)
    ensures pushed == BfsPushes(g, goal, [(start, [start])], {})
    ensures forall i, j :: 0 <= i < j < |pushed| ==> pushed[i] != pushed[j]
  {
    var queue: Frontier := [(start, [start])];
    var visited: set<string> := {};
    found := None;
    pushed := [];
    while queue != []
      invariant InGraph(g, queue) && visited <= g.Keys
      invariant BfsRun(g, goal, queue, visited) == FewestHopsSearch(g, start, goal)
      invariant pushed + BfsPushes(g, goal, queue, visited) == BfsPushes(g, goal, [(start, [start])], {})
      decreases |g.Keys - visited|, |queue|
    {
      var current, path := queue[0].0, queue[0].1;
      if current == goal {
        found := Some(path);
        break;
      }
      ghost var Q0, V0 := queue, visited;
      queue, visited := EnqueueUnvisited(g, stations[current].neighbours, path, queue[1..], visited);
      BfsRound(g, goal, Q0, V0, (queue, visited));
      pushed := pushed + Stations(queue[|Q0| - 1..]);
    }
    FewestHopsEnqueuesOnce(g, start, goal);
  }

  /**
   * Uniform-cost search over the stations' connection lists, with lazy
   * deletion: a popped entry is dropped when its station was already
   * finalised no later; otherwise the station is finalised at the entry's
   * time, the goal ends the search, and one entry per connection is pushed.
   */
  method UniformCost(ghost g: Graph, stations: map<string, Station>, start: string, goal: string)
    returns (found: Option<(seq<string>, int)>)
    requires Closed(g) && NonNegative(g) && Mirrors(g, stations) && start in g && goal in g
    ensures found == FastestSearch(g, start, goal)
  {
    var pq := [Entry(0, start, [start], [])];
    var best: map<string, int> := map[];
    found := None;
    while pq != []
      invariant best.Keys <= g.Keys && QueueInGraph(g, pq) && Settled(pq, best)
      invariant DijkstraRun(g, goal, pq, best) == FastestSearch(g, start, goal)
      decreases |g.Keys - best.Keys|, |pq|
    {
      DijkstraRunStep(g, goal, pq, best);
      var i := FirstMinIndex(pq);
      var e := pq[i];
      pq := Without(pq, i);
      if e.station in best && best[e.station] <= e.time {
        continue;
      }
      ghost var B0 := best;
      best := best[e.station := e.time];
      if e.station == goal {
        found := Some((e.path, e.time));
        break;
      }
      pq := PushSuccessors(e, stations[e.station].neighbours, pq);
      assert best.Keys == B0.Keys + {e.station};
      ProperSubsetSmaller(g.Keys - best.Keys, g.Keys - B0.Keys);
    }
  }

  class Network {
    /** Registered stations by key. */
    var stations: map<string, Station>
    /** Station keys grouped by line label, each group in order of registration. */
    var lines: map<string, seq<string>>
    /** The network as a graph value: every key with its station's connection list. */
    ghost var graph: Graph
    ghost var Repr: set<object>

    /** The display names along a path of registered keys. */
    function RouteNames(path: seq<string>): (names: seq<string>)
      reads this
      requires forall i :: 0 <= i < |path| ==> path[i] in stations
      ensures |names| == |path|
      ensures forall i :: 0 <= i < |path| ==> names[i] == stations[path[i]].name
    {
      if path == [] then [] else RouteNames(path[..|path| - 1]) + [stations[path[|path| - 1]].name]
    }

    ghost predicate Valid()
      reads this, Repr
    {
      && this in Repr
      && graph.Keys == stations.Keys
      && (forall k :: k in stations ==> stations[k] in Repr)
      && (forall k :: k in stations ==> stations[k].key == k && stations[k].neighbours == graph[k])
      && Closed(graph)
      && Symmetric(graph)
      && LinesAgree(stations, lines)
    }

    constructor ()
      ensures Valid() && fresh(Repr)
      ensures stations == map[] && lines == map[] && graph == map[]
    {
      stations := map[];
      lines := map[];
      graph := map[];
      Repr := {this};
    }

    /**
     * Registers a station under key.  A key already registered is left as it
     * is; otherwise a fresh station with no connections is registered and its
     * key appended to its line's group.
     */
    method AddStation(key: string, name: string, line: string)
      requires Valid()
      modifies this
      ensures Valid() && fresh(Repr - old(Repr))
      ensures old(key in stations) ==>
        stations == old(stations) && lines == old(lines) && graph == old(graph)
      ensures old(key !in stations) ==>
        && key in stations && fresh(stations[key])
        && stations[key].name == name && stations[key].line == line
        && stations == old(stations)[key := stations[key]]
        && lines == old(lines)[line := Group(old(lines), line) + [key]]
        && graph == old(graph)[key := []]
    {
      if key !in stations {
        var station := new Station(key, name, line);
        stations := stations[key := station];
        lines := lines[line := Group(lines, line) + [key]];
        graph := graph[key := []];
        Repr := Repr + {station};
        RegisterKeepsLinesAgree(old(stations), old(lines), key, station);
        AddStationKeepsShape(old(graph), key);
      }
    }

    /**
     * Connects stations a and b both ways with the given minutes: a's list
     * gains (b, minutes), then b's list gains (a, minutes).  An unregistered
     * key is reported (a before b) and nothing changes.
     */
    method Connect(a: string, b: string, minutes: int) returns (outcome: Outcome)
      requires Valid()
      modifies this, stations.Values
      ensures Valid() && Repr == old(Repr)
      ensures stations == old(stations) && lines == old(lines)
      ensures outcome == (if a !in stations then NoSuchStation(a)
                          else if b !in stations then NoSuchStation(b)
                          else Connected)
      ensures outcome.Connected? ==> graph == Link(old(graph), a, b, minutes)
      ensures outcome.NoSuchStation? ==> graph == old(graph)
    {
      if a !in stations {
        return NoSuchStation(a);
      }
      if b !in stations {
        return NoSuchStation(b);
      }
      var first := stations[a];
      var second := stations[b];
      assert forall k :: k in stations && k != a ==> stations[k] != first;
      assert forall k :: k in stations && k != b ==> stations[k] != second;
      first.AddNeighbour(second, minutes);
      second.AddNeighbour(first, minutes);
      graph := Link(graph, a, b, minutes);
      outcome := Connected;
      LinkKeepsClosed(old(graph), a, b, minutes);
      LinkKeepsSymmetric(old(graph), a, b, minutes);
    }

    /**
     * The route with fewest hops from start to goal, as display names;
     * keys is the same route by key.  An unregistered key has no route.
     */
    method FewestTransfers(start: string, goal: string) returns (route: Option<seq<string>>, ghost keys: Option<seq<string>>)
      requires Valid()
      ensures keys == FewestHopsSearch(graph, start, goal)
      ensures keys.Some? <==> start in stations && goal in stations && Reachable(graph, start, goal)
      ensures keys.Some? ==> IsFewestHopsRoute(graph, keys.value, start, goal)
      ensures start in stations && goal == start ==> keys == Some([start])
      ensures route.Some? == keys.Some?
      ensures keys.Some? ==> route.value == RouteNames(keys.value)
      ensures route.Some? <==> start in stations && goal in stations && Reachable(graph, start, goal)
      ensures route.Some? ==> exists p :: IsFewestHopsRoute(graph, p, start, goal) && route.value == RouteNames(p)
      ensures start in stations && goal == start ==> route == Some([stations[start].name])
    {
      var found: Option<seq<string>> := None;
      if start in stations && goal in stations {
        ghost var pushed;
        found, pushed := BreadthFirst(graph, stations, start, goal);
      }
      FewestHopsSearchCorrect(graph, start, goal);
      keys := found;
      route := if found.Some? then Some(RouteNames(found.value)) else None;
      if start in stations && goal == start {
        assert RouteNames([start]) == [stations[start].name];
      }
    }

    /**
     * The fastest route from start to goal and its minutes, as display
     * names; keys is the same route by key.  An unregistered key has no
     * route.
     */
    method FastestRoute(start: string, goal: string)
      returns (result: Option<(seq<string>, int)>, ghost keys: Option<(seq<string>, int)>)
      requires Valid() && NonNegative(graph)
      ensures keys == FastestSearch(graph, start, goal)
      ensures keys.Some? <==> start in stations && goal in stations && Reachable(graph, start, goal)
      ensures keys.Some? ==> exists ws :: IsTimedRoute(graph, keys.value.0, ws, start, goal) && Sum(ws) == keys.value.1
      ensures keys.Some? ==> NoFasterRoute(graph, start, goal, keys.value.1)
      ensures start in stations && goal == start ==> keys == Some(([start], 0))
      ensures result.Some? == keys.Some?
      ensures keys.Some? ==> result.value == (RouteNames(keys.value.0), keys.value.1)
      ensures result.Some? <==> start in stations && goal in stations && Reachable(graph, start, goal)
      ensures result.Some? ==> NoFasterRoute(graph, start, goal, result.value.1)
      ensures result.Some? ==> exists p, ws :: IsTimedRoute(graph, p, ws, start, goal) && Sum(ws) == result.value.1
                                             && result.value.0 == RouteNames(p)
      ensures start in stations && goal == start ==> result == Some(([stations[start].name], 0))
    {
      var found: Option<(seq<string>, int)> := None;
      if start in stations && goal in stations {
        found := UniformCost(graph, stations, start, goal);
      }
      FastestSearchCorrect(graph, start, goal);
      keys := found;
      result := if found.Some? then Some((RouteNames(found.value.0), found.value.1)) else None;
      if start in stations && goal == start {
        assert RouteNames([start]) == [stations[start].name];
      }
    }
  }
}
