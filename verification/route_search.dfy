/**
 * Reference definitions of the two route searches, run step by step on a
 * graph value, and the facts their correctness proofs rest on.
 *
 * The fewest-hops search is a breadth-first search whose frontier holds
 * (station, path) pairs and which marks a station as visited when it is
 * enqueued.  The fastest search is a uniform-cost (Dijkstra) search over a
 * priority queue of timed entries with lazy deletion: an entry popped for a
 * station already finalised at a time no later than the entry's is dropped.
 */
module RouteSearch {
  import opened Graphs

  /** Breadth-first frontier: (station, path from the start to that station). */
  type Frontier = seq<(string, seq<string>)>

  ghost predicate InGraph(g: Graph, queue: Frontier) {
    forall i :: 0 <= i < |queue| ==> queue[i].0 in g
  }

  /**
   * Expansion of one station during breadth-first search: every neighbour
   * not yet visited, in list order, is appended to the queue with the path
   * extended by it, and marked visited at once.
   */
  ghost function Expand(g: Graph, nbrs: seq<(string, int)>, path: seq<string>,
                        queue: Frontier, visited: set<string>): (r: (Frontier, set<string>))
    requires forall k :: 0 <= k < |nbrs| ==> nbrs[k].0 in g
    requires InGraph(g, queue) && visited <= g.Keys
    ensures InGraph(g, r.0) && visited <= r.1 <= g.Keys
    ensures r.1 == visited ==> r.0 == queue
    decreases |nbrs|
  {
    if nbrs == [] then (queue, visited)
    else if nbrs[0].0 in visited then Expand(g, nbrs[1..], path, queue, visited)
    else Expand(g, nbrs[1..], path, queue + [(nbrs[0].0, path + [nbrs[0].0])], visited + {nbrs[0].0})
  }

  /** The breadth-first search loop, from a given frontier and visited set, to its answer. */
  ghost function BfsRun(g: Graph, goal: string, queue: Frontier, visited: set<string>): Option<seq<string>>
    requires Closed(g) && InGraph(g, queue) && visited <= g.Keys
    decreases |g.Keys - visited|, |queue|
  {
    if queue == [] then None
    else if queue[0].0 == goal then Some(queue[0].1)
    else
      var r := Expand(g, g[queue[0].0], queue[0].1, queue[1..], visited);
      if r.1 == visited then BfsRun(g, goal, r.0, r.1)
      else
        ProperSubsetSmaller(g.Keys - r.1, g.Keys - visited);
        BfsRun(g, goal, r.0, r.1)
  }

  /** The fewest-hops query: no route for an unknown key, else the search from [(start, [start])]. */
  ghost function FewestHopsSearch(g: Graph, start: string, goal: string): Option<seq<string>>
    requires Closed(g)
  {
    if start !in g || goal !in g then None
    else BfsRun(g, goal, [(start, [start])], {})
  }

  /** Every walk from s with at most n stations ends in S. */
  ghost predicate ShortWalksEndIn(g: Graph, s: string, n: int, S: set<string>) {
    forall q :: IsWalk(g, q) && q[0] == s && |q| <= n ==> q[|q| - 1] in S
  }

  /**
   * The layer argument of breadth-first search.  Suppose every station known
   * to the search (visited, or the start) and not yet expanded has a queue
   * entry, the path of every entry for an unexpanded station is as short as
   * any route to it, no entry is shorter than h stations, and every
   * neighbour of an expanded station is visited.  Then every walk from the
   * start with at most h stations ends at a known station.
   */
  lemma {:induction false} ShortWalkEndsKnown(g: Graph, s: string, queue: Frontier, known: set<string>,
                                             done: set<string>, visited: set<string>, h: int, q: seq<string>)
    requires s in known && visited <= known
    requires forall i :: 0 <= i < |queue| && queue[i].0 !in done ==> NoShorterRoute(g, s, queue[i].0, |queue[i].1|)
    requires forall v :: v in known && v !in done ==> exists i :: 0 <= i < |queue| && queue[i].0 == v
    requires forall i :: 0 <= i < |queue| ==> h <= |queue[i].1|
    requires forall u, k :: u in done && u in g && 0 <= k < |g[u]| ==> g[u][k].0 in visited
    requires IsWalk(g, q) && q[0] == s && |q| <= h
    ensures q[|q| - 1] in known
    decreases |q|
  {
    if |q| > 1 {
      var q' := q[..|q| - 1];
      WalkPrefix(g, q, |q| - 1);
      ShortWalkEndsKnown(g, s, queue, known, done, visited, h, q');
      var u := q'[|q'| - 1];
      if u !in done {
        var i :| 0 <= i < |queue| && queue[i].0 == u;
        assert IsRoute(g, q', s, u);
        assert false;
      }
      assert HasEdge(g, q[|q| - 2], q[|q| - 1]);
    }
  }

  /** ShortWalkEndsKnown for all walks at once. */
  lemma ShortWalksEndKnown(g: Graph, s: string, queue: Frontier, known: set<string>,
                           done: set<string>, visited: set<string>, h: int)
    requires s in known && visited <= known
    requires forall i :: 0 <= i < |queue| && queue[i].0 !in done ==> NoShorterRoute(g, s, queue[i].0, |queue[i].1|)
    requires forall v :: v in known && v !in done ==> exists i :: 0 <= i < |queue| && queue[i].0 == v
    requires forall i :: 0 <= i < |queue| ==> h <= |queue[i].1|
    requires forall u, k :: u in done && u in g && 0 <= k < |g[u]| ==> g[u][k].0 in visited
    ensures ShortWalksEndIn(g, s, h, known)
  {
    forall q | IsWalk(g, q) && q[0] == s && |q| <= h ensures q[|q| - 1] in known {
      ShortWalkEndsKnown(g, s, queue, known, done, visited, h, q);
    }
  }

  /** Facts about the queue of the breadth-first search that every round keeps. */
  ghost predicate QueueFacts(g: Graph, s: string, queue: Frontier, visited: set<string>, done: set<string>) {
    && InGraph(g, queue)
    && (forall i :: 0 <= i < |queue| ==> IsRoute(g, queue[i].1, s, queue[i].0))
    && (forall i :: 0 <= i < |queue| ==> queue[i].0 in visited + {s})
    && (forall i :: 0 <= i < |queue| && queue[i].0 !in done ==> NoShorterRoute(g, s, queue[i].0, |queue[i].1|))
    && (forall v :: v in visited + {s} && v !in done ==> exists i :: 0 <= i < |queue| && queue[i].0 == v)
    && (forall i, j :: 0 <= i <= j < |queue| ==> |queue[i].1| <= |queue[j].1|)
  }

  /**
   * The state of the breadth-first search between rounds.  done holds the
   * stations already expanded: every neighbour of one is visited, and an
   * entry for a station not expanded carries a shortest path to it.
   */
  ghost predicate BfsState(g: Graph, s: string, goal: string, queue: Frontier, visited: set<string>, done: set<string>) {
    && Closed(g) && s in g && goal in g && visited <= g.Keys
    && QueueFacts(g, s, queue, visited, done)
    && (forall i :: 0 <= i < |queue| ==> |queue[i].1| <= |queue[0].1| + 1)
    && (forall u, k :: u in done && u in g && 0 <= k < |g[u]| ==> g[u][k].0 in visited)
    && done <= visited + {s} && goal !in done
    && (s !in done ==> queue == [(s, [s])])
  }

  /**
   * The state while station cur, reached by path, is being expanded and
   * its first m neighbours have been dealt with.
   */
  ghost predicate ExpandState(g: Graph, s: string, goal: string, cur: string, path: seq<string>, m: nat,
                              queue: Frontier, visited: set<string>, done: set<string>) {
    && Closed(g) && s in g && goal in g && visited <= g.Keys
    && cur in g && m <= |g[cur]| && IsRoute(g, path, s, cur)
    && ShortWalksEndIn(g, s, |path|, visited + {s})
    && QueueFacts(g, s, queue, visited, done)
    && (forall i :: 0 <= i < |queue| ==> |path| <= |queue[i].1| <= |path| + 1)
    && (forall u, k :: u in done && u != cur && u in g && 0 <= k < |g[u]| ==> g[u][k].0 in visited)
    && (forall k :: 0 <= k < m ==> g[cur][k].0 in visited)
    && cur in done && s in done && goal !in done && done <= visited + {s}
  }

  /** Popping the head of the queue, when it is not the goal, starts its expansion. */
  lemma BfsPop(g: Graph, s: string, goal: string, queue: Frontier, visited: set<string>, done: set<string>)
    requires BfsState(g, s, goal, queue, visited, done) && queue != [] && queue[0].0 != goal
    ensures ExpandState(g, s, goal, queue[0].0, queue[0].1, 0, queue[1..], visited, done + {queue[0].0})
  {
    var cur, path, rest := queue[0].0, queue[0].1, queue[1..];
    ShortWalksEndKnown(g, s, queue, visited + {s}, done, visited, |path|);
    forall v | v in visited + {s} && v !in done + {cur}
      ensures exists i :: 0 <= i < |rest| && rest[i].0 == v
    {
      var i :| 0 <= i < |queue| && queue[i].0 == v;
      assert rest[i - 1] == queue[i];
    }
    forall i | 0 <= i < |rest| ensures IsRoute(g, rest[i].1, s, rest[i].0) && |path| <= |rest[i].1| <= |path| + 1 {
      assert rest[i] == queue[i + 1];
    }
  }

  /**
   * Appending an entry that carries a route to next, shortest when next is
   * not yet expanded and no shorter than any entry already queued, and
   * marking next visited keeps the queue facts.
   */
  lemma PushKeepsQueueFacts(g: Graph, s: string, queue: Frontier, visited: set<string>, done: set<string>,
                            next: string, p: seq<string>)
    requires QueueFacts(g, s, queue, visited, done)
    requires next in g && IsRoute(g, p, s, next)
    requires next !in done ==> NoShorterRoute(g, s, next, |p|)
    requires forall i :: 0 <= i < |queue| ==> |queue[i].1| <= |p|
    ensures QueueFacts(g, s, queue + [(next, p)], visited + {next}, done)
  {
    var q := queue + [(next, p)];
    forall v | v in visited + {next} + {s} && v !in done ensures exists i :: 0 <= i < |q| && q[i].0 == v {
      if v != next {
        var i :| 0 <= i < |queue| && queue[i].0 == v;
        assert q[i] == queue[i];
      } else {
        assert q[|queue|].0 == v;
      }
    }
  }

  /**
   * A neighbour of the station reached by path that is not known yet is
   * reached by no walk as short as path, so path extended by it is a
   * route to it with fewest stations.
   */
  lemma PushedRouteShortest(g: Graph, s: string, cur: string, path: seq<string>, m: nat, known: set<string>)
    requires Closed(g) && cur in g && m < |g[cur]| && IsRoute(g, path, s, cur)
    requires ShortWalksEndIn(g, s, |path|, known) && g[cur][m].0 !in known
    ensures IsRoute(g, path + [g[cur][m].0], s, g[cur][m].0)
    ensures NoShorterRoute(g, s, g[cur][m].0, |path| + 1)
  {
    ExtendRoute(g, path, s, cur, m);
  }

  /** Knowing more stations keeps every short walk inside what is known. */
  lemma ShortWalksWiden(g: Graph, s: string, n: int, known: set<string>, more: set<string>)
    requires ShortWalksEndIn(g, s, n, known) && known <= more
    ensures ShortWalksEndIn(g, s, n, more)
  {
  }

  /**
   * Dealing with neighbour m of cur: a neighbour not yet visited is
   * appended with the extended path and marked visited; the search state
   * is kept, now with m + 1 neighbours dealt with.
   */
  lemma BfsPush(g: Graph, s: string, goal: string, cur: string, path: seq<string>, m: nat,
                queue: Frontier, visited: set<string>, done: set<string>)
    requires ExpandState(g, s, goal, cur, path, m, queue, visited, done) && m < |g[cur]|
    ensures g[cur][m].0 in visited ==> ExpandState(g, s, goal, cur, path, m + 1, queue, visited, done)
    ensures g[cur][m].0 !in visited ==>
      ExpandState(g, s, goal, cur, path, m + 1, queue + [(g[cur][m].0, path + [g[cur][m].0])],
                  visited + {g[cur][m].0}, done)
  {
    var next := g[cur][m].0;
    if next !in visited {
      if next !in done {
        PushedRouteShortest(g, s, cur, path, m, visited + {s});
      } else {
        ExtendRoute(g, path, s, cur, m);
      }
      PushKeepsQueueFacts(g, s, queue, visited, done, next, path + [next]);
      ShortWalksWiden(g, s, |path|, visited + {s}, visited + {next} + {s});
    }
  }

  /**
   * The expansion loop of breadth-first search over the neighbour list
   * nbrs of the station reached by path: each neighbour not yet visited is
   * appended with the path extended by it and marked visited at once.
   */
  method EnqueueUnvisited(ghost g: Graph, nbrs: seq<(string, int)>, path: seq<string>,
                          queue: Frontier, visited: set<string>)
    returns (queue': Frontier, visited': set<string>)
    requires forall k :: 0 <= k < |nbrs| ==> nbrs[k].0 in g
    requires InGraph(g, queue) && visited <= g.Keys
    ensures (queue', visited') == Expand(g, nbrs, path, queue, visited)
  {
    queue', visited' := queue, visited;
    var k := 0;
    while k < |nbrs|
      invariant 0 <= k <= |nbrs|
      invariant InGraph(g, queue') && visited' <= g.Keys
      invariant Expand(g, nbrs[k..], path, queue', visited') == Expand(g, nbrs, path, queue, visited)
    {
      var next := nbrs[k].0;
      assert nbrs[k..][1..] == nbrs[k + 1..];
      if next !in visited' {
        queue' := queue' + [(next, path + [next])];
        visited' := visited' + {next};
      }
      k := k + 1;
    }
    assert nbrs[k..] == [];
  }

  /** The stations of a frontier, in queue order. */
  function Stations(q: Frontier): (r: seq<string>)
    ensures |r| == |q| && forall i :: 0 <= i < |q| ==> r[i] == q[i].0
  {
    seq(|q|, i requires 0 <= i < |q| => q[i].0)
  }

  /**
   * One expansion keeps the old queue as a prefix and appends only
   * stations that were unvisited, each with the path extended by it, each
   * at most once, each now visited; and every station it marks visited is
   * among those appended.
   */
  lemma {:induction false} ExpandEnqueuesOnce(g: Graph, nbrs: seq<(string, int)>, path: seq<string>,
                                             queue: Frontier, visited: set<string>)
    requires forall k :: 0 <= k < |nbrs| ==> nbrs[k].0 in g
    requires InGraph(g, queue) && visited <= g.Keys
    ensures var r := Expand(g, nbrs, path, queue, visited);
      && |queue| <= |r.0| && r.0[..|queue|] == queue
      && (forall i :: |queue| <= i < |r.0| ==>
            r.0[i].0 !in visited && r.0[i].0 in r.1 && r.0[i].1 == path + [r.0[i].0])
      && (forall i, j :: |queue| <= i < j < |r.0| ==> r.0[i].0 != r.0[j].0)
      && (forall v :: v in r.1 && v !in visited ==> exists i :: |queue| <= i < |r.0| && r.0[i].0 == v)
    decreases |nbrs|
  {
    if nbrs != [] {
      var n := nbrs[0].0;
      if n in visited {
        ExpandEnqueuesOnce(g, nbrs[1..], path, queue, visited);
      } else {
        var q1 := queue + [(n, path + [n])];
        ExpandEnqueuesOnce(g, nbrs[1..], path, q1, visited + {n});
        var r := Expand(g, nbrs, path, queue, visited);
        assert r.0[..|q1|] == q1;
        assert r.0[..|queue|] == q1[..|queue|] == queue;
        assert r.0[|queue|] == q1[|queue|];
        forall v | v in r.1 && v !in visited ensures exists i :: |queue| <= i < |r.0| && r.0[i].0 == v {
          if v == n {
            assert r.0[|queue|].0 == v;
          }
        }
      }
    }
  }

  /**
   * The stations breadth-first search appends to its queue from the given
   * state until it answers, in the order it appends them.
   */
  ghost function BfsPushes(g: Graph, goal: string, queue: Frontier, visited: set<string>): seq<string>
    requires Closed(g) && InGraph(g, queue) && visited <= g.Keys
    decreases |g.Keys - visited|, |queue|
  {
    if queue == [] || queue[0].0 == goal then []
    else
      var rest := queue[1..];
      var r := Expand(g, g[queue[0].0], queue[0].1, rest, visited);
      ExpandEnqueuesOnce(g, g[queue[0].0], queue[0].1, rest, visited);
      if r.1 != visited then
        ProperSubsetSmaller(g.Keys - r.1, g.Keys - visited);
        Stations(r.0[|rest|..]) + BfsPushes(g, goal, r.0, r.1)
      else
        BfsPushes(g, goal, r.0, r.1)
  }

  /** The stations appended past the old queue q, read off the new queue q'. */
  lemma AppendedStations(q: Frontier, q': Frontier, visited: set<string>, visited': set<string>)
    requires |q| <= |q'|
    requires forall i :: |q| <= i < |q'| ==> q'[i].0 !in visited && q'[i].0 in visited'
    requires forall i, j :: |q| <= i < j < |q'| ==> q'[i].0 != q'[j].0
    ensures var a := Stations(q'[|q|..]);
      && (forall i :: 0 <= i < |a| ==> a[i] !in visited && a[i] in visited')
      && (forall i, j :: 0 <= i < j < |a| ==> a[i] != a[j])
  {
    var a := Stations(q'[|q|..]);
    assert forall i :: 0 <= i < |a| ==> a[i] == q'[|q| + i].0;
  }

  /**
   * Stations appended by one expansion, fresh and now visited, followed by
   * stations appended later, none visited by then, hold no repeat and
   * nothing visited before the expansion.
   */
  lemma FreshThenLater(added: seq<string>, later: seq<string>, visited: set<string>, visited': set<string>)
    requires visited <= visited'
    requires forall i :: 0 <= i < |added| ==> added[i] !in visited && added[i] in visited'
    requires forall i, j :: 0 <= i < j < |added| ==> added[i] != added[j]
    requires forall i :: 0 <= i < |later| ==> later[i] !in visited'
    requires forall i, j :: 0 <= i < j < |later| ==> later[i] != later[j]
    ensures forall i :: 0 <= i < |added + later| ==> (added + later)[i] !in visited
    ensures forall i, j :: 0 <= i < j < |added + later| ==> (added + later)[i] != (added + later)[j]
  {
    var ps := added + later;
    forall i, j | 0 <= i < j < |ps| ensures ps[i] != ps[j] {
      if i < |added| && j >= |added| {
        assert ps[i] == added[i] && ps[j] == later[j - |added|];
      }
    }
  }

  /**
   * From any state, the search appends only stations not yet visited, and
   * no station twice.
   */
  lemma {:induction false} BfsPushesFresh(g: Graph, goal: string, queue: Frontier, visited: set<string>)
    requires Closed(g) && InGraph(g, queue) && visited <= g.Keys
    ensures forall i :: 0 <= i < |BfsPushes(g, goal, queue, visited)| ==>
      BfsPushes(g, goal, queue, visited)[i] !in visited
    ensures forall i, j :: 0 <= i < j < |BfsPushes(g, goal, queue, visited)| ==>
      BfsPushes(g, goal, queue, visited)[i] != BfsPushes(g, goal, queue, visited)[j]
    decreases |g.Keys - visited|, |queue|
  {
    if queue != [] && queue[0].0 != goal {
      var rest := queue[1..];
      var r := Expand(g, g[queue[0].0], queue[0].1, rest, visited);
      ExpandEnqueuesOnce(g, g[queue[0].0], queue[0].1, rest, visited);
      if r.1 != visited {
        ProperSubsetSmaller(g.Keys - r.1, g.Keys - visited);
        BfsPushesFresh(g, goal, r.0, r.1);
        var later := BfsPushes(g, goal, r.0, r.1);
        AppendedStations(rest, r.0, visited, r.1);
        FreshThenLater(Stations(r.0[|rest|..]), later, visited, r.1);
      } else {
        BfsPushesFresh(g, goal, r.0, r.1);
        assert BfsPushes(g, goal, queue, visited) == BfsPushes(g, goal, r.0, r.1);
      }
    }
  }

  /**
   * One round of the search, when the head of the queue is not the goal
   * and its expansion gives r: the answer is the answer from r; the
   * stations appended are those r appends past the rest of the queue,
   * followed by those appended from r on; and the search has progressed.
   */
  lemma BfsRound(g: Graph, goal: string, queue: Frontier, visited: set<string>, r: (Frontier, set<string>))
    requires Closed(g) && InGraph(g, queue) && visited <= g.Keys
    requires queue != [] && queue[0].0 != goal
    requires r == Expand(g, g[queue[0].0], queue[0].1, queue[1..], visited)
    ensures |queue| - 1 <= |r.0| && InGraph(g, r.0) && r.1 <= g.Keys
    ensures BfsRun(g, goal, queue, visited) == BfsRun(g, goal, r.0, r.1)
    ensures BfsPushes(g, goal, queue, visited) == Stations(r.0[|queue| - 1..]) + BfsPushes(g, goal, r.0, r.1)
    ensures |g.Keys - r.1| < |g.Keys - visited| || (r.1 == visited && |r.0| < |queue|)
  {
    ExpandEnqueuesOnce(g, g[queue[0].0], queue[0].1, queue[1..], visited);
    if r.1 == visited {
      assert r.0[|queue| - 1..] == [];
    } else {
      ProperSubsetSmaller(g.Keys - r.1, g.Keys - visited);
    }
  }

  /**
   * Over a whole fewest-hops query no station is appended to the queue
   * twice.  The start is not marked when it is placed in the initial queue,
   * so it can be appended, and then marked, once more: it may occur twice
   * in all, counting the initial queue, and every other station at most
   * once.
   */
  lemma FewestHopsEnqueuesOnce(g: Graph, start: string, goal: string)
    requires Closed(g) && start in g && goal in g
    ensures var ps := BfsPushes(g, goal, [(start, [start])], {});
      forall i, j :: 0 <= i < j < |ps| ==> ps[i] != ps[j]
  {
    BfsPushesFresh(g, goal, [(start, [start])], {});
  }

  /** Expanding cur from neighbour m to the end keeps the search state. */
  lemma {:induction false} ExpandKeeps(g: Graph, s: string, goal: string, cur: string, path: seq<string>, m: nat,
                                      queue: Frontier, visited: set<string>, done: set<string>)
    requires ExpandState(g, s, goal, cur, path, m, queue, visited, done)
    ensures var r := Expand(g, g[cur][m..], path, queue, visited);
      ExpandState(g, s, goal, cur, path, |g[cur]|, r.0, r.1, done)
    decreases |g[cur]| - m
  {
    if m < |g[cur]| {
      var next := g[cur][m].0;
      BfsPush(g, s, goal, cur, path, m, queue, visited, done);
      assert g[cur][m..][1..] == g[cur][m + 1..];
      if next in visited {
        ExpandKeeps(g, s, goal, cur, path, m + 1, queue, visited, done);
      } else {
        ExpandKeeps(g, s, goal, cur, path, m + 1, queue + [(next, path + [next])], visited + {next}, done);
      }
    } else {
      assert g[cur][m..] == [];
    }
  }

  /** When every neighbour of cur has been dealt with, the state between rounds is restored. */
  lemma BfsExpanded(g: Graph, s: string, goal: string, cur: string, path: seq<string>,
                    queue: Frontier, visited: set<string>, done: set<string>)
    requires cur in g && ExpandState(g, s, goal, cur, path, |g[cur]|, queue, visited, done)
    ensures BfsState(g, s, goal, queue, visited, done)
  {
  }

  /** A search that meets the goal at the head of its queue holds a route with fewest hops to it. */
  lemma BfsFound(g: Graph, s: string, goal: string, queue: Frontier, visited: set<string>, done: set<string>)
    requires BfsState(g, s, goal, queue, visited, done) && queue != [] && queue[0].0 == goal
    ensures IsFewestHopsRoute(g, queue[0].1, s, goal)
    ensures BfsRun(g, goal, queue, visited) == Some(queue[0].1)
  {
  }

  /**
   * A search whose queue runs dry has expanded every station reachable
   * from the start; as the goal was never expanded, it is unreachable.
   */
  lemma BfsExhausted(g: Graph, s: string, goal: string, visited: set<string>, done: set<string>)
    requires BfsState(g, s, goal, [], visited, done)
    ensures forall t :: Reachable(g, s, t) ==> t in done
    ensures !Reachable(g, s, goal)
  {
    forall t, p | IsRoute(g, p, s, t) ensures t in done {
      ClosedSetHoldsRoutes(g, done, s, p, t);
    }
  }

  /**
   * From any state the invariant describes, the search answers with a
   * route of fewest hops exactly when the goal is reachable.
   */
  lemma {:induction false} BfsRunCorrect(g: Graph, s: string, goal: string, queue: Frontier,
                                        visited: set<string>, done: set<string>)
    requires BfsState(g, s, goal, queue, visited, done)
    ensures BfsRun(g, goal, queue, visited).Some? <==> Reachable(g, s, goal)
    ensures BfsRun(g, goal, queue, visited).Some? ==>
      IsFewestHopsRoute(g, BfsRun(g, goal, queue, visited).value, s, goal)
    decreases |g.Keys - visited|, |queue|
  {
    if queue == [] {
      BfsExhausted(g, s, goal, visited, done);
    } else if queue[0].0 == goal {
      BfsFound(g, s, goal, queue, visited, done);
    } else {
      var cur, path := queue[0].0, queue[0].1;
      BfsPop(g, s, goal, queue, visited, done);
      assert g[cur][0..] == g[cur];
      ExpandKeeps(g, s, goal, cur, path, 0, queue[1..], visited, done + {cur});
      var r := Expand(g, g[cur], path, queue[1..], visited);
      BfsExpanded(g, s, goal, cur, path, r.0, r.1, done + {cur});
      if r.1 != visited {
        ProperSubsetSmaller(g.Keys - r.1, g.Keys - visited);
      }
      BfsRunCorrect(g, s, goal, r.0, r.1, done + {cur});
    }
  }

  /**
   * The fewest-hops query finds a route exactly when both stations exist
   * and the goal is reachable, the route it finds has fewest hops, and a
   * query from a station to itself answers with that station alone.
   */
  lemma FewestHopsSearchCorrect(g: Graph, s: string, goal: string)
    requires Closed(g)
    ensures FewestHopsSearch(g, s, goal).Some? <==> s in g && goal in g && Reachable(g, s, goal)
    ensures FewestHopsSearch(g, s, goal).Some? ==> IsFewestHopsRoute(g, FewestHopsSearch(g, s, goal).value, s, goal)
    ensures s in g && goal == s ==> FewestHopsSearch(g, s, goal) == Some([s])
  {
    if s in g && goal in g {
      var queue: Frontier := [(s, [s])];
      assert IsRoute(g, [s], s, s);
      BfsRunCorrect(g, s, goal, queue, {}, {});
    }
  }

  /**
   * A priority-queue entry of the fastest search: accumulated minutes, the
   * station reached and the path to it.  The ghost field records the
   * minutes of each hop taken, so that the entry's route can be re-timed.
   */
  datatype Entry = Entry(time: int, station: string, path: seq<string>, ghost minutes: seq<int>)

  /**
   * The position a pop of the priority queue takes: an entry of least time,
   * the earliest such one when several tie.
   */
  function FirstMinIndex(pq: seq<Entry>): (i: nat)
    requires |pq| > 0
    ensures i < |pq|
    ensures forall j :: 0 <= j < |pq| ==> pq[i].time <= pq[j].time
    ensures forall j :: 0 <= j < i ==> pq[i].time < pq[j].time
  {
    if |pq| == 1 then 0
    else
      var k := FirstMinIndex(pq[..|pq| - 1]);
      if pq[|pq| - 1].time < pq[k].time then |pq| - 1 else k
  }

  /** The queue left after popping position i: the other entries, in their order. */
  function Without(pq: seq<Entry>, i: nat): (r: seq<Entry>)
    requires i < |pq|
    ensures |r| == |pq| - 1
    ensures forall j :: 0 <= j < i ==> r[j] == pq[j]
    ensures forall j :: i < j < |pq| ==> r[j - 1] == pq[j]
  {
    pq[..i] + pq[i + 1..]
  }

  /** The entry pushed for neighbour entry n of the station of e. */
  function Relax(e: Entry, n: (string, int)): Entry {
    Entry(e.time + n.1, n.0, e.path + [n.0], e.minutes + [n.1])
  }

  /** The entries pushed when the station of e is expanded, in list order. */
  ghost function Successors(e: Entry, nbrs: seq<(string, int)>): seq<Entry> {
    seq(|nbrs|, j requires 0 <= j < |nbrs| => Relax(e, nbrs[j]))
  }

  /** Pushes one relaxed entry per connection in nbrs, in list order, after the entries of pq. */
  method PushSuccessors(e: Entry, nbrs: seq<(string, int)>, pq: seq<Entry>) returns (pq': seq<Entry>)
    ensures pq' == pq + Successors(e, nbrs)
  {
    pq' := pq;
    for k := 0 to |nbrs|
      invariant pq' == pq + Successors(e, nbrs[..k])
    {
      assert Successors(e, nbrs[..k + 1]) == Successors(e, nbrs[..k]) + [Relax(e, nbrs[k])];
      pq' := pq' + [Relax(e, nbrs[k])];
    }
    assert nbrs[..|nbrs|] == nbrs;
  }

  /** Every queue entry is for a station of the graph. */
  ghost predicate QueueInGraph(g: Graph, pq: seq<Entry>) {
    forall j :: 0 <= j < |pq| ==> pq[j].station in g
  }

  /** No queue entry is earlier than any finalised time. */
  ghost predicate Settled(pq: seq<Entry>, best: map<string, int>) {
    forall j, v :: 0 <= j < |pq| && v in best ==> best[v] <= pq[j].time
  }

  /**
   * Every connection out of a finalised station to a station not yet
   * finalised is represented in the queue by an entry no later than the
   * finalised time plus the connection's minutes.
   */
  ghost predicate Covered(g: Graph, pq: seq<Entry>, best: map<string, int>) {
    forall u, k :: u in best && u in g && 0 <= k < |g[u]| && g[u][k].0 !in best ==>
      exists j :: 0 <= j < |pq| && pq[j].station == g[u][k].0 && pq[j].time <= best[u] + g[u][k].1
  }

  /** The uniform-cost search loop, from a given queue and finalised map, to its answer. */
  ghost function DijkstraRun(g: Graph, goal: string, pq: seq<Entry>, best: map<string, int>): Option<(seq<string>, int)>
    requires Closed(g) && NonNegative(g) && best.Keys <= g.Keys
    requires QueueInGraph(g, pq) && Settled(pq, best)
    decreases |g.Keys - best.Keys|, |pq|
  {
    if pq == [] then None
    else
      var i := FirstMinIndex(pq);
      var e, rest := pq[i], Without(pq, i);
      PopKeepsSettled(g, pq, best, i);
      if e.station in best && best[e.station] <= e.time then DijkstraRun(g, goal, rest, best)
      else if e.station == goal then Some((e.path, e.time))
      else
        var best' := best[e.station := e.time];
        assert best'.Keys == best.Keys + {e.station};
        ProperSubsetSmaller(g.Keys - best'.Keys, g.Keys - best.Keys);
        DijkstraRun(g, goal, rest + Successors(e, g[e.station]), best')
  }

  /**
   * Popping a least entry (position i) keeps the queue settled.  When the
   * entry is not dropped, its station is new to the finalised map, and
   * finalising it and pushing its successors keeps the queue settled too.
   */
  lemma PopKeepsSettled(g: Graph, pq: seq<Entry>, best: map<string, int>, i: nat)
    requires Closed(g) && NonNegative(g)
    requires QueueInGraph(g, pq) && Settled(pq, best)
    requires i < |pq| && forall j :: 0 <= j < |pq| ==> pq[i].time <= pq[j].time
    ensures QueueInGraph(g, Without(pq, i)) && Settled(Without(pq, i), best)
    ensures !(pq[i].station in best && best[pq[i].station] <= pq[i].time) ==>
      && pq[i].station !in best
      && QueueInGraph(g, Without(pq, i) + Successors(pq[i], g[pq[i].station]))
      && Settled(Without(pq, i) + Successors(pq[i], g[pq[i].station]), best[pq[i].station := pq[i].time])
  {
    var e, rest := pq[i], Without(pq, i);
    forall j | 0 <= j < |rest| ensures rest[j] == pq[if j < i then j else j + 1] {
    }
    if !(e.station in best && best[e.station] <= e.time) {
      var next := rest + Successors(e, g[e.station]);
      forall j | 0 <= j < |next| ensures next[j].station in g && e.time <= next[j].time {
        if j >= |rest| {
          assert next[j] == Relax(e, g[e.station][j - |rest|]);
        }
      }
    }
  }

  /**
   * One pop of the search: the loop's answer from (pq, best) is its answer
   * after dropping, or finalising and expanding, the least entry, or that
   * entry's route when it reaches the goal.
   */
  lemma DijkstraRunStep(g: Graph, goal: string, pq: seq<Entry>, best: map<string, int>)
    requires Closed(g) && NonNegative(g) && best.Keys <= g.Keys
    requires QueueInGraph(g, pq) && Settled(pq, best) && pq != []
    ensures var i := FirstMinIndex(pq);
      var e, rest := pq[i], Without(pq, i);
      && QueueInGraph(g, rest) && Settled(rest, best)
      && (e.station in best && best[e.station] <= e.time ==>
            DijkstraRun(g, goal, pq, best) == DijkstraRun(g, goal, rest, best))
      && (!(e.station in best && best[e.station] <= e.time) ==>
            && e.station !in best
            && QueueInGraph(g, rest + Successors(e, g[e.station]))
            && Settled(rest + Successors(e, g[e.station]), best[e.station := e.time])
            && (e.station == goal ==> DijkstraRun(g, goal, pq, best) == Some((e.path, e.time)))
            && (e.station != goal ==>
                  DijkstraRun(g, goal, pq, best) ==
                  DijkstraRun(g, goal, rest + Successors(e, g[e.station]), best[e.station := e.time])))
  {
    PopKeepsSettled(g, pq, best, FirstMinIndex(pq));
  }

  /** The fastest-route query: no route for an unknown key, else the search from (0, start, [start]). */
  ghost function FastestSearch(g: Graph, start: string, goal: string): Option<(seq<string>, int)>
    requires Closed(g) && NonNegative(g)
  {
    if start !in g || goal !in g then None
    else DijkstraRun(g, goal, [Entry(0, start, [start], [])], map[])
  }

  /**
   * The cut argument of uniform-cost search.  With non-negative times, if
   * every finalised time is optimal and the queue covers every connection
   * leaving the finalised stations, then every timed route from the start
   * to a station not yet finalised is matched by a queue entry that is no
   * later than the route.
   */
  lemma {:induction false} FrontierCut(g: Graph, s: string, pq: seq<Entry>, best: map<string, int>,
                                      p: seq<string>, ws: seq<int>, t: string) returns (j: nat)
    requires NonNegative(g)
    requires IsTimedRoute(g, p, ws, s, t) && t !in best
    requires forall v :: v in best ==> NoFasterRoute(g, s, v, best[v])
    requires Covered(g, pq, best)
    requires s !in best ==> pq == [Entry(0, s, [s], [])]
    ensures j < |pq| && pq[j].time <= Sum(ws)
    decreases |p|
  {
    if |p| == 1 {
      j := 0;
      assert ws == [];
    } else {
      TimedPrefix(g, p, ws, s, t);
      var u, p', ws' := p[|p| - 2], p[..|p| - 1], ws[..|ws| - 1];
      var w := ws[|ws| - 1];
      assert (p[|p| - 1], ws[|ws| - 1]) in g[p[|p| - 2]];
      var k :| 0 <= k < |g[u]| && g[u][k] == (t, w);
      if u in best {
        assert best[u] <= Sum(ws');
        j :| 0 <= j < |pq| && pq[j].station == t && pq[j].time <= best[u] + w;
      } else {
        j := FrontierCut(g, s, pq, best, p', ws', u);
      }
    }
  }

  /** Every queue entry carries a timed route from s to its station, taking its time. */
  ghost predicate TimedEntries(g: Graph, s: string, pq: seq<Entry>) {
    forall j :: 0 <= j < |pq| ==>
      IsTimedRoute(g, pq[j].path, pq[j].minutes, s, pq[j].station) && Sum(pq[j].minutes) == pq[j].time
  }

  /** Every finalised time is the least time of any route from s. */
  ghost predicate Optimal(g: Graph, s: string, best: map<string, int>) {
    forall v :: v in best ==> NoFasterRoute(g, s, v, best[v])
  }

  /** The state of the fastest search between pops. */
  ghost predicate DijkstraState(g: Graph, s: string, goal: string, pq: seq<Entry>, best: map<string, int>) {
    && Closed(g) && NonNegative(g) && s in g && goal in g && best.Keys <= g.Keys
    && QueueInGraph(g, pq) && Settled(pq, best) && TimedEntries(g, s, pq)
    && Optimal(g, s, best) && Covered(g, pq, best)
    && (s !in best ==> pq == [Entry(0, s, [s], [])])
    && goal !in best
  }

  /** A least entry for a station not yet finalised has the least time of any route to it. */
  lemma PopIsOptimal(g: Graph, s: string, goal: string, pq: seq<Entry>, best: map<string, int>, i: nat)
    requires DijkstraState(g, s, goal, pq, best)
    requires i < |pq| && (forall j :: 0 <= j < |pq| ==> pq[i].time <= pq[j].time) && pq[i].station !in best
    ensures NoFasterRoute(g, s, pq[i].station, pq[i].time)
  {
    forall p, ws | IsTimedRoute(g, p, ws, s, pq[i].station) ensures pq[i].time <= Sum(ws) {
      var j := FrontierCut(g, s, pq, best, p, ws, pq[i].station);
    }
  }

  /** Removing an entry keeps every other entry's timed route. */
  lemma WithoutKeepsTimed(g: Graph, s: string, pq: seq<Entry>, i: nat)
    requires TimedEntries(g, s, pq) && i < |pq|
    ensures TimedEntries(g, s, Without(pq, i))
  {
    var rest := Without(pq, i);
    forall j | 0 <= j < |rest| ensures rest[j] == pq[if j < i then j else j + 1] {
    }
  }

  /** The entries pushed for the connections of e's station extend e's timed route by one hop each. */
  lemma SuccessorsTimed(g: Graph, s: string, rest: seq<Entry>, e: Entry)
    requires Closed(g) && e.station in g && TimedEntries(g, s, rest)
    requires IsTimedRoute(g, e.path, e.minutes, s, e.station) && Sum(e.minutes) == e.time
    ensures TimedEntries(g, s, rest + Successors(e, g[e.station]))
  {
    var pq' := rest + Successors(e, g[e.station]);
    forall j | 0 <= j < |pq'|
      ensures IsTimedRoute(g, pq'[j].path, pq'[j].minutes, s, pq'[j].station) && Sum(pq'[j].minutes) == pq'[j].time
    {
      if j < |rest| {
        assert pq'[j] == rest[j];
      } else {
        assert pq'[j] == Relax(e, g[e.station][j - |rest|]);
        ExtendTimedRoute(g, e.path, e.minutes, s, e.station, j - |rest|);
      }
    }
  }

  /** Removing an entry whose station is finalised keeps the cover of the unfinalised stations. */
  lemma SkipKeepsCovered(g: Graph, pq: seq<Entry>, best: map<string, int>, i: nat)
    requires Covered(g, pq, best) && i < |pq| && pq[i].station in best
    ensures Covered(g, Without(pq, i), best)
  {
    var rest := Without(pq, i);
    forall u, k | u in best && u in g && 0 <= k < |g[u]| && g[u][k].0 !in best
      ensures exists j :: 0 <= j < |rest| && rest[j].station == g[u][k].0 && rest[j].time <= best[u] + g[u][k].1
    {
      var j :| 0 <= j < |pq| && pq[j].station == g[u][k].0 && pq[j].time <= best[u] + g[u][k].1;
      var j' := if j < i then j else j - 1;
      assert rest[j'] == pq[j];
    }
  }

  /**
   * Finalising the station of entry i at its time, removing the entry and
   * pushing one entry per connection of the station keeps the cover.
   */
  lemma SettleKeepsCovered(g: Graph, pq: seq<Entry>, best: map<string, int>, i: nat)
    requires Covered(g, pq, best) && i < |pq| && pq[i].station !in best && pq[i].station in g
    ensures Covered(g, Without(pq, i) + Successors(pq[i], g[pq[i].station]), best[pq[i].station := pq[i].time])
  {
    var e, rest := pq[i], Without(pq, i);
    var u0 := e.station;
    var pq', best' := rest + Successors(e, g[u0]), best[u0 := e.time];
    forall u, k | u in best' && u in g && 0 <= k < |g[u]| && g[u][k].0 !in best'
      ensures exists j :: 0 <= j < |pq'| && pq'[j].station == g[u][k].0 && pq'[j].time <= best'[u] + g[u][k].1
    {
      if u == u0 {
        assert pq'[|rest| + k] == Relax(e, g[u0][k]);
      } else {
        var j :| 0 <= j < |pq| && pq[j].station == g[u][k].0 && pq[j].time <= best[u] + g[u][k].1;
        var j' := if j < i then j else j - 1;
        assert pq'[j'] == pq[j];
      }
    }
  }

  /** Dropping a least entry whose station is already finalised no later keeps the state. */
  lemma DijkstraSkip(g: Graph, s: string, goal: string, pq: seq<Entry>, best: map<string, int>, i: nat)
    requires DijkstraState(g, s, goal, pq, best)
    requires i < |pq| && (forall j :: 0 <= j < |pq| ==> pq[i].time <= pq[j].time)
    requires pq[i].station in best && best[pq[i].station] <= pq[i].time
    ensures DijkstraState(g, s, goal, Without(pq, i), best)
  {
    PopKeepsSettled(g, pq, best, i);
    WithoutKeepsTimed(g, s, pq, i);
    SkipKeepsCovered(g, pq, best, i);
    assert s in best;
  }

  /**
   * Finalising a least entry for a new station other than the goal and
   * pushing one entry per connection of that station keeps the state.
   */
  lemma DijkstraSettle(g: Graph, s: string, goal: string, pq: seq<Entry>, best: map<string, int>, i: nat)
    requires DijkstraState(g, s, goal, pq, best)
    requires i < |pq| && (forall j :: 0 <= j < |pq| ==> pq[i].time <= pq[j].time)
    requires !(pq[i].station in best && best[pq[i].station] <= pq[i].time) && pq[i].station != goal
    ensures DijkstraState(g, s, goal, Without(pq, i) + Successors(pq[i], g[pq[i].station]),
                          best[pq[i].station := pq[i].time])
  {
    PopKeepsSettled(g, pq, best, i);
    PopIsOptimal(g, s, goal, pq, best, i);
    WithoutKeepsTimed(g, s, pq, i);
    SuccessorsTimed(g, s, Without(pq, i), pq[i]);
    SettleKeepsCovered(g, pq, best, i);
  }

  /** A least entry for the goal, not yet finalised, carries a fastest route to it. */
  lemma DijkstraFound(g: Graph, s: string, goal: string, pq: seq<Entry>, best: map<string, int>, i: nat)
    requires DijkstraState(g, s, goal, pq, best)
    requires i < |pq| && (forall j :: 0 <= j < |pq| ==> pq[i].time <= pq[j].time) && pq[i].station == goal
    ensures IsTimedRoute(g, pq[i].path, pq[i].minutes, s, goal) && Sum(pq[i].minutes) == pq[i].time
    ensures NoFasterRoute(g, s, goal, pq[i].time) && Reachable(g, s, goal)
  {
    PopIsOptimal(g, s, goal, pq, best, i);
    TimedRouteIsRoute(g, pq[i].path, pq[i].minutes, s, goal);
  }

  /** While some route leads to a station not yet finalised, the queue is not empty. */
  lemma RouteKeepsQueue(g: Graph, s: string, pq: seq<Entry>, best: map<string, int>)
    requires NonNegative(g) && Optimal(g, s, best) && Covered(g, pq, best)
    requires s !in best ==> pq == [Entry(0, s, [s], [])]
    ensures forall t :: Reachable(g, s, t) && t !in best ==> pq != []
  {
    forall t | Reachable(g, s, t) && t !in best ensures pq != [] {
      var p :| IsRoute(g, p, s, t);
      var ws := RouteHasTimes(g, p, s, t);
      var j := FrontierCut(g, s, pq, best, p, ws, t);
    }
  }

  /**
   * r answers the fastest-route question from s to goal: it is present
   * exactly when the goal is reachable, and then it is a timed route
   * taking the reported minutes that no route beats.
   */
  ghost predicate FastestAnswer(g: Graph, s: string, goal: string, r: Option<(seq<string>, int)>) {
    && (r.Some? <==> Reachable(g, s, goal))
    && (r.Some? ==>
          && (exists ws :: IsTimedRoute(g, r.value.0, ws, s, goal) && Sum(ws) == r.value.1)
          && NoFasterRoute(g, s, goal, r.value.1))
  }

  /**
   * From any state the invariant describes, the search answers exactly
   * when the goal is reachable, with a timed route to it whose time no
   * route beats.
   */
  lemma {:induction false} DijkstraRunCorrect(g: Graph, s: string, goal: string, pq: seq<Entry>, best: map<string, int>)
    requires DijkstraState(g, s, goal, pq, best)
    ensures FastestAnswer(g, s, goal, DijkstraRun(g, goal, pq, best))
    decreases |g.Keys - best.Keys|, |pq|, 1
  {
    if pq == [] {
      RouteKeepsQueue(g, s, pq, best);
    } else {
      var i := FirstMinIndex(pq);
      if pq[i].station in best && best[pq[i].station] <= pq[i].time {
        SkipAnswers(g, s, goal, pq, best);
      } else if pq[i].station == goal {
        DijkstraFound(g, s, goal, pq, best, i);
      } else {
        SettleAnswers(g, s, goal, pq, best);
      }
    }
  }

  /** DijkstraRunCorrect when the least entry is dropped. */
  lemma {:induction false} SkipAnswers(g: Graph, s: string, goal: string, pq: seq<Entry>, best: map<string, int>)
    requires DijkstraState(g, s, goal, pq, best) && pq != []
    requires pq[FirstMinIndex(pq)].station in best && best[pq[FirstMinIndex(pq)].station] <= pq[FirstMinIndex(pq)].time
    ensures FastestAnswer(g, s, goal, DijkstraRun(g, goal, pq, best))
    decreases |g.Keys - best.Keys|, |pq|, 0
  {
    var i := FirstMinIndex(pq);
    DijkstraSkip(g, s, goal, pq, best, i);
    DijkstraRunCorrect(g, s, goal, Without(pq, i), best);
  }

  /** DijkstraRunCorrect when the least entry finalises a new station other than the goal. */
  lemma {:induction false} SettleAnswers(g: Graph, s: string, goal: string, pq: seq<Entry>, best: map<string, int>)
    requires DijkstraState(g, s, goal, pq, best) && pq != []
    requires !(pq[FirstMinIndex(pq)].station in best && best[pq[FirstMinIndex(pq)].station] <= pq[FirstMinIndex(pq)].time)
    requires pq[FirstMinIndex(pq)].station != goal
    ensures FastestAnswer(g, s, goal, DijkstraRun(g, goal, pq, best))
    decreases |g.Keys - best.Keys|, |pq|, 0
  {
    var i := FirstMinIndex(pq);
    var e := pq[i];
    PopKeepsSettled(g, pq, best, i);
    DijkstraSettle(g, s, goal, pq, best, i);
    var best' := best[e.station := e.time];
    assert best'.Keys == best.Keys + {e.station};
    ProperSubsetSmaller(g.Keys - best'.Keys, g.Keys - best.Keys);
    DijkstraRunCorrect(g, s, goal, Without(pq, i) + Successors(e, g[e.station]), best');
  }

  /**
   * The fastest-route query answers exactly when both stations exist and
   * the goal is reachable; its answer is a timed route taking the reported
   * minutes that no route beats; a query from a station to itself answers
   * with that station alone and no minutes.
   */
  lemma FastestSearchCorrect(g: Graph, s: string, goal: string)
    requires Closed(g) && NonNegative(g)
    ensures FastestAnswer(g, s, goal, FastestSearch(g, s, goal))
    ensures FastestSearch(g, s, goal).Some? ==> s in g && goal in g
    ensures s in g && goal == s ==> FastestSearch(g, s, goal) == Some(([s], 0))
  {
    if s in g && goal in g {
      var pq := [Entry(0, s, [s], [])];
      assert IsTimedRoute(g, [s], [], s, s);
      DijkstraRunCorrect(g, s, goal, pq, map[]);
    }
  }
}
