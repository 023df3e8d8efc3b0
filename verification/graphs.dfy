/**
 * The metro network seen as a value: every station key is mapped to its
 * ordered neighbour list of (neighbour key, minutes) pairs.  This module
 * holds the graph notions the routing queries are specified with (routes,
 * timed routes, reachability, symmetry) and the facts proved about them.
 */
module Graphs {

  datatype Option<T> = None | Some(value: T)

  /** Station key -> ordered list of (neighbour key, travel minutes). */
  type Graph = map<string, seq<(string, int)>>

  /** Every neighbour entry names a station that is itself in the graph. */
  ghost predicate Closed(g: Graph) {
    forall u, k :: u in g && 0 <= k < |g[u]| ==> g[u][k].0 in g
  }

  /** All travel times are non-negative. */
  ghost predicate NonNegative(g: Graph) {
    forall u, k :: u in g && 0 <= k < |g[u]| ==> g[u][k].1 >= 0
  }

  /** How many (v, w) entries the neighbour list of u holds. */
  function EdgeCount(g: Graph, u: string, v: string, w: int): nat
    requires u in g
  {
    multiset(g[u])[(v, w)]
  }

  /** Connections are two-way: u lists (v, w) exactly as often as v lists (u, w). */
  ghost predicate Symmetric(g: Graph) {
    forall u, v, w :: u in g && v in g ==> EdgeCount(g, u, v, w) == EdgeCount(g, v, u, w)
  }

  /** v occurs in the neighbour list of u (with some travel time). */
  ghost predicate HasEdge(g: Graph, u: string, v: string) {
    u in g && exists k :: 0 <= k < |g[u]| && g[u][k].0 == v
  }

  /** A non-empty sequence of stations, each one a neighbour of the one before. */
  ghost predicate IsWalk(g: Graph, p: seq<string>) {
    && |p| > 0
    && (forall i :: 0 <= i < |p| ==> p[i] in g)
    && (forall i :: 0 <= i < |p| - 1 ==> HasEdge(g, p[i], p[i + 1]))
  }

  /** A walk from s to t. */
  ghost predicate IsRoute(g: Graph, p: seq<string>, s: string, t: string) {
    IsWalk(g, p) && p[0] == s && p[|p| - 1] == t
  }

  ghost predicate Reachable(g: Graph, s: string, t: string) {
    exists p :: IsRoute(g, p, s, t)
  }

  /** Every route from s to t visits at least n stations. */
  ghost predicate NoShorterRoute(g: Graph, s: string, t: string, n: int) {
    forall q :: IsRoute(g, q, s, t) ==> n <= |q|
  }

  /** A route from s to t with fewest stations (hence fewest hops). */
  ghost predicate IsFewestHopsRoute(g: Graph, p: seq<string>, s: string, t: string) {
    IsRoute(g, p, s, t) && NoShorterRoute(g, s, t, |p|)
  }

  /**
   * A route together with the travel time of the connection taken at every
   * hop: ws[i] is the time of an entry (p[i + 1], ws[i]) of p[i]'s list.
   */
  ghost predicate IsTimedRoute(g: Graph, p: seq<string>, ws: seq<int>, s: string, t: string) {
    && |p| > 0 && p[0] == s && p[|p| - 1] == t
    && (forall i :: 0 <= i < |p| ==> p[i] in g)
    && |ws| == |p| - 1
    && (forall i :: 0 <= i < |ws| ==> (p[i + 1], ws[i]) in g[p[i]])
  }

  /** Total travel time, summed from the back so that appending a hop adds its time. */
  function Sum(ws: seq<int>): int {
    if ws == [] then 0 else Sum(ws[..|ws| - 1]) + ws[|ws| - 1]
  }

  /** Every timed route from s to t takes at least c minutes. */
  ghost predicate NoFasterRoute(g: Graph, s: string, t: string, c: int) {
    forall p, ws :: IsTimedRoute(g, p, ws, s, t) ==> c <= Sum(ws)
  }

  /**
   * The graph after connecting a and b with travel time w: a's list gains
   * (b, w), then b's list gains (a, w).  For a == b the one list gains both.
   */
  function Link(g: Graph, a: string, b: string, w: int): (r: Graph)
    requires a in g && b in g
    ensures r.Keys == g.Keys
    ensures forall k :: k in g && k != a && k != b ==> r[k] == g[k]
    ensures a != b ==> r[a] == g[a] + [(b, w)] && r[b] == g[b] + [(a, w)]
    ensures a == b ==> r[a] == g[a] + [(b, w), (a, w)]
    ensures forall k :: k in g ==> g[k] <= r[k]
  {
    var g1 := g[a := g[a] + [(b, w)]];
    g1[b := g1[b] + [(a, w)]]
  }

  /** Adding a station with no connections keeps the graph closed and symmetric. */
  lemma AddStationKeepsShape(g: Graph, key: string)
    requires Closed(g) && Symmetric(g) && key !in g
    ensures Closed(g[key := []]) && Symmetric(g[key := []])
  {
    var g' := g[key := []];
    forall u, v, w | u in g' && v in g'
      ensures EdgeCount(g', u, v, w) == EdgeCount(g', v, u, w)
    {
      if u != key && v != key {
        assert EdgeCount(g, u, v, w) == EdgeCount(g, v, u, w);
      } else if u != key {
        assert (key, w) !in g[u];
      } else if v != key {
        assert (key, w) !in g[v];
      }
    }
  }

  /** Connecting two stations of a closed graph keeps it closed. */
  lemma LinkKeepsClosed(g: Graph, a: string, b: string, w: int)
    requires Closed(g) && a in g && b in g
    ensures Closed(Link(g, a, b, w))
  {
    var r: Graph := Link(g, a, b, w);
    forall u: string, k: int | u in r && 0 <= k < |r[u]| ensures r[u][k].0 in r {
      if k < |g[u]| {
        assert r[u][k] == g[u][k];
      }
    }
  }

  /** Connecting two stations keeps every connection two-way. */
  lemma {:induction false} LinkKeepsSymmetric(g: Graph, a: string, b: string, w: int)
    requires Symmetric(g) && a in g && b in g
    ensures Symmetric(Link(g, a, b, w))
  {
    var r: Graph := Link(g, a, b, w);
    forall u, v, x | u in r && v in r
      ensures EdgeCount(r, u, v, x) == EdgeCount(r, v, u, x)
    {
      assert EdgeCount(g, u, v, x) == EdgeCount(g, v, u, x);
      if a == b {
        assert multiset(r[a]) == multiset(g[a]) + multiset{(a, w), (a, w)};
      } else {
        assert multiset(r[a]) == multiset(g[a]) + multiset{(b, w)};
        assert multiset(r[b]) == multiset(g[b]) + multiset{(a, w)};
      }
    }
  }

  /** Extending a route by one neighbour of its last station gives a route. */
  lemma ExtendRoute(g: Graph, p: seq<string>, s: string, u: string, k: int)
    requires IsRoute(g, p, s, u) && Closed(g) && 0 <= k < |g[u]|
    ensures IsRoute(g, p + [g[u][k].0], s, g[u][k].0)
  {
    var q := p + [g[u][k].0];
    forall i | 0 <= i < |q| - 1 ensures HasEdge(g, q[i], q[i + 1]) {
      if i < |p| - 1 {
        assert q[i] == p[i] && q[i + 1] == p[i + 1];
      }
    }
  }

  /** Extending a timed route by one entry (v, w) of its last station's list. */
  lemma ExtendTimedRoute(g: Graph, p: seq<string>, ws: seq<int>, s: string, u: string, k: int)
    requires IsTimedRoute(g, p, ws, s, u) && Closed(g) && 0 <= k < |g[u]|
    ensures IsTimedRoute(g, p + [g[u][k].0], ws + [g[u][k].1], s, g[u][k].0)
    ensures Sum(ws + [g[u][k].1]) == Sum(ws) + g[u][k].1
  {
    var q, vs := p + [g[u][k].0], ws + [g[u][k].1];
    assert vs[..|vs| - 1] == ws;
    forall i | 0 <= i < |vs| ensures (q[i + 1], vs[i]) in g[q[i]] {
      if i < |ws| {
        assert q[i] == p[i] && q[i + 1] == p[i + 1] && vs[i] == ws[i];
      } else {
        assert q[i] == u && g[u][k] == (q[i + 1], vs[i]);
      }
    }
  }

  /** A timed route is a route. */
  lemma {:induction false} TimedRouteIsRoute(g: Graph, p: seq<string>, ws: seq<int>, s: string, t: string)
    requires IsTimedRoute(g, p, ws, s, t)
    ensures IsRoute(g, p, s, t)
  {
    forall i | 0 <= i < |p| - 1 ensures HasEdge(g, p[i], p[i + 1]) {
      var k :| 0 <= k < |g[p[i]]| && g[p[i]][k] == (p[i + 1], ws[i]);
    }
  }

  /** Every route can be timed by picking, for each hop, one connection it uses. */
  lemma {:induction false} RouteHasTimes(g: Graph, p: seq<string>, s: string, t: string) returns (ws: seq<int>)
    requires IsRoute(g, p, s, t)
    ensures IsTimedRoute(g, p, ws, s, t)
    decreases |p|
  {
    if |p| == 1 {
      ws := [];
    } else {
      var p' := p[..|p| - 1];
      var u := p'[|p'| - 1];
      assert IsWalk(g, p') by {
        forall i | 0 <= i < |p'| - 1 ensures HasEdge(g, p'[i], p'[i + 1]) {
          assert HasEdge(g, p[i], p[i + 1]);
        }
      }
      var ws' := RouteHasTimes(g, p', s, u);
      assert HasEdge(g, p[|p| - 2], p[|p| - 1]);
      var k :| 0 <= k < |g[u]| && g[u][k].0 == t;
      ws := ws' + [g[u][k].1];
      assert p == p' + [t];
      forall i | 0 <= i < |ws| ensures (p[i + 1], ws[i]) in g[p[i]] {
        if i < |ws'| {
          assert p[i] == p'[i] && p[i + 1] == p'[i + 1] && ws[i] == ws'[i];
        } else {
          assert g[u][k] == (p[i + 1], ws[i]);
        }
      }
    }
  }

  /**
   * If a set of stations contains s and every neighbour of each of its
   * members, every route from s ends inside it.
   */
  lemma {:induction false} ClosedSetHoldsRoutes(g: Graph, S: set<string>, s: string, p: seq<string>, t: string)
    requires s in S
    requires forall u, k :: u in S && u in g && 0 <= k < |g[u]| ==> g[u][k].0 in S
    requires IsRoute(g, p, s, t)
    ensures t in S
    decreases |p|
  {
    if |p| > 1 {
      var p' := p[..|p| - 1];
      var u := p'[|p'| - 1];
      assert IsWalk(g, p') by {
        forall i | 0 <= i < |p'| - 1 ensures HasEdge(g, p'[i], p'[i + 1]) {
          assert HasEdge(g, p[i], p[i + 1]);
        }
      }
      ClosedSetHoldsRoutes(g, S, s, p', u);
      assert HasEdge(g, p[|p| - 2], p[|p| - 1]);
    }
  }

  /** A shorter prefix of a walk is a walk. */
  lemma WalkPrefix(g: Graph, p: seq<string>, n: int)
    requires IsWalk(g, p) && 0 < n <= |p|
    ensures IsWalk(g, p[..n])
  {
    forall i | 0 <= i < n - 1 ensures HasEdge(g, p[..n][i], p[..n][i + 1]) {
      assert HasEdge(g, p[i], p[i + 1]);
    }
  }

  /** Dropping the last hop of a timed route leaves a timed route that is no slower. */
  lemma TimedPrefix(g: Graph, p: seq<string>, ws: seq<int>, s: string, t: string)
    requires IsTimedRoute(g, p, ws, s, t) && |p| > 1
    ensures IsTimedRoute(g, p[..|p| - 1], ws[..|ws| - 1], s, p[|p| - 2])
    ensures Sum(ws) == Sum(ws[..|ws| - 1]) + ws[|ws| - 1]
  {
    var p', ws' := p[..|p| - 1], ws[..|ws| - 1];
    forall i | 0 <= i < |ws'| ensures (p'[i + 1], ws'[i]) in g[p'[i]] {
      assert (p[i + 1], ws[i]) in g[p[i]];
    }
  }

  /**
   * pot is a lower-bound certificate for routes from s: it gives every
   * station a value, s the value 0, and no connection leads to a station
   * whose value exceeds the value of its origin plus the connection's minutes.
   */
  ghost predicate Feasible(g: Graph, pot: map<string, int>, s: string) {
    && s in pot && pot[s] == 0
    && (forall v :: v in g ==> v in pot)
    && (forall u, k :: u in g && 0 <= k < |g[u]| && g[u][k].0 in pot ==> pot[g[u][k].0] <= pot[u] + g[u][k].1)
  }

  /** Under a feasible certificate, every timed route from s to t takes at least the value of t. */
  lemma {:induction false} PotentialBound(g: Graph, pot: map<string, int>, s: string, p: seq<string>, ws: seq<int>, t: string)
    requires Feasible(g, pot, s) && IsTimedRoute(g, p, ws, s, t)
    ensures t in pot && pot[t] <= Sum(ws)
    decreases |p|
  {
    if |p| == 1 {
      assert ws == [];
    } else {
      TimedPrefix(g, p, ws, s, t);
      var u := p[|p| - 2];
      PotentialBound(g, pot, s, p[..|p| - 1], ws[..|ws| - 1], u);
      assert (t, ws[|ws| - 1]) in g[u] by {
        assert (p[|p| - 1], ws[|ws| - 1]) in g[p[|p| - 2]];
      }
      var k :| 0 <= k < |g[u]| && g[u][k] == (t, ws[|ws| - 1]);
    }
  }

  /**
   * A timed route whose minutes meet the certificate's bound exactly uses
   * only connections along which the value rises by exactly their minutes.
   */
  lemma {:induction false} TightRoute(g: Graph, pot: map<string, int>, s: string, p: seq<string>, ws: seq<int>, t: string)
    requires Feasible(g, pot, s) && IsTimedRoute(g, p, ws, s, t) && Sum(ws) == pot[t]
    ensures forall i :: 0 <= i < |ws| ==> pot[p[i + 1]] == pot[p[i]] + ws[i]
    decreases |p|
  {
    if |p| > 1 {
      TimedPrefix(g, p, ws, s, t);
      var u := p[|p| - 2];
      PotentialBound(g, pot, s, p[..|p| - 1], ws[..|ws| - 1], u);
      assert (t, ws[|ws| - 1]) in g[u] by {
        assert (p[|p| - 1], ws[|ws| - 1]) in g[p[|p| - 2]];
      }
      var k :| 0 <= k < |g[u]| && g[u][k] == (t, ws[|ws| - 1]);
      TightRoute(g, pot, s, p[..|p| - 1], ws[..|ws| - 1], u);
    }
  }

  /** A proper subset of a finite set is strictly smaller. */
  lemma ProperSubsetSmaller<T>(a: set<T>, b: set<T>)
    requires a < b
    ensures |a| < |b|
  {
    var x :| x in b && x !in a;
    assert a <= b - {x};
    SubsetNoLarger(a, b - {x});
  }

  lemma {:induction false} SubsetNoLarger<T>(a: set<T>, b: set<T>)
    requires a <= b
    ensures |a| <= |b|
    decreases |a|
  {
    if a != {} {
      var x :| x in a;
      SubsetNoLarger(a - {x}, b - {x});
    }
  }
}
