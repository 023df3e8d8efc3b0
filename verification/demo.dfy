/**
 * The network the script builds (six stations on four lines, six
 * connections), as a graph value, and the answers of both reference searches
 * from M1 to M5 on it.
 */
module Demo {
  import opened Graphs
  import opened RouteSearch

  function DemoGraph(): (g: Graph)
    ensures Closed(g) && NonNegative(g)
  {
    map["M1" := [("M2", 4)],
        "M2" := [("M1", 4), ("M3", 2)],
        "M3" := [("M2", 2), ("M4", 6), ("M6", 5)],
        "M4" := [("M3", 6), ("M5", 8)],
        "M5" := [("M4", 8), ("M6", 10)],
        "M6" := [("M5", 10), ("M3", 5)]]
  }

  /** The three expansions the breadth-first search from M1 makes first: M1, M2 and M1 again. */
  lemma DemoOpeningExpansions()
    ensures var g := DemoGraph();
      && Expand(g, g["M1"], ["M1"], [], {}) == ([("M2", ["M1", "M2"])], {"M2"})
      && Expand(g, g["M2"], ["M1", "M2"], [], {"M2"}) ==
         ([("M1", ["M1", "M2", "M1"]), ("M3", ["M1", "M2", "M3"])], {"M1", "M2", "M3"})
      && Expand(g, g["M1"], ["M1", "M2", "M1"], [("M3", ["M1", "M2", "M3"])], {"M1", "M2", "M3"}) ==
         ([("M3", ["M1", "M2", "M3"])], {"M1", "M2", "M3"})
  {
    var g := DemoGraph();
    var p1, p2, p3, p21 := ["M1"], ["M1", "M2"], ["M1", "M2", "M3"], ["M1", "M2", "M1"];
    assert p1 + ["M2"] == p2 && p2 + ["M1"] == p21 && p2 + ["M3"] == p3;
    var v1, v3 := {"M2"}, {"M1", "M2", "M3"};
    assert {} + {"M2"} == v1 && v1 + {"M1"} + {"M3"} == v3;
    assert [] + [("M2", p2)] == [("M2", p2)];
    assert [] + [("M1", p21)] + [("M3", p3)] == [("M1", p21), ("M3", p3)];
    assert g["M1"][1..] == [] && g["M2"][1..][1..] == [];
  }

  /** The three expansions that follow: M3, M4 and M6. */
  lemma DemoClosingExpansions()
    ensures var g := DemoGraph();
      && Expand(g, g["M3"], ["M1", "M2", "M3"], [], {"M1", "M2", "M3"}) ==
         ([("M4", ["M1", "M2", "M3", "M4"]), ("M6", ["M1", "M2", "M3", "M6"])], {"M1", "M2", "M3", "M4", "M6"})
      && Expand(g, g["M4"], ["M1", "M2", "M3", "M4"], [("M6", ["M1", "M2", "M3", "M6"])], {"M1", "M2", "M3", "M4", "M6"}) ==
         ([("M6", ["M1", "M2", "M3", "M6"]), ("M5", ["M1", "M2", "M3", "M4", "M5"])], {"M1", "M2", "M3", "M4", "M5", "M6"})
      && Expand(g, g["M6"], ["M1", "M2", "M3", "M6"], [("M5", ["M1", "M2", "M3", "M4", "M5"])], {"M1", "M2", "M3", "M4", "M5", "M6"}) ==
         ([("M5", ["M1", "M2", "M3", "M4", "M5"])], {"M1", "M2", "M3", "M4", "M5", "M6"})
  {
    var g := DemoGraph();
    var p3 := ["M1", "M2", "M3"];
    var p4, p6, p5 := ["M1", "M2", "M3", "M4"], ["M1", "M2", "M3", "M6"], ["M1", "M2", "M3", "M4", "M5"];
    assert p3 + ["M4"] == p4 && p3 + ["M6"] == p6 && p4 + ["M5"] == p5;
    var v3, v4 := {"M1", "M2", "M3"}, {"M1", "M2", "M3", "M4", "M6"};
    assert v3 + {"M4"} + {"M6"} == v4 && v4 + {"M5"} == {"M1", "M2", "M3", "M4", "M5", "M6"};
    assert [] + [("M4", p4)] + [("M6", p6)] == [("M4", p4), ("M6", p6)];
    assert [("M6", p6)] + [("M5", p5)] == [("M6", p6), ("M5", p5)];
    assert g["M3"][1..][1..][1..] == [] && g["M4"][1..][1..] == [] && g["M6"][1..][1..] == [];
  }

  lemma DemoFewestOpening(g: Graph, goal: string)
    requires g == DemoGraph() && goal == "M5"
    ensures BfsRun(g, goal, [("M1", ["M1"])], {}) == BfsRun(g, goal, [("M3", ["M1", "M2", "M3"])], {"M1", "M2", "M3"})
  {
    DemoOpeningExpansions();
    var p2, p3, p21 := ["M1", "M2"], ["M1", "M2", "M3"], ["M1", "M2", "M1"];
    var v3 := {"M1", "M2", "M3"};
    var q0, q1, q2: Frontier := [("M1", ["M1"])], [("M2", p2)], [("M1", p21), ("M3", p3)];
    assert q0[1..] == [] && q1[1..] == [] && q2[1..] == [("M3", p3)];
    BfsRound(g, goal, q0, {}, (q1, {"M2"}));
    BfsRound(g, goal, q1, {"M2"}, (q2, v3));
    BfsRound(g, goal, q2, v3, ([("M3", p3)], v3));
  }

  lemma DemoFewestClosing(g: Graph, goal: string)
    requires g == DemoGraph() && goal == "M5"
    ensures BfsRun(g, goal, [("M3", ["M1", "M2", "M3"])], {"M1", "M2", "M3"}) == Some(["M1", "M2", "M3", "M4", "M5"])
  {
    DemoClosingExpansions();
    var p4, p6, p5 := ["M1", "M2", "M3", "M4"], ["M1", "M2", "M3", "M6"], ["M1", "M2", "M3", "M4", "M5"];
    var v4, v5 := {"M1", "M2", "M3", "M4", "M6"}, {"M1", "M2", "M3", "M4", "M5", "M6"};
    var q4: Frontier := [("M4", p4), ("M6", p6)];
    var q5: Frontier := [("M6", p6), ("M5", p5)];
    assert q4[1..] == [("M6", p6)] && q5[1..] == [("M5", p5)];
    assert BfsRun(g, goal, q5, v5) == Some(p5);
    assert BfsRun(g, goal, q4, v4) == BfsRun(g, goal, q5, v5);
  }

  lemma DemoFewest(g: Graph, start: string, goal: string)
    requires g == DemoGraph() && start == "M1" && goal == "M5"
    ensures FewestHopsSearch(g, start, goal) == Some(["M1", "M2", "M3", "M4", "M5"])
  {
    DemoFewestOpening(g, goal);
    DemoFewestClosing(g, goal);
  }

  /** The fastest time from M1 to each station of the demo network. */
  function DemoTimes(): map<string, int> {
    map["M1" := 0, "M2" := 4, "M3" := 6, "M4" := 12, "M5" := 20, "M6" := 11]
  }

  lemma DemoTimesFeasible()
    ensures Feasible(DemoGraph(), DemoTimes(), "M1")
  {
    var g: Graph, pot: map<string, int> := DemoGraph(), DemoTimes();
    forall u, k | u in g && 0 <= k < |g[u]| && g[u][k].0 in pot
      ensures pot[g[u][k].0] <= pot[u] + g[u][k].1
    {
      assert u == "M1" || u == "M2" || u == "M3" || u == "M4" || u == "M5" || u == "M6";
    }
  }

  /** The route the demo answers, M1-M2-M3-M4-M5, taking 4 + 2 + 6 + 8 minutes. */
  lemma DemoRouteTimed()
    ensures IsTimedRoute(DemoGraph(), ["M1", "M2", "M3", "M4", "M5"], [4, 2, 6, 8], "M1", "M5")
    ensures Sum([4, 2, 6, 8]) == 20
  {
    var g := DemoGraph();
    assert ("M2", 4) in g["M1"] && ("M3", 2) in g["M2"] && ("M4", 6) in g["M3"] && ("M5", 8) in g["M4"];
    assert [4][..0] == [] && [4, 2][..1] == [4] && [4, 2, 6][..2] == [4, 2] && [4, 2, 6, 8][..3] == [4, 2, 6];
    assert Sum([4]) == 4 && Sum([4, 2]) == 6 && Sum([4, 2, 6]) == 12;
  }

  /** The alternative M1-M2-M3-M6-M5 is a route too, taking 21 minutes. */
  lemma DemoRouteViaM6()
    ensures IsTimedRoute(DemoGraph(), ["M1", "M2", "M3", "M6", "M5"], [4, 2, 5, 10], "M1", "M5")
    ensures Sum([4, 2, 5, 10]) == 21
  {
    var g := DemoGraph();
    assert ("M2", 4) in g["M1"] && ("M3", 2) in g["M2"] && ("M6", 5) in g["M3"] && ("M5", 10) in g["M6"];
    assert [4][..0] == [] && [4, 2][..1] == [4] && [4, 2, 5][..2] == [4, 2] && [4, 2, 5, 10][..3] == [4, 2, 5];
    assert Sum([4]) == 4 && Sum([4, 2]) == 6 && Sum([4, 2, 5]) == 11;
  }

  /**
   * The connections along which the fastest times rise by exactly their
   * minutes: M1 to M2, M2 to M3, M3 to M4, M4 to M5 (and M3 to M6); none
   * leads into M1.
   */
  lemma DemoTightConnections(u: string, v: string, w: int)
    requires u in DemoGraph() && (v, w) in DemoGraph()[u] && v in DemoTimes()
    requires DemoTimes()[v] == DemoTimes()[u] + w
    ensures v != "M1"
    ensures v == "M2" ==> u == "M1"
    ensures v == "M3" ==> u == "M2"
    ensures v == "M4" ==> u == "M3"
    ensures v == "M5" ==> u == "M4"
  {
    assert u == "M1" || u == "M2" || u == "M3" || u == "M4" || u == "M5" || u == "M6";
  }

  /** The only route from M1 to M5 taking 20 minutes is M1-M2-M3-M4-M5. */
  lemma DemoTwentyMinuteRoute(g: Graph, p: seq<string>, ws: seq<int>)
    requires g == DemoGraph() && IsTimedRoute(g, p, ws, "M1", "M5") && Sum(ws) == 20
    ensures p == ["M1", "M2", "M3", "M4", "M5"]
  {
    DemoTimesFeasible();
    TightRoute(g, DemoTimes(), "M1", p, ws, "M5");
    var n := |p|;
    DemoTightConnections(p[n - 2], p[n - 1], ws[n - 2]);
    DemoTightConnections(p[n - 3], p[n - 2], ws[n - 3]);
    DemoTightConnections(p[n - 4], p[n - 3], ws[n - 4]);
    DemoTightConnections(p[n - 5], p[n - 4], ws[n - 5]);
    if n > 5 {
      DemoTightConnections(p[n - 6], p[n - 5], ws[n - 6]);
    }
  }

  /** No fastest time from M1 to M5 exceeds the 20 minutes of M1-M2-M3-M4-M5. */
  lemma DemoAtMostTwenty(g: Graph, t: int)
    requires g == DemoGraph() && NoFasterRoute(g, "M1", "M5", t)
    ensures t <= 20
  {
    DemoRouteTimed();
    assert IsTimedRoute(g, ["M1", "M2", "M3", "M4", "M5"], [4, 2, 6, 8], "M1", "M5");
  }

  lemma DemoFastest(g: Graph, start: string, goal: string)
    requires g == DemoGraph() && start == "M1" && goal == "M5"
    ensures FastestSearch(g, start, goal) == Some((["M1", "M2", "M3", "M4", "M5"], 20))
  {
    DemoTimesFeasible();
    DemoRouteTimed();
    TimedRouteIsRoute(g, ["M1", "M2", "M3", "M4", "M5"], [4, 2, 6, 8], start, goal);
    FastestSearchCorrect(g, start, goal);
    var r := FastestSearch(g, start, goal);
    var ws :| IsTimedRoute(g, r.value.0, ws, start, goal) && Sum(ws) == r.value.1;
    DemoAtMostTwenty(g, r.value.1);
    PotentialBound(g, DemoTimes(), start, r.value.0, ws, goal);
    DemoTwentyMinuteRoute(g, r.value.0, ws);
  }
}
