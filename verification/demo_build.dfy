/**
 * The script part of the simulator, in imperative form: the network built by
 * six station registrations and six connections, and its two queries from M1
 * to M5.
 */
module DemoBuild {
  import opened Graphs
  import opened RouteSearch
  import opened Metro
  import opened Demo

  /** The connection list of each of six stations a..f, and no other station. */
  ghost predicate SixLists(g: Graph, a: string, b: string, c: string, d: string, e: string, f: string,
                           la: seq<(string, int)>, lb: seq<(string, int)>, lc: seq<(string, int)>,
                           ld: seq<(string, int)>, le: seq<(string, int)>, lf: seq<(string, int)>) {
    && g.Keys == {a, b, c, d, e, f}
    && g[a] == la && g[b] == lb && g[c] == lc && g[d] == ld && g[e] == le && g[f] == lf
  }

  /** Six distinct station keys. */
  ghost predicate Distinct6(a: string, b: string, c: string, d: string, e: string, f: string) {
    && a != b && a != c && a != d && a != e && a != f && b != c && b != d && b != e && b != f
    && c != d && c != e && c != f && d != e && d != f && e != f
  }

  /** The first three connections of the script (lines 116-118) on six unconnected stations a..f. */
  lemma LinkFirstThree(a: string, b: string, c: string, d: string, e: string, f: string, g0: Graph)
    requires Distinct6(a, b, c, d, e, f) && SixLists(g0, a, b, c, d, e, f, [], [], [], [], [], [])
    ensures SixLists(Link(Link(Link(g0, a, b, 4), b, c, 2), c, d, 6), a, b, c, d, e, f,
                     [(b, 4)], [(a, 4), (c, 2)], [(b, 2), (d, 6)], [(c, 6)], [], [])
  {
    var g1 := Link(g0, a, b, 4);
    assert [] + [(b, 4)] == [(b, 4)] && [] + [(a, 4)] == [(a, 4)];
    assert SixLists(g1, a, b, c, d, e, f, [(b, 4)], [(a, 4)], [], [], [], []);
    var g2 := Link(g1, b, c, 2);
    assert [] + [(b, 2)] == [(b, 2)];
    assert SixLists(g2, a, b, c, d, e, f, [(b, 4)], [(a, 4), (c, 2)], [(b, 2)], [], [], []);
    assert [] + [(c, 6)] == [(c, 6)];
  }

  /** The last three connections of the script (lines 119-121), after the first three. */
  lemma LinkLastThree(a: string, b: string, c: string, d: string, e: string, f: string, g3: Graph)
    requires Distinct6(a, b, c, d, e, f)
    requires SixLists(g3, a, b, c, d, e, f, [(b, 4)], [(a, 4), (c, 2)], [(b, 2), (d, 6)], [(c, 6)], [], [])
    ensures SixLists(Link(Link(Link(g3, d, e, 8), e, f, 10), c, f, 5), a, b, c, d, e, f,
                     [(b, 4)], [(a, 4), (c, 2)], [(b, 2), (d, 6), (f, 5)], [(c, 6), (e, 8)],
                     [(d, 8), (f, 10)], [(e, 10), (c, 5)])
  {
    var g4 := Link(g3, d, e, 8);
    assert [] + [(d, 8)] == [(d, 8)];
    assert SixLists(g4, a, b, c, d, e, f, [(b, 4)], [(a, 4), (c, 2)], [(b, 2), (d, 6)], [(c, 6), (e, 8)], [(d, 8)], []);
    var g5 := Link(g4, e, f, 10);
    assert [] + [(e, 10)] == [(e, 10)];
    assert SixLists(g5, a, b, c, d, e, f, [(b, 4)], [(a, 4), (c, 2)], [(b, 2), (d, 6)], [(c, 6), (e, 8)],
                    [(d, 8), (f, 10)], [(e, 10)]);
  }

  /** The demo lists are those of the connections made on the stations M1..M6. */
  lemma DemoListsAreDemoGraph(g: Graph)
    requires SixLists(g, "M1", "M2", "M3", "M4", "M5", "M6",
                      [("M2", 4)], [("M1", 4), ("M3", 2)], [("M2", 2), ("M4", 6), ("M6", 5)],
                      [("M3", 6), ("M5", 8)], [("M4", 8), ("M6", 10)], [("M5", 10), ("M3", 5)])
    ensures g == DemoGraph()
  {
  }

  /** The display names the script gives the stations M1..M6. */
  predicate DemoNames(stations: map<string, Station>)
    reads stations.Values
  {
    && stations.Keys == {"M1", "M2", "M3", "M4", "M5", "M6"}
    && stations["M1"].name == "Üsküdar" && stations["M2"].name == "Sirkeci"
    && stations["M3"].name == "Yenikapı" && stations["M4"].name == "Bayrampaşa"
    && stations["M5"].name == "Sultangazi" && stations["M6"].name == "Şişli-Mecidiyeköy"
  }

  /** Registering six distinct keys on an empty network gives each an empty connection list. */
  lemma SixRegistered(g0: Graph, g: Graph, a: string, b: string, c: string, d: string, e: string, f: string)
    requires g0.Keys == {} && Distinct6(a, b, c, d, e, f)
    requires g == g0[a := []][b := []][c := []][d := []][e := []][f := []]
    ensures SixLists(g, a, b, c, d, e, f, [], [], [], [], [], [])
  {
  }

  /** Registers a new station with key k, name n and line h. */
  method RegisterNew(net: Network, k: string, n: string, h: string)
    requires net.Valid() && k !in net.stations
    modifies net
    ensures net.Valid() && fresh(net.Repr - old(net.Repr))
    ensures k in net.stations && net.stations == old(net.stations)[k := net.stations[k]]
    ensures net.stations[k].name == n
    ensures net.graph == old(net.graph)[k := []]
  {
    net.AddStation(k, n, h);
  }

  /** Registers two new stations with distinct keys a and b, names na and nb and lines ha and hb. */
  method RegisterTwo(net: Network, a: string, b: string, na: string, nb: string, ha: string, hb: string)
    requires net.Valid() && a != b && a !in net.stations && b !in net.stations
    modifies net
    ensures net.Valid() && fresh(net.Repr - old(net.Repr))
    ensures a in net.stations && b in net.stations
    ensures net.stations == old(net.stations)[a := net.stations[a]][b := net.stations[b]]
    ensures net.stations[a].name == na && net.stations[b].name == nb
    ensures net.graph == old(net.graph)[a := []][b := []]
  {
    RegisterNew(net, a, na, ha);
    RegisterNew(net, b, nb, hb);
  }

  /**
   * Registers three new stations with distinct keys a, b, c, names na, nb,
   * nc and lines ha, hb, hc, in that order.
   */
  method RegisterThree(net: Network, a: string, b: string, c: string,
                       na: string, nb: string, nc: string, ha: string, hb: string, hc: string)
    requires net.Valid() && a != b && a != c && b != c
    requires a !in net.stations && b !in net.stations && c !in net.stations
    modifies net
    ensures net.Valid() && fresh(net.Repr - old(net.Repr))
    ensures a in net.stations && b in net.stations && c in net.stations
    ensures net.stations == old(net.stations)[a := net.stations[a]][b := net.stations[b]][c := net.stations[c]]
    ensures net.stations[a].name == na && net.stations[b].name == nb && net.stations[c].name == nc
    ensures net.graph == old(net.graph)[a := []][b := []][c := []]
  {
    RegisterTwo(net, a, b, na, nb, ha, hb);
    RegisterNew(net, c, nc, hc);
  }

  /** Makes the six connections of the script (lines 116-121) between the registered stations. */
  method ConnectDemoStations(net: Network)
    requires net.Valid() && net.stations.Keys == {"M1", "M2", "M3", "M4", "M5", "M6"}
    requires SixLists(net.graph, "M1", "M2", "M3", "M4", "M5", "M6", [], [], [], [], [], [])
    modifies net, net.stations.Values
    ensures net.Valid() && net.Repr == old(net.Repr) && net.stations == old(net.stations)
    ensures net.graph == DemoGraph()
  {
    ghost var g0 := net.graph;
    var o1 := net.Connect("M1", "M2", 4);
    var o2 := net.Connect("M2", "M3", 2);
    var o3 := net.Connect("M3", "M4", 6);
    LinkFirstThree("M1", "M2", "M3", "M4", "M5", "M6", g0);
    var o4 := net.Connect("M4", "M5", 8);
    var o5 := net.Connect("M5", "M6", 10);
    var o6 := net.Connect("M3", "M6", 5);
    LinkLastThree("M1", "M2", "M3", "M4", "M5", "M6", Link(Link(Link(g0, "M1", "M2", 4), "M2", "M3", 2), "M3", "M4", 6));
    DemoListsAreDemoGraph(net.graph);
  }

  /** Registers the six stations of the script (lines 109-114) on a network with none. */
  method RegisterDemoStations(net: Network)
    requires net.Valid() && net.stations == map[]
    modifies net
    ensures net.Valid() && fresh(net.Repr - old(net.Repr))
    ensures DemoNames(net.stations)
    ensures SixLists(net.graph, "M1", "M2", "M3", "M4", "M5", "M6", [], [], [], [], [], [])
  {
    ghost var g0 := net.graph;
    RegisterThree(net, "M1", "M2", "M3", "Üsküdar", "Sirkeci", "Yenikapı", "Marmaray", "Marmaray", "Marmaray");
    ghost var s1 := net.stations;
    RegisterThree(net, "M4", "M5", "M6", "Bayrampaşa", "Sultangazi", "Şişli-Mecidiyeköy", "M1B", "M7", "M2");
    assert net.stations["M1"] == s1["M1"] && net.stations["M2"] == s1["M2"] && net.stations["M3"] == s1["M3"];
    SixRegistered(g0, net.graph, "M1", "M2", "M3", "M4", "M5", "M6");
  }

  /** The network the script builds: the six stations, then the six connections. */
  method BuildDemo() returns (net: Network)
    ensures net.Valid() && net.graph == DemoGraph() && DemoNames(net.stations)
  {
    net := new Network();
    RegisterDemoStations(net);
    ConnectDemoStations(net);
  }

  /** The display names along M1-M2-M3-M4-M5. */
  lemma DemoRouteNames(net: Network)
    requires DemoNames(net.stations)
    ensures net.RouteNames(["M1", "M2", "M3", "M4", "M5"]) ==
            ["Üsküdar", "Sirkeci", "Yenikapı", "Bayrampaşa", "Sultangazi"]
  {
    var names := net.RouteNames(["M1", "M2", "M3", "M4", "M5"]);
    assert names[0] == "Üsküdar" && names[1] == "Sirkeci" && names[2] == "Yenikapı";
    assert names[3] == "Bayrampaşa" && names[4] == "Sultangazi";
  }

  /**
   * The script's two queries from M1 (Üsküdar) to M5 (Sultangazi) on the
   * network it builds (lines 123-138, without the console output).
   */
  method DemoQueries() returns (fewest: Option<seq<string>>, fastest: Option<(seq<string>, int)>)
    ensures fewest == Some(["Üsküdar", "Sirkeci", "Yenikapı", "Bayrampaşa", "Sultangazi"])
    ensures fastest == Some((["Üsküdar", "Sirkeci", "Yenikapı", "Bayrampaşa", "Sultangazi"], 20))
  {
    var net := BuildDemo();
    DemoFewest(net.graph, "M1", "M5");
    DemoFastest(net.graph, "M1", "M5");
    ghost var hops, timed;
    fewest, hops := net.FewestTransfers("M1", "M5");
    fastest, timed := net.FastestRoute("M1", "M5");
    DemoRouteNames(net);
  }
}
