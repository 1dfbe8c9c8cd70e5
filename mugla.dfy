/**
 * The shipped data of data.js:2-72: Muğla's thirteen districts and the
 * authored road table, with what the builder and the search make of them.
 * Districts are numbered in the key order of the district table.
 */
module Mugla {
  import opened Graph
  import opened RoadGraph
  import opened ShortestPath

  /** The district keys, in table order; a district's number is its place here. */
  const DistrictNames: seq<string> := [
    "Bodrum", "Dalaman", "Datça", "Fethiye", "Kavaklıdere", "Köyceğiz", "Marmaris",
    "Menteşe", "Milas", "Ortaca", "Seydikemer", "Ula", "Yatağan"
  ]

  /** How many districts there are. */
  const Count: nat := 13

  const Bodrum: nat := 0
  const Dalaman: nat := 1
  const Datca: nat := 2
  const Fethiye: nat := 3
  const Kavaklidere: nat := 4
  const Koycegiz: nat := 5
  const Marmaris: nat := 6
  const Mentese: nat := 7
  const Milas: nat := 8
  const Ortaca: nat := 9
  const Seydikemer: nat := 10
  const Ula: nat := 11
  const Yatagan: nat := 12

  /** The authored road table, keys and lists in source order; lengths in km. */
  const Authored: seq<Roads> := [
    Roads(Bodrum, [Edge(Milas, 52)]),
    Roads(Dalaman, [Edge(Ortaca, 15)]),
    Roads(Datca, [Edge(Marmaris, 70)]),
    Roads(Fethiye, [Edge(Seydikemer, 25), Edge(Ortaca, 50)]),
    Roads(Kavaklidere, [Edge(Mentese, 27), Edge(Yatagan, 13)]),
    Roads(Koycegiz, [Edge(Ortaca, 20)]),
    Roads(Marmaris, [Edge(Datca, 70), Edge(Ula, 45)]),
    Roads(Mentese, [Edge(Ula, 17), Edge(Yatagan, 25), Edge(Kavaklidere, 27)]),
    Roads(Milas, [Edge(Bodrum, 52), Edge(Yatagan, 43)]),
    Roads(Ortaca, [Edge(Dalaman, 15), Edge(Koycegiz, 20), Edge(Fethiye, 50)]),
    Roads(Seydikemer, [Edge(Fethiye, 25)]),
    Roads(Ula, [Edge(Mentese, 17), Edge(Marmaris, 45), Edge(Koycegiz, 45)]),
    Roads(Yatagan, [Edge(Mentese, 25), Edge(Kavaklidere, 13), Edge(Milas, 43)])
  ]

  /** Every key of the road table is a district and so is every road's target; key `u` is district `u`. */
  lemma AuthoredWellFormed()
    ensures |DistrictNames| == |Authored| == Count && WellFormed(Count, Authored)
    ensures forall u :: 0 <= u < |Authored| ==> Authored[u].from == u && Authored[u].edges != []
  {
  }

  /** No district of the shipped data is left without a road, so nothing is warned about. */
  lemma NoDistrictIsolated()
    ensures ArcsIn(Count, Arcs(Authored))
    ensures forall u :: 0 <= u < Count ==> Build(Count, Arcs(Authored))[u] != []
  {
    AuthoredWellFormed();
    AuthoredKept(Count, Authored);
    forall u | 0 <= u < Count ensures Build(Count, Arcs(Authored))[u] != [] {
      assert Authored[u].edges[0] in Build(Count, Arcs(Authored))[Authored[u].from];
    }
  }

  /** data.js:107-108: the shipped table's undirected closure, with no district warned about. */
  method ShippedGraph() returns (bidirectional: Adjacency, isolated: set<nat>)
    ensures ArcsIn(Count, Arcs(Authored)) && bidirectional == Build(Count, Arcs(Authored))
    ensures Symmetric(bidirectional)
    ensures isolated == {}
  {
    AuthoredWellFormed();
    bidirectional, isolated := CreateBidirectionalGraph(Count, Authored);
    NoDistrictIsolated();
  }

  /**
   * Milas→Bodrum is authored after Bodrum→Milas already put Bodrum into
   * Milas's list, so Milas's list names Bodrum twice.
   */
  lemma MilasNamesBodrumTwice()
    ensures ArcsIn(Count, Arcs(Authored))
    ensures
      var list := Build(Count, Arcs(Authored))[Milas];
      exists x, y :: 0 <= x < y < |list| && list[x].node == Bodrum && list[y].node == Bodrum
  {
    AuthoredWellFormed();
    DuplicateEntry(Count, Authored, Bodrum, 0, Milas, 0);
  }

  /** Shortest road distances from Bodrum, district by district. */
  const FromBodrum: seq<nat> := [0, 217, 252, 252, 108, 182, 182, 120, 52, 202, 277, 137, 95]

  /** Along every authored road, the distances from Bodrum differ by at most its length, both ways. */
  predicate Balanced(d: seq<nat>, graph: seq<Roads>) {
    forall i, j :: 0 <= i < |graph| && 0 <= j < |graph[i].edges| && graph[i].from < |d| && graph[i].edges[j].node < |d| ==>
      d[graph[i].edges[j].node] <= d[graph[i].from] + graph[i].edges[j].weight &&
      d[graph[i].from] <= d[graph[i].edges[j].node] + graph[i].edges[j].weight
  }

  /** A table balanced by `d` gives a closure that has `d` as a potential. */
  lemma BalancedPotential(n: nat, graph: seq<Roads>, d: seq<nat>)
    requires WellFormed(n, graph) && |d| == n && Balanced(d, graph)
    ensures ArcsIn(n, Arcs(graph)) && Potential(Build(n, Arcs(graph)), d)
  {
    ArcsWithin(n, graph);
    var g: Adjacency := Build(n, Arcs(graph));
    forall u: nat, k: nat | 0 <= u < |g| && 0 <= k < |g[u]| && g[u][k].node < |g|
      ensures d[g[u][k].node] <= d[u] + g[u][k].weight
    {
      BalancedEntry(n, graph, d, u, k);
    }
  }

  /** One entry of the closure of a balanced table keeps the balance. */
  lemma BalancedEntry(n: nat, graph: seq<Roads>, d: seq<nat>, u: nat, k: nat)
    requires WellFormed(n, graph) && |d| == n && Balanced(d, graph)
    requires ArcsIn(n, Arcs(graph)) && u < n && k < |Build(n, Arcs(graph))[u]|
    ensures Build(n, Arcs(graph))[u][k].node < n ==>
      d[Build(n, Arcs(graph))[u][k].node] <= d[u] + Build(n, Arcs(graph))[u][k].weight
  {
    var arcs := Arcs(graph);
    var e := Build(n, arcs)[u][k];
    BuildSound(n, arcs, u, k);
    var m :| 0 <= m < |arcs| &&
      ((arcs[m].from == u && e == arcs[m].edge) ||
       (arcs[m].edge.node == u && e == Edge(arcs[m].from, arcs[m].edge.weight)));
    ArcsListed(graph, arcs[m]);
    var i, j :| 0 <= i < |graph| && 0 <= j < |graph[i].edges| && arcs[m] == Arc(graph[i].from, graph[i].edges[j]);
  }

  /** The shipped distances from Bodrum are balanced along every authored road. */
  lemma FromBodrumBalanced()
    ensures Balanced(FromBodrum, Authored)
  {
    forall i, j | 0 <= i < |Authored| && 0 <= j < |Authored[i].edges|
      ensures
        var e := Authored[i].edges[j];
        FromBodrum[e.node] <= FromBodrum[Authored[i].from] + e.weight &&
        FromBodrum[Authored[i].from] <= FromBodrum[e.node] + e.weight
    {
      if i < 4 {} else if i < 8 {} else if i < 11 {} else {}
    }
  }

  /** The route from Bodrum to Fethiye, district by district. */
  const Route: seq<nat> := [Bodrum, Milas, Yatagan, Mentese, Ula, Koycegiz, Ortaca, Fethiye]

  /** The hop lengths along the route from Bodrum to Fethiye. */
  const RouteLengths: seq<nat> := [52, 43, 25, 17, 45, 20, 50]

  /** Each hop of the route has an entry of its length in a closure holding the authored entries. */
  lemma RouteHops(g: Adjacency, route: seq<nat>)
    requires |g| == Count && |route| == 8
    requires route[0] == Bodrum && route[1] == Milas && route[2] == Yatagan && route[3] == Mentese
    requires route[4] == Ula && route[5] == Koycegiz && route[6] == Ortaca && route[7] == Fethiye
    requires Edge(Milas, 52) in g[Bodrum] && Edge(Yatagan, 43) in g[Milas] && Edge(Mentese, 25) in g[Yatagan]
    requires Edge(Ula, 17) in g[Mentese] && Edge(Koycegiz, 45) in g[Ula] && Edge(Ortaca, 20) in g[Koycegiz]
    requires Edge(Fethiye, 50) in g[Ortaca]
    ensures forall j :: 0 <= j < |route| ==> route[j] < |g|
    ensures forall j :: 0 <= j < |RouteLengths| ==> Edge(route[j + 1], RouteLengths[j]) in g[route[j]]
  {
    forall j | 0 <= j < |route| ensures route[j] < |g| {
      if j == 0 {} else if j == 1 {} else if j == 2 {} else if j == 3 {}
      else if j == 4 {} else if j == 5 {} else if j == 6 {} else {}
    }
    forall j | 0 <= j < |RouteLengths| ensures Edge(route[j + 1], RouteLengths[j]) in g[route[j]] {
      if j == 0 {} else if j == 1 {} else if j == 2 {} else if j == 3 {} else if j == 4 {} else if j == 5 {} else {}
    }
  }

  /**
   * A closure holding the authored entries along the route from Bodrum to
   * Fethiye has that route as a path costing at most 52+43+25+17+45+20+50 = 252 km.
   */
  lemma RouteWithin(g: Adjacency, route: seq<nat>)
    requires |g| == Count && |route| == 8
    requires route[0] == Bodrum && route[1] == Milas && route[2] == Yatagan && route[3] == Mentese
    requires route[4] == Ula && route[5] == Koycegiz && route[6] == Ortaca && route[7] == Fethiye
    requires Edge(Milas, 52) in g[Bodrum] && Edge(Yatagan, 43) in g[Milas] && Edge(Mentese, 25) in g[Yatagan]
    requires Edge(Ula, 17) in g[Mentese] && Edge(Koycegiz, 45) in g[Ula] && Edge(Ortaca, 20) in g[Koycegiz]
    requires Edge(Fethiye, 50) in g[Ortaca]
    ensures IsPath(g, route) && PathCost(g, route) <= 252
  {
    RouteHops(g, route);
    HopsBound(g, route, RouteLengths, 0);
    assert route[0..] == route && RouteLengths[0..] == RouteLengths;
  }

  /** The closure of the shipped table holds the authored entries along the route from Bodrum to Fethiye. */
  lemma RouteEntries()
    ensures ArcsIn(Count, Arcs(Authored))
    ensures
      var g := Build(Count, Arcs(Authored));
      && Edge(Milas, 52) in g[Bodrum] && Edge(Yatagan, 43) in g[Milas] && Edge(Mentese, 25) in g[Yatagan]
      && Edge(Ula, 17) in g[Mentese] && Edge(Koycegiz, 45) in g[Ula] && Edge(Ortaca, 20) in g[Koycegiz]
      && Edge(Fethiye, 50) in g[Ortaca]
  {
    AuthoredWellFormed();
    var n := Count;
    RoadKept(n, Authored, Bodrum, 0);
    RoadKept(n, Authored, Milas, 1);
    RoadKept(n, Authored, Yatagan, 0);
    RoadKept(n, Authored, Mentese, 0);
    RoadKept(n, Authored, Ula, 2);
    RoadKept(n, Authored, Koycegiz, 0);
    RoadKept(n, Authored, Ortaca, 2);
  }

  /**
   * In a closure holding the authored entries along the route and having
   * the distances from Bodrum as a potential, the route is a shortest path
   * of 252 km.
   */
  lemma RouteShortest(g: Adjacency)
    requires |g| == Count && Potential(g, FromBodrum)
    requires Edge(Milas, 52) in g[Bodrum] && Edge(Yatagan, 43) in g[Milas] && Edge(Mentese, 25) in g[Yatagan]
    requires Edge(Ula, 17) in g[Mentese] && Edge(Koycegiz, 45) in g[Ula] && Edge(Ortaca, 20) in g[Koycegiz]
    requires Edge(Fethiye, 50) in g[Ortaca]
    ensures Shortest(g, Route, Bodrum, Fethiye) && PathCost(g, Route) == 252
  {
    RouteWithin(g, Route);
    PotentialCertifies(g, FromBodrum, Route, Bodrum, Fethiye);
  }

  /**
   * From Bodrum to Fethiye the shortest route is Bodrum, Milas, Yatağan,
   * Menteşe, Ula, Köyceğiz, Ortaca, Fethiye, 52+43+25+17+45+20+50 = 252 km;
   * the leg through Kavaklıdere, 13+27 km, loses to the direct 25 km.
   */
  lemma BodrumToFethiye()
    ensures ArcsIn(Count, Arcs(Authored))
    ensures
      var g := Build(Count, Arcs(Authored));
      Shortest(g, Route, Bodrum, Fethiye) && PathCost(g, Route) == 252
  {
    AuthoredWellFormed();
    FromBodrumBalanced();
    BalancedPotential(Count, Authored, FromBodrum);
    RouteEntries();
    RouteShortest(Build(Count, Arcs(Authored)));
  }

  /**
   * script.js:61 on the shipped data: the search from Bodrum to Fethiye on
   * the shipped closure finds a shortest route, of 252 km.
   */
  method ShippedBodrumToFethiye() returns (path: seq<nat>, distance: Dist)
    ensures ArcsIn(Count, Arcs(Authored))
    ensures Shortest(Build(Count, Arcs(Authored)), path, Bodrum, Fethiye)
    ensures distance == Fin(252)
  {
    var g, isolated := ShippedGraph();
    BodrumToFethiye();
    assert Reachable(g, Bodrum, Fethiye) by {
      assert PathFromTo(g, Route, Bodrum, Fethiye);
    }
    path, distance := Dijkstra(g, Bodrum, Fethiye);
    ShortestAgree(g, path, Route, Bodrum, Fethiye);
  }
}
