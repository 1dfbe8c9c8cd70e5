/**
 * `createBidirectionalGraph` of data.js: the undirected closure of the
 * authored road table.
 *
 * The authored table is an object whose keys are districts and whose values
 * are ordered lists of `{ node, weight }` entries; it is modelled as a
 * sequence of `Roads`, one per key in key order. Visiting the keys in order
 * and each key's list in order gives the authored roads as one sequence of
 * `Arc`s, and the result is `Build` of that sequence: start from an empty
 * list per district and apply `AddArc` to each road in turn.
 */
module RoadGraph {
  import opened Graph

  /** One key of the authored table: a district and the roads listed under it, in order. */
  datatype Roads = Roads(from: nat, edges: seq<Edge>)

  /** One authored road: the entry `edge` listed under the district `from`. */
  datatype Arc = Arc(from: nat, edge: Edge)

  /**
   * Every authored key and every road target is one of the `n` districts;
   * otherwise data.js:87 or data.js:90 indexes a missing list and throws.
   */
  predicate WellFormed(n: nat, graph: seq<Roads>) {
    forall i :: 0 <= i < |graph| ==>
      graph[i].from < n && forall j :: 0 <= j < |graph[i].edges| ==> graph[i].edges[j].node < n
  }

  /** Both ends of every road are among the `n` districts. */
  predicate ArcsIn(n: nat, arcs: seq<Arc>) {
    forall k :: 0 <= k < |arcs| ==> arcs[k].from < n && arcs[k].edge.node < n
  }

  /** The roads of one key, in list order. */
  function KeyArcs(r: Roads): (arcs: seq<Arc>)
    ensures |arcs| == |r.edges|
    ensures forall j :: 0 <= j < |arcs| ==> arcs[j] == Arc(r.from, r.edges[j])
  {
    seq(|r.edges|, j requires 0 <= j < |r.edges| => Arc(r.from, r.edges[j]))
  }

  /** The number of entries in the table's lists. */
  function RoadCount(graph: seq<Roads>): nat
    decreases |graph|
  {
    if graph == [] then 0 else RoadCount(graph[..|graph| - 1]) + |graph[|graph| - 1].edges|
  }

  /** The authored roads in the order of data.js:84-85: keys in order, and each key's list in order. */
  function Arcs(graph: seq<Roads>): (arcs: seq<Arc>)
    // one road per authored entry, nothing dropped and nothing added
    ensures |arcs| == RoadCount(graph)
    decreases |graph|
  {
    if graph == [] then []
    else Arcs(graph[..|graph| - 1]) + KeyArcs(graph[|graph| - 1])
  }

  /** A road is in the sequence exactly when it is listed in the table. */
  lemma {:induction false} ArcsListed(graph: seq<Roads>, a: Arc)
    ensures a in Arcs(graph) <==>
      exists i, j :: 0 <= i < |graph| && 0 <= j < |graph[i].edges| && a == Arc(graph[i].from, graph[i].edges[j])
    decreases |graph|
  {
    if graph != [] {
      var init, last := graph[..|graph| - 1], graph[|graph| - 1];
      ArcsListed(init, a);
      assert Arcs(graph) == Arcs(init) + KeyArcs(last);
      assert a in Arcs(graph) <==> a in Arcs(init) || a in KeyArcs(last);
      if a in Arcs(graph) {
        if a in Arcs(init) {
          var i, j :| 0 <= i < |init| && 0 <= j < |init[i].edges| && a == Arc(init[i].from, init[i].edges[j]);
          assert graph[i] == init[i];
        } else {
          var k :| 0 <= k < |KeyArcs(last)| && KeyArcs(last)[k] == a;
          assert a == Arc(graph[|graph| - 1].from, graph[|graph| - 1].edges[k]);
        }
      }
      if exists i, j :: 0 <= i < |graph| && 0 <= j < |graph[i].edges| && a == Arc(graph[i].from, graph[i].edges[j]) {
        var i, j :| 0 <= i < |graph| && 0 <= j < |graph[i].edges| && a == Arc(graph[i].from, graph[i].edges[j]);
        if i < |init| {
          assert init[i] == graph[i];
        } else {
          assert KeyArcs(last)[j] == a;
        }
      }
    }
  }

  /** The roads of the first `i` keys come first among all the roads. */
  lemma {:induction false} ArcsPrefix(graph: seq<Roads>, i: nat)
    requires i <= |graph|
    ensures Arcs(graph[..i]) <= Arcs(graph)
    decreases |graph| - i
  {
    if i < |graph| {
      var init := graph[..|graph| - 1];
      assert init[..i] == graph[..i];
      ArcsPrefix(init, i);
    } else {
      assert graph[..i] == graph;
    }
  }

  /** data.js:79-81: an empty list for every district. */
  function Empty(n: nat): (adj: Adjacency)
    ensures |adj| == n && forall u :: 0 <= u < n ==> adj[u] == []
  {
    seq(n, _ => [])
  }

  /**
   * data.js:86-93 for one road `a`: the entry is appended to the source's
   * list, and then `(source, weight)` is appended to the target's list unless
   * that list already names the source.
   */
  function AddArc(adj: Adjacency, a: Arc): (r: Adjacency)
    requires a.from < |adj| && a.edge.node < |adj|
    ensures |r| == |adj|
    // lists only grow at the end, and only the source's and the target's
    ensures forall u :: 0 <= u < |adj| ==> adj[u] <= r[u]
    ensures forall u :: 0 <= u < |adj| && u != a.from && u != a.edge.node ==> r[u] == adj[u]
    // the forward entry is appended unconditionally
    ensures r[a.from] == adj[a.from] + [a.edge]
    // the reflection is appended exactly when the target's list named no entry
    // back to the source, whatever the weights of the entries it did have
    ensures a.edge.node != a.from ==>
      r[a.edge.node] ==
        if Names(adj[a.edge.node], a.from) then adj[a.edge.node]
        else adj[a.edge.node] + [Edge(a.from, a.edge.weight)]
    // afterwards the target names the source
    ensures Names(r[a.edge.node], a.from)
    // every appended entry is the road itself or its reflection
    ensures forall u, i :: 0 <= u < |adj| && |adj[u]| <= i < |r[u]| ==>
      (u == a.from && r[u][i] == a.edge) || (u == a.edge.node && r[u][i] == Edge(a.from, a.edge.weight))
  {
    var forward := adj[a.from := adj[a.from] + [a.edge]];
    assert forward[a.from][|adj[a.from]|] == a.edge;
    if Names(forward[a.edge.node], a.from) then
      forward
    else
      var r := forward[a.edge.node := forward[a.edge.node] + [Edge(a.from, a.edge.weight)]];
      assert r[a.edge.node][|forward[a.edge.node]|].node == a.from;
      r
  }

  /** The closure of a road sequence: `AddArc` applied to each road in turn. */
  function Build(n: nat, arcs: seq<Arc>): (adj: Adjacency)
    requires ArcsIn(n, arcs)
    ensures |adj| == n
    decreases |arcs|
  {
    if arcs == [] then Empty(n)
    else AddArc(Build(n, arcs[..|arcs| - 1]), arcs[|arcs| - 1])
  }

  /** Every entry of the closure names a district. */
  lemma {:induction false} BuildNamesDistricts(n: nat, arcs: seq<Arc>)
    requires ArcsIn(n, arcs)
    ensures forall u, i :: 0 <= u < n && 0 <= i < |Build(n, arcs)[u]| ==> Build(n, arcs)[u][i].node < n
    decreases |arcs|
  {
    if arcs != [] {
      var init := arcs[..|arcs| - 1];
      BuildNamesDistricts(n, init);
      var before: Adjacency := Build(n, init);
      var r: Adjacency := Build(n, arcs);
      assert r == AddArc(before, arcs[|arcs| - 1]);
      forall u: nat, i: nat | 0 <= u < n && 0 <= i < |r[u]| ensures r[u][i].node < n {
        if i < |before[u]| {
          assert r[u][i] == before[u][i];
        }
      }
    }
  }

  /** `AddArc` applied to each road of `arcs` in turn, starting from `adj`. */
  function AddAll(adj: Adjacency, arcs: seq<Arc>): (r: Adjacency)
    requires ArcsIn(|adj|, arcs)
    ensures |r| == |adj|
    // lists only grow at the end
    ensures forall u :: 0 <= u < |adj| ==> adj[u] <= r[u]
    decreases |arcs|
  {
    if arcs == [] then adj
    else AddArc(AddAll(adj, arcs[..|arcs| - 1]), arcs[|arcs| - 1])
  }

  /** Handling more roads continues from the state the earlier roads left. */
  lemma {:induction false} BuildAppend(n: nat, arcs: seq<Arc>, more: seq<Arc>)
    requires ArcsIn(n, arcs) && ArcsIn(n, more)
    ensures ArcsIn(n, arcs + more)
    ensures Build(n, arcs + more) == AddAll(Build(n, arcs), more)
    decreases |more|
  {
    if more == [] {
      assert arcs + more == arcs;
    } else {
      var init := more[..|more| - 1];
      BuildAppend(n, arcs, init);
      assert (arcs + more)[..|arcs + more| - 1] == arcs + init;
    }
  }

  /** Adjacency is symmetric in districts: if `u` names `v` then `v` names `u`. */
  predicate Symmetric(adj: Adjacency) {
    forall u, v :: 0 <= u < |adj| && 0 <= v < |adj| && Names(adj[u], v) ==> Names(adj[v], u)
  }

  /** A list that names `v` still names it once extended. */
  lemma NamesExtend(s: seq<Edge>, t: seq<Edge>, v: nat)
    requires s <= t && Names(s, v)
    ensures Names(t, v)
  {
    var k :| 0 <= k < |s| && s[k].node == v;
    assert t[k] == s[k];
  }

  /** `AddArc` keeps adjacency symmetric. */
  lemma AddArcSymmetric(adj: Adjacency, a: Arc)
    requires a.from < |adj| && a.edge.node < |adj| && Symmetric(adj)
    ensures Symmetric(AddArc(adj, a))
  {
    var r := AddArc(adj, a);
    forall u, v | 0 <= u < |r| && 0 <= v < |r| && Names(r[u], v) ensures Names(r[v], u) {
      var i :| 0 <= i < |r[u]| && r[u][i].node == v;
      if i < |adj[u]| {
        assert adj[u][i] == r[u][i];
        NamesExtend(adj[v], r[v], u);
      } else if u == a.from && r[u][i] == a.edge {
        // v is the target, which names the source afterwards
      } else {
        assert u == a.edge.node && v == a.from;
        assert r[v][|adj[v]|].node == u;
      }
    }
  }

  /** Building any road sequence gives a symmetric adjacency. */
  lemma {:induction false} BuildSymmetric(n: nat, arcs: seq<Arc>)
    requires ArcsIn(n, arcs)
    ensures Symmetric(Build(n, arcs))
    decreases |arcs|
  {
    if arcs != [] {
      BuildSymmetric(n, arcs[..|arcs| - 1]);
      AddArcSymmetric(Build(n, arcs[..|arcs| - 1]), arcs[|arcs| - 1]);
    }
  }

  /** Building a prefix of the roads gives, for every district, a prefix of its final list. */
  lemma {:induction false} BuildPrefix(n: nat, arcs: seq<Arc>, k: nat)
    requires ArcsIn(n, arcs) && k <= |arcs|
    ensures ArcsIn(n, arcs[..k])
    ensures forall u :: 0 <= u < n ==> Build(n, arcs[..k])[u] <= Build(n, arcs)[u]
    decreases |arcs| - k
  {
    if k < |arcs| {
      var init := arcs[..|arcs| - 1];
      assert init[..k] == arcs[..k];
      BuildPrefix(n, init, k);
    } else {
      assert arcs[..k] == arcs;
    }
  }

  /** The state after the first `k` roads, extended by road `k`, is the state after `k + 1` roads. */
  lemma BuildStep(n: nat, arcs: seq<Arc>, k: nat)
    requires ArcsIn(n, arcs) && k < |arcs|
    ensures ArcsIn(n, arcs[..k]) && ArcsIn(n, arcs[..k + 1])
    ensures Build(n, arcs[..k + 1]) == AddArc(Build(n, arcs[..k]), arcs[k])
  {
    assert arcs[..k + 1][..k] == arcs[..k];
  }

  /**
   * Forward entries are kept: road `k`'s entry sits in its source's final
   * list right after whatever that list held before road `k`.
   */
  lemma BuildForward(n: nat, arcs: seq<Arc>, k: nat)
    requires ArcsIn(n, arcs) && k < |arcs|
    ensures ArcsIn(n, arcs[..k])
    ensures
      var before := Build(n, arcs[..k])[arcs[k].from];
      |before| < |Build(n, arcs)[arcs[k].from]| && Build(n, arcs)[arcs[k].from][|before|] == arcs[k].edge
  {
    BuildStep(n, arcs, k);
    BuildPrefix(n, arcs, k + 1);
  }

  /**
   * Forward entries keep the authored order: a later road from the same
   * source lands at a later place in its list.
   */
  lemma ForwardInOrder(n: nat, arcs: seq<Arc>, k1: nat, k2: nat)
    requires ArcsIn(n, arcs) && k1 < k2 < |arcs| && arcs[k1].from == arcs[k2].from
    ensures ArcsIn(n, arcs[..k1]) && ArcsIn(n, arcs[..k2])
    ensures |Build(n, arcs[..k1])[arcs[k1].from]| < |Build(n, arcs[..k2])[arcs[k2].from]|
  {
    BuildStep(n, arcs, k1);
    var upTo := arcs[..k2];
    assert upTo[..k1 + 1] == arcs[..k1 + 1];
    BuildPrefix(n, upTo, k1 + 1);
  }

  /** Reverse entries: after road `k`, and so at the end, its target's list names its source. */
  lemma BuildReverse(n: nat, arcs: seq<Arc>, k: nat)
    requires ArcsIn(n, arcs) && k < |arcs|
    ensures Names(Build(n, arcs)[arcs[k].edge.node], arcs[k].from)
  {
    BuildStep(n, arcs, k);
    BuildPrefix(n, arcs, k + 1);
    NamesExtend(Build(n, arcs[..k + 1])[arcs[k].edge.node], Build(n, arcs)[arcs[k].edge.node], arcs[k].from);
  }

  /**
   * A reflection lands right after what the target's list held before road
   * `k`, when that list named no entry back to the source.
   */
  lemma BuildReflected(n: nat, arcs: seq<Arc>, k: nat)
    requires ArcsIn(n, arcs) && k < |arcs| && arcs[k].edge.node != arcs[k].from
    requires ArcsIn(n, arcs[..k]) && !Names(Build(n, arcs[..k])[arcs[k].edge.node], arcs[k].from)
    ensures
      var before := Build(n, arcs[..k])[arcs[k].edge.node];
      |before| < |Build(n, arcs)[arcs[k].edge.node]| &&
      Build(n, arcs)[arcs[k].edge.node][|before|] == Edge(arcs[k].from, arcs[k].edge.weight)
  {
    BuildStep(n, arcs, k);
    BuildPrefix(n, arcs, k + 1);
  }

  /** Nothing else is added: every entry of the result is an authored road or its reflection. */
  lemma {:induction false} BuildSound(n: nat, arcs: seq<Arc>, u: nat, i: nat)
    requires ArcsIn(n, arcs) && u < n && i < |Build(n, arcs)[u]|
    ensures exists k :: (0 <= k < |arcs| &&
      ((arcs[k].from == u && Build(n, arcs)[u][i] == arcs[k].edge) ||
       (arcs[k].edge.node == u && Build(n, arcs)[u][i] == Edge(arcs[k].from, arcs[k].edge.weight))))
    decreases |arcs|
  {
    var init := arcs[..|arcs| - 1];
    var last := arcs[|arcs| - 1];
    if i < |Build(n, init)[u]| {
      BuildSound(n, init, u, i);
      var k :| 0 <= k < |init| &&
        ((init[k].from == u && Build(n, init)[u][i] == init[k].edge) ||
         (init[k].edge.node == u && Build(n, init)[u][i] == Edge(init[k].from, init[k].edge.weight)));
      assert arcs[k] == init[k];
    } else {
      assert arcs[|arcs| - 1] == last;
    }
  }

  /**
   * A district's list ends up empty exactly when no road starts or ends at
   * it; these are the districts data.js:98-102 warns about.
   */
  lemma {:induction false} EmptyIffUntouched(n: nat, arcs: seq<Arc>, u: nat)
    requires ArcsIn(n, arcs) && u < n
    ensures Build(n, arcs)[u] == [] <==>
      forall k :: 0 <= k < |arcs| ==> arcs[k].from != u && arcs[k].edge.node != u
    decreases |arcs|
  {
    if arcs != [] {
      var init := arcs[..|arcs| - 1];
      EmptyIffUntouched(n, init, u);
      var last := arcs[|arcs| - 1];
      if last.from == u {
        assert |Build(n, arcs)[u]| > |Build(n, init)[u]|;
      } else if last.edge.node == u {
        assert Names(Build(n, arcs)[u], last.from);
      }
      assert forall k :: 0 <= k < |init| ==> init[k] == arcs[k];
    }
  }

  /** The roads of a well-formed table stay among the `n` districts. */
  lemma ArcsWithin(n: nat, graph: seq<Roads>)
    requires WellFormed(n, graph)
    ensures ArcsIn(n, Arcs(graph))
  {
    var arcs := Arcs(graph);
    forall k | 0 <= k < |arcs| ensures arcs[k].from < n && arcs[k].edge.node < n {
      ArcsListed(graph, arcs[k]);
    }
  }

  /** The roads of the first `i + 1` keys are those of the first `i` keys, then key `i`'s. */
  lemma ArcsNext(graph: seq<Roads>, i: nat)
    requires i < |graph|
    ensures Arcs(graph[..i + 1]) == Arcs(graph[..i]) + KeyArcs(graph[i])
  {
    assert graph[..i + 1][..i] == graph[..i];
  }

  /** Road `j` of key `i` sits right after the roads of the keys before `i` and the first `j` of key `i`. */
  lemma ArcPosition(graph: seq<Roads>, i: nat, j: nat)
    requires i < |graph| && j < |graph[i].edges|
    ensures |Arcs(graph[..i])| + j < |Arcs(graph)|
    ensures Arcs(graph)[|Arcs(graph[..i])| + j] == Arc(graph[i].from, graph[i].edges[j])
  {
    ArcsNext(graph, i);
    ArcsPrefix(graph, i + 1);
    assert Arcs(graph[..i + 1])[|Arcs(graph[..i])| + j] == KeyArcs(graph[i])[j];
  }

  /** A road of an earlier key comes before every road of a later key. */
  lemma ArcsOrdered(graph: seq<Roads>, i1: nat, j1: nat, i2: nat)
    requires i1 < i2 <= |graph| && j1 < |graph[i1].edges|
    ensures |Arcs(graph[..i1])| + j1 < |Arcs(graph[..i2])|
  {
    ArcsNext(graph, i1);
    assert graph[..i2][..i1 + 1] == graph[..i1 + 1];
    ArcsPrefix(graph[..i2], i1 + 1);
  }

  /**
   * A pair listed under both its districts ends up named twice in the list
   * of the later key: its reflection went in when the earlier key was
   * handled, and the later key's own entry is appended regardless.
   */
  lemma DuplicateEntry(n: nat, graph: seq<Roads>, i1: nat, j1: nat, i2: nat, j2: nat)
    requires WellFormed(n, graph)
    requires i1 < i2 < |graph| && j1 < |graph[i1].edges| && j2 < |graph[i2].edges|
    requires graph[i1].edges[j1].node == graph[i2].from && graph[i2].edges[j2].node == graph[i1].from
    ensures ArcsIn(n, Arcs(graph))
    ensures
      var list := Build(n, Arcs(graph))[graph[i2].from];
      exists x, y :: 0 <= x < y < |list| && list[x].node == graph[i1].from && list[y].node == graph[i1].from
  {
    ArcsWithin(n, graph);
    ArcPosition(graph, i1, j1);
    ArcPosition(graph, i2, j2);
    ArcsOrdered(graph, i1, j1, i2);
    DuplicateAt(n, Arcs(graph), |Arcs(graph[..i1])| + j1, |Arcs(graph[..i2])| + j2);
  }

  /** The same, in terms of places in the road sequence. */
  lemma DuplicateAt(n: nat, arcs: seq<Arc>, k1: nat, k2: nat)
    requires ArcsIn(n, arcs) && k1 < k2 < |arcs|
    requires arcs[k1].edge.node == arcs[k2].from && arcs[k2].edge.node == arcs[k1].from
    ensures
      var list := Build(n, arcs)[arcs[k2].from];
      exists x, y :: 0 <= x < y < |list| && list[x].node == arcs[k1].from && list[y].node == arcs[k1].from
  {
    var a, b := arcs[k1].from, arcs[k2].from;
    NamedLater(n, arcs, k1, k2);
    var before := Build(n, arcs[..k2])[b];
    var x :| 0 <= x < |before| && before[x].node == a;
    BuildForward(n, arcs, k2);
    BuildPrefix(n, arcs, k2);
    assert Build(n, arcs)[b][x] == before[x];
    assert Build(n, arcs)[b][|before|].node == a;
  }

  /** Once road `k1` is handled, its target's list names its source in every later state. */
  lemma NamedLater(n: nat, arcs: seq<Arc>, k1: nat, k2: nat)
    requires ArcsIn(n, arcs) && k1 < k2 <= |arcs|
    ensures ArcsIn(n, arcs[..k2])
    ensures Names(Build(n, arcs[..k2])[arcs[k1].edge.node], arcs[k1].from)
  {
    BuildStep(n, arcs, k1);
    assert arcs[..k2][..k1 + 1] == arcs[..k1 + 1];
    BuildPrefix(n, arcs[..k2], k1 + 1);
    NamesExtend(Build(n, arcs[..k1 + 1])[arcs[k1].edge.node], Build(n, arcs[..k2])[arcs[k1].edge.node], arcs[k1].from);
  }

  /** Authored road `j` of key `i` is kept in its source's list, and its target's list names its source. */
  lemma RoadKept(n: nat, graph: seq<Roads>, i: nat, j: nat)
    requires WellFormed(n, graph) && i < |graph| && j < |graph[i].edges|
    ensures ArcsIn(n, Arcs(graph))
    ensures graph[i].edges[j] in Build(n, Arcs(graph))[graph[i].from]
    ensures Names(Build(n, Arcs(graph))[graph[i].edges[j].node], graph[i].from)
  {
    ArcsWithin(n, graph);
    ArcPosition(graph, i, j);
    var arcs := Arcs(graph);
    var k := |Arcs(graph[..i])| + j;
    var a := arcs[k];
    assert a.from == graph[i].from && a.edge == graph[i].edges[j];
    BuildForward(n, arcs, k);
    var list := Build(n, arcs)[a.from];
    var at := |Build(n, arcs[..k])[a.from]|;
    assert at < |list| && list[at] == a.edge;
    BuildReverse(n, arcs, k);
  }

  /** Every authored road is kept in its source's list, and its target's list names its source. */
  lemma AuthoredKept(n: nat, graph: seq<Roads>)
    requires WellFormed(n, graph)
    ensures ArcsIn(n, Arcs(graph))
    ensures forall i, j :: 0 <= i < |graph| && 0 <= j < |graph[i].edges| ==>
      graph[i].edges[j] in Build(n, Arcs(graph))[graph[i].from] &&
      Names(Build(n, Arcs(graph))[graph[i].edges[j].node], graph[i].from)
  {
    ArcsWithin(n, graph);
    forall i, j | 0 <= i < |graph| && 0 <= j < |graph[i].edges|
      ensures graph[i].edges[j] in Build(n, Arcs(graph))[graph[i].from]
      ensures Names(Build(n, Arcs(graph))[graph[i].edges[j].node], graph[i].from)
    {
      RoadKept(n, graph, i, j);
    }
  }

  /**
   * data.js:75-105. Returns the closure of the authored table and the
   * districts reported as having no connection.
   */
  method CreateBidirectionalGraph(n: nat, graph: seq<Roads>) returns (bidirectional: Adjacency, isolated: set<nat>)
    requires WellFormed(n, graph)
    ensures ArcsIn(n, Arcs(graph)) && bidirectional == Build(n, Arcs(graph))
    ensures |bidirectional| == n
    // every authored road is kept, and its target names its source
    ensures forall i, j :: 0 <= i < |graph| && 0 <= j < |graph[i].edges| ==>
      graph[i].edges[j] in bidirectional[graph[i].from] && Names(bidirectional[graph[i].edges[j].node], graph[i].from)
    ensures Symmetric(bidirectional)
    ensures isolated == set u | 0 <= u < n && bidirectional[u] == []
  {
    ghost var arcs := Arcs(graph);
    ArcsWithin(n, graph);
    assert ArcsIn(n, Arcs(graph[..0])) by { assert graph[..0] == []; }

    bidirectional := [];
    for d := 0 to n
      invariant bidirectional == Empty(d)
    {
      bidirectional := bidirectional + [[]];
    }

    for i := 0 to |graph|
      invariant ArcsIn(n, Arcs(graph[..i])) && bidirectional == Build(n, Arcs(graph[..i]))
    {
      ArcsNext(graph, i);
      BuildAppend(n, Arcs(graph[..i]), KeyArcs(graph[i]));
      bidirectional := AddKeyRoads(bidirectional, graph[i].from, graph[i].edges);
    }
    assert graph[..|graph|] == graph;

    isolated := Unconnected(bidirectional);
    BuildSymmetric(n, arcs);
    AuthoredKept(n, graph);
  }

  /**
   * data.js:86-93 for one key: each road listed under `from`, in list order,
   * is appended to the source's list, and its reflection is appended to the
   * target's list unless that list already names the source.
   */
  method AddKeyRoads(adj: Adjacency, from: nat, edges: seq<Edge>) returns (r: Adjacency)
    requires from < |adj| && forall j :: 0 <= j < |edges| ==> edges[j].node < |adj|
    ensures ArcsIn(|adj|, KeyArcs(Roads(from, edges)))
    ensures r == AddAll(adj, KeyArcs(Roads(from, edges)))
  {
    ghost var arcs := KeyArcs(Roads(from, edges));
    r := adj;
    for j := 0 to |edges|
      invariant ArcsIn(|adj|, arcs[..j]) && r == AddAll(adj, arcs[..j])
    {
      assert arcs[..j + 1][..j] == arcs[..j];
      var edge := edges[j];
      r := r[from := r[from] + [edge]];
      var reverseExists := Names(r[edge.node], from);
      if !reverseExists {
        r := r[edge.node := r[edge.node] + [Edge(from, edge.weight)]];
      }
    }
    assert arcs[..|edges|] == arcs;
  }

  /** data.js:98-102: the districts whose neighbour list is empty, which data.js warns about. */
  method Unconnected(adj: Adjacency) returns (isolated: set<nat>)
    ensures isolated == set u | 0 <= u < |adj| && adj[u] == []
  {
    isolated := {};
    for u := 0 to |adj|
      invariant isolated == set v | 0 <= v < u && adj[v] == []
    {
      if |adj[u]| == 0 {
        isolated := isolated + {u};
      }
    }
  }
}
