/**
 * The road graph shared by the graph builder and the shortest-path search.
 * Districts are numbered 0..n-1 in the key order of the district table; an
 * adjacency structure gives every district its ordered list of neighbour
 * entries, each a neighbour and the length of the road to it.
 */
module Graph {

  /** One neighbour entry `{ node, weight }`: the neighbour and the road length in km. */
  datatype Edge = Edge(node: nat, weight: nat)

  /** Neighbour lists indexed by district. */
  type Adjacency = seq<seq<Edge>>

  /** The list holds an entry naming `v`, whatever its weight. */
  predicate Names(es: seq<Edge>, v: nat) {
    exists k :: 0 <= k < |es| && es[k].node == v
  }

  /** The lightest road length among the entries of `es` that name `v`. */
  function MinWeight(es: seq<Edge>, v: nat): (w: nat)
    requires Names(es, v)
    ensures exists k :: 0 <= k < |es| && es[k].node == v && es[k].weight == w
    ensures forall k :: 0 <= k < |es| && es[k].node == v ==> w <= es[k].weight
    decreases |es|
  {
    if es[0].node != v then
      assert Names(es[1..], v) by {
        var k :| 0 <= k < |es| && es[k].node == v;
        assert es[1..][k - 1].node == v;
      }
      MinWeight(es[1..], v)
    else if !Names(es[1..], v) then
      es[0].weight
    else
      var rest := MinWeight(es[1..], v);
      if es[0].weight <= rest then es[0].weight else rest
  }

  /**
   * `p` is a non-empty sequence of districts in which every district after
   * the first is named in the neighbour list of the one before it.
   */
  predicate IsPath(g: Adjacency, p: seq<nat>) {
    && |p| > 0
    && (forall i :: 0 <= i < |p| ==> p[i] < |g|)
    && (forall i :: 0 <= i < |p| - 1 ==> Names(g[p[i]], p[i + 1]))
  }

  /** `p` is a path that starts at `s` and ends at `t`. */
  predicate PathFromTo(g: Adjacency, p: seq<nat>, s: nat, t: nat) {
    IsPath(g, p) && p[0] == s && p[|p| - 1] == t
  }

  /** Total length of a path, each hop costing its lightest entry. */
  function PathCost(g: Adjacency, p: seq<nat>): nat
    requires IsPath(g, p)
    decreases |p|
  {
    if |p| == 1 then 0
    else
      PathTail(g, p);
      MinWeight(g[p[0]], p[1]) + PathCost(g, p[1..])
  }

  /** Every path from `s` to `t` costs at least `d`. */
  ghost predicate LowerBound(g: Adjacency, s: nat, t: nat, d: nat) {
    forall p :: PathFromTo(g, p, s, t) ==> d <= PathCost(g, p)
  }

  /** Some path leads from `s` to `t`. */
  ghost predicate Reachable(g: Adjacency, s: nat, t: nat) {
    exists p :: PathFromTo(g, p, s, t)
  }

  /** `p` is a path from `s` to `t` and no path from `s` to `t` is cheaper. */
  ghost predicate Shortest(g: Adjacency, p: seq<nat>, s: nat, t: nat) {
    PathFromTo(g, p, s, t) && LowerBound(g, s, t, PathCost(g, p))
  }

  /** Extending a path by one hop adds that hop's lightest entry to its cost. */
  lemma {:induction false} PathCostAppend(g: Adjacency, p: seq<nat>, x: nat)
    requires IsPath(g, p + [x])
    ensures IsPath(g, p + [x]) && (|p| > 0 ==> IsPath(g, p))
    ensures |p| > 0 ==> Names(g[p[|p| - 1]], x)
    ensures |p| > 0 ==>
      PathCost(g, p + [x]) == PathCost(g, p) + MinWeight(g[p[|p| - 1]], x)
    decreases |p|
  {
    if |p| > 0 {
      var q := p + [x];
      assert q[|p| - 1] == p[|p| - 1] && q[|p|] == x;
      assert IsPath(g, p) by {
        forall i | 0 <= i < |p| ensures p[i] < |g| {
          assert q[i] == p[i];
        }
        forall i | 0 <= i < |p| - 1 ensures Names(g[p[i]], p[i + 1]) {
          assert q[i] == p[i] && q[i + 1] == p[i + 1];
        }
      }
      if |p| > 1 {
        assert q[1..] == p[1..] + [x];
        PathCostAppend(g, p[1..], x);
      }
    }
  }

  /** Prepending a hop `u -> p[0]` to a path gives a path costing that hop more. */
  lemma PathPrepend(g: Adjacency, u: nat, p: seq<nat>)
    requires IsPath(g, p) && u < |g| && Names(g[u], p[0])
    ensures IsPath(g, [u] + p)
    ensures PathCost(g, [u] + p) == MinWeight(g[u], p[0]) + PathCost(g, p)
  {
    var q := [u] + p;
    assert q[1..] == p;
    forall i | 0 <= i < |q| - 1 ensures Names(g[q[i]], q[i + 1]) {
      if i > 0 { assert q[i] == p[i - 1] && q[i + 1] == p[i]; }
    }
  }

  /** Dropping the first district of a path of two or more leaves a path. */
  lemma PathTail(g: Adjacency, p: seq<nat>)
    requires IsPath(g, p) && |p| > 1
    ensures IsPath(g, p[1..])
  {
    forall i | 0 <= i < |p[1..]| - 1 ensures Names(g[p[1..][i]], p[1..][i + 1]) {
      assert p[1..][i] == p[i + 1] && p[1..][i + 1] == p[i + 2];
    }
  }

  /**
   * `d` never drops by more than an entry's weight along that entry: a
   * potential, whose differences bound every path's cost from below.
   */
  predicate Potential(g: Adjacency, d: seq<nat>) {
    |d| == |g| &&
    forall u, k :: 0 <= u < |g| && 0 <= k < |g[u]| && g[u][k].node < |g| ==>
      d[g[u][k].node] <= d[u] + g[u][k].weight
  }

  /** Along a path, a potential rises by at most the path's cost. */
  lemma {:induction false} PotentialBound(g: Adjacency, d: seq<nat>, p: seq<nat>)
    requires Potential(g, d) && IsPath(g, p)
    ensures d[p[|p| - 1]] <= d[p[0]] + PathCost(g, p)
    decreases |p|
  {
    if |p| > 1 {
      PathTail(g, p);
      PotentialBound(g, d, p[1..]);
      var k :| 0 <= k < |g[p[0]]| && g[p[0]][k].node == p[1] && g[p[0]][k].weight == MinWeight(g[p[0]], p[1]);
      assert p[1..][|p[1..]| - 1] == p[|p| - 1];
    }
  }

  /** A potential that is zero at `s` is a lower bound on the cost of reaching every district. */
  lemma PotentialLowerBound(g: Adjacency, d: seq<nat>, s: nat, t: nat)
    requires Potential(g, d) && s < |g| && t < |g| && d[s] == 0
    ensures LowerBound(g, s, t, d[t])
  {
    forall p | PathFromTo(g, p, s, t) ensures d[t] <= PathCost(g, p) {
      PotentialBound(g, d, p);
    }
  }

  /**
   * If the suffix of `p` after place `i` is a path and an entry of length
   * `w` leads from `p[i]` to `p[i + 1]`, the suffix from `i` is a path
   * costing at most `w` more.
   */
  lemma Hop(g: Adjacency, p: seq<nat>, i: nat, w: nat)
    requires i + 1 < |p| && IsPath(g, p[i + 1..]) && p[i] < |g| && Edge(p[i + 1], w) in g[p[i]]
    ensures IsPath(g, p[i..]) && PathCost(g, p[i..]) <= w + PathCost(g, p[i + 1..])
  {
    var k :| 0 <= k < |g[p[i]]| && g[p[i]][k] == Edge(p[i + 1], w);
    assert Names(g[p[i]], p[i + 1..][0]);
    PathPrepend(g, p[i], p[i + 1..]);
    assert [p[i]] + p[i + 1..] == p[i..];
  }

  /** The sum of a sequence of road lengths. */
  function Total(ws: seq<nat>): nat {
    if ws == [] then 0 else ws[0] + Total(ws[1..])
  }

  /**
   * A sequence of districts in which each hop from place `i` on has an
   * entry of the given length is, from place `i` on, a path costing at most
   * the sum of those lengths.
   */
  lemma {:induction false} HopsBound(g: Adjacency, p: seq<nat>, ws: seq<nat>, i: nat)
    requires |p| == |ws| + 1 && i < |p| && forall j :: 0 <= j < |p| ==> p[j] < |g|
    requires forall j :: i <= j < |ws| ==> Edge(p[j + 1], ws[j]) in g[p[j]]
    ensures IsPath(g, p[i..]) && PathCost(g, p[i..]) <= Total(ws[i..])
    decreases |p| - i
  {
    if i < |ws| {
      HopsBound(g, p, ws, i + 1);
      Hop(g, p, i, ws[i]);
      assert ws[i..][1..] == ws[i + 1..];
    }
  }

  /**
   * A path whose cost is met by a potential that is zero at its start is a
   * shortest path, and the potential at its end is its cost.
   */
  lemma PotentialCertifies(g: Adjacency, d: seq<nat>, p: seq<nat>, s: nat, t: nat)
    requires Potential(g, d) && PathFromTo(g, p, s, t) && d[s] == 0 && PathCost(g, p) <= d[t]
    ensures Shortest(g, p, s, t) && PathCost(g, p) == d[t]
  {
    PotentialLowerBound(g, d, s, t);
  }

  /** Two shortest paths between the same districts cost the same. */
  lemma ShortestAgree(g: Adjacency, p: seq<nat>, q: seq<nat>, s: nat, t: nat)
    requires Shortest(g, p, s, t) && Shortest(g, q, s, t)
    ensures PathCost(g, p) == PathCost(g, q)
  {
  }
}
