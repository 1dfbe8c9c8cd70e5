/**
 * The early-exit Dijkstra search of dijkstra.js.
 *
 * `distances` and `previous` (dictionaries keyed by district) are sequences
 * indexed by district; the `unvisited` Set is a set of districts, scanned in
 * its insertion order, which is ascending district order. `Infinity` is the
 * sentinel `Inf`, and `null` in `previous` is `None`.
 */
module ShortestPath {
  import opened Graph

  /** A tentative distance: a length in km, or `Infinity`. */
  datatype Dist = Inf | Fin(val: nat)

  /** A predecessor: a district, or `null`. */
  datatype Option<T> = None | Some(value: T)

  /** JavaScript's `<` on these values: `Infinity` is above every length and not below itself. */
  predicate Less(a: Dist, b: Dist): (r: bool)
    // `Infinity` is below nothing, every length is below `Infinity`, and nothing is below itself
    ensures a.Inf? ==> !r
    ensures a.Fin? && b.Inf? ==> r
    ensures r ==> a != b
  {
    a.Fin? && (b.Inf? || a.val < b.val)
  }

  /** `Less` is a strict total order: irreflexive, transitive, and any two different values compare. */
  lemma LessStrictOrder(a: Dist, b: Dist, c: Dist)
    ensures !Less(a, a)
    ensures Less(a, b) && Less(b, c) ==> Less(a, c)
    ensures a != b ==> Less(a, b) || Less(b, a)
  {
  }

  /** Every district in `unvisited` is a district of a graph with `n` districts. */
  predicate InRange(unvisited: set<nat>, n: nat) {
    forall v :: v in unvisited ==> v < n
  }

  /**
   * Every settled district (one no longer in `unvisited`) has a finite
   * distance that no path from `start` undercuts.
   */
  ghost predicate Settled(g: Adjacency, start: nat, dist: seq<Dist>, unvisited: set<nat>)
    requires |dist| == |g|
  {
    forall u :: 0 <= u < |g| && u !in unvisited ==>
      dist[u].Fin? && LowerBound(g, start, u, dist[u].val)
  }

  /**
   * Every entry of a settled district's list that names an unvisited district
   * has been relaxed: the neighbour is at most that far.
   */
  ghost predicate Relaxed(g: Adjacency, dist: seq<Dist>, unvisited: set<nat>)
    requires |dist| == |g| && InRange(unvisited, |g|)
  {
    forall u, k :: 0 <= u < |g| && u !in unvisited && 0 <= k < |g[u]| && g[u][k].node in unvisited ==>
      dist[u].Fin? && dist[g[u][k].node].Fin? &&
      dist[g[u][k].node].val <= dist[u].val + g[u][k].weight
  }

  /** Settle order of a district: its place in `rank` once settled, `settled` while unvisited. */
  ghost function RankOf(v: nat, rank: seq<nat>, settled: nat, unvisited: set<nat>): nat
    requires v < |rank|
  {
    if v in unvisited then settled else rank[v]
  }

  /**
   * Every predecessor link `previous[v] = u` was set by relaxing entry
   * `via[v]` of the settled district `u`, `v`'s distance is `u`'s plus that
   * entry's length, and `u` was settled before `v`.
   */
  ghost predicate Links(g: Adjacency, dist: seq<Dist>, prev: seq<Option<nat>>, via: seq<nat>,
                        rank: seq<nat>, settled: nat, unvisited: set<nat>)
    requires |dist| == |g| && |prev| == |g| && |via| == |g| && |rank| == |g|
  {
    forall v :: 0 <= v < |g| && prev[v].Some? ==>
      var u := prev[v].value;
      && u < |g| && u !in unvisited
      && via[v] < |g[u]| && g[u][via[v]].node == v
      && dist[u].Fin? && dist[v] == Fin(dist[u].val + g[u][via[v]].weight)
      && rank[u] < RankOf(v, rank, settled, unvisited)
  }

  /**
   * The scan of dijkstra.js:21-29: the first unvisited district, in ascending
   * order, whose distance is strictly below every distance seen before it;
   * `None` when every unvisited district is still at `Infinity`.
   */
  method SelectMin(dist: seq<Dist>, unvisited: set<nat>) returns (current: Option<nat>)
    requires InRange(unvisited, |dist|)
    ensures current.None? <==> forall v :: v in unvisited ==> dist[v] == Inf
    ensures current.Some? ==> current.value in unvisited && dist[current.value].Fin?
    ensures current.Some? ==> forall v :: v in unvisited ==> !Less(dist[v], dist[current.value])
    ensures current.Some? ==>
      forall v :: v in unvisited && v < current.value ==> Less(dist[current.value], dist[v])
  {
    current := None;
    var smallestDistance := Inf;
    for v := 0 to |dist|
      invariant current.None? <==> smallestDistance == Inf
      invariant current.None? ==> forall u :: u in unvisited && u < v ==> dist[u] == Inf
      invariant current.Some? ==>
        current.value < v && current.value in unvisited && dist[current.value] == smallestDistance
      invariant forall u :: u in unvisited && u < v ==> !Less(dist[u], smallestDistance)
      invariant current.Some? ==>
        forall u :: u in unvisited && u < current.value ==> Less(smallestDistance, dist[u])
    {
      if v in unvisited && Less(dist[v], smallestDistance) {
        smallestDistance := dist[v];
        current := Some(v);
      }
    }
  }

  /**
   * A path from `start` into the unvisited districts first enters them at a
   * district whose distance is finite and at most the path's cost.
   */
  lemma {:induction false} Frontier(g: Adjacency, start: nat, dist: seq<Dist>, unvisited: set<nat>,
                                   p: seq<nat>, t: nat)
    returns (z: nat)
    requires |dist| == |g| && InRange(unvisited, |g|)
    requires start in unvisited ==> dist[start] == Fin(0)
    requires Settled(g, start, dist, unvisited) && Relaxed(g, dist, unvisited)
    requires PathFromTo(g, p, start, t) && t in unvisited
    ensures z in p && z in unvisited && dist[z].Fin? && dist[z].val <= PathCost(g, p)
    decreases |p|
  {
    if |p| == 1 {
      z := start;
    } else {
      var q, x := p[..|p| - 1], p[|p| - 1];
      assert p == q + [x];
      PathCostAppend(g, q, x);
      var y := q[|q| - 1];
      if y in unvisited {
        z := Frontier(g, start, dist, unvisited, q, y);
      } else {
        assert PathFromTo(g, q, start, y);
        var k :| 0 <= k < |g[y]| && g[y][k].node == x && g[y][k].weight == MinWeight(g[y], x);
        z := x;
      }
    }
  }

  /**
   * `dist'`, `prev'`, `via'` are what relaxing the first `j` entries of the
   * settled district `c` made of `dist`, `prev`, `via`: only unvisited
   * districts changed, only downwards, each through an entry of `c` naming
   * it, and exactly those took `c` as their predecessor; each of those `j`
   * entries naming an unvisited district is relaxed.
   */
  ghost predicate RelaxedUpTo(g: Adjacency, c: nat, unvisited: set<nat>,
                              dist: seq<Dist>, prev: seq<Option<nat>>, via: seq<nat>,
                              dist': seq<Dist>, prev': seq<Option<nat>>, via': seq<nat>, j: nat)
    requires |dist| == |g| && |prev| == |g| && |via| == |g| && c < |g| && dist[c].Fin? && j <= |g[c]|
    requires InRange(unvisited, |g|)
  {
    && |dist'| == |g| && |prev'| == |g| && |via'| == |g|
    && (forall v :: 0 <= v < |g| && dist'[v] != dist[v] ==>
          && v in unvisited && Less(dist'[v], dist[v]) && prev'[v] == Some(c)
          && via'[v] < |g[c]| && g[c][via'[v]].node == v && dist'[v] == Fin(dist[c].val + g[c][via'[v]].weight))
    && (forall v :: 0 <= v < |g| && dist'[v] == dist[v] ==> prev'[v] == prev[v] && via'[v] == via[v])
    && (forall k :: 0 <= k < j && g[c][k].node in unvisited ==>
          dist'[g[c][k].node].Fin? && dist'[g[c][k].node].val <= dist[c].val + g[c][k].weight)
  }

  /** Relaxing entry `j` of `c` (dijkstra.js:41-50) extends `RelaxedUpTo` by one entry. */
  lemma RelaxEntry(g: Adjacency, c: nat, unvisited: set<nat>,
                   dist: seq<Dist>, prev: seq<Option<nat>>, via: seq<nat>,
                   dist1: seq<Dist>, prev1: seq<Option<nat>>, via1: seq<nat>, j: nat,
                   dist2: seq<Dist>, prev2: seq<Option<nat>>, via2: seq<nat>)
    requires |dist| == |g| && |prev| == |g| && |via| == |g| && c < |g| && dist[c].Fin? && j < |g[c]|
    requires InRange(unvisited, |g|) && c !in unvisited
    requires RelaxedUpTo(g, c, unvisited, dist, prev, via, dist1, prev1, via1, j)
    requires
      var e := g[c][j];
      if e.node in unvisited && Less(Fin(dist1[c].val + e.weight), dist1[e.node]) then
        && dist2 == dist1[e.node := Fin(dist1[c].val + e.weight)]
        && prev2 == prev1[e.node := Some(c)] && via2 == via1[e.node := j]
      else
        dist2 == dist1 && prev2 == prev1 && via2 == via1
    ensures RelaxedUpTo(g, c, unvisited, dist, prev, via, dist2, prev2, via2, j + 1)
  {
    assert dist1[c] == dist[c];
  }

  /**
   * One pass of dijkstra.js:40-51 over the neighbour list of the district `c`
   * that has just been settled: an entry naming an unvisited district whose
   * distance it strictly improves lowers that distance and makes `c` its
   * predecessor; nothing else changes.
   */
  method RelaxNeighbours(g: Adjacency, c: nat, dist: seq<Dist>, prev: seq<Option<nat>>,
                         unvisited: set<nat>, ghost via: seq<nat>)
    returns (dist': seq<Dist>, prev': seq<Option<nat>>, ghost via': seq<nat>)
    requires |dist| == |g| && |prev| == |g| && |via| == |g|
    requires c < |g| && c !in unvisited && dist[c].Fin? && InRange(unvisited, |g|)
    ensures |dist'| == |g| && |prev'| == |g| && |via'| == |g|
    // only unvisited districts change, only downwards, through an entry of `c`
    // naming them, and exactly those take `c` as their predecessor
    ensures forall v :: 0 <= v < |g| && dist'[v] != dist[v] ==>
      && v in unvisited && Less(dist'[v], dist[v]) && prev'[v] == Some(c)
      && via'[v] < |g[c]| && g[c][via'[v]].node == v && dist'[v] == Fin(dist[c].val + g[c][via'[v]].weight)
    ensures forall v :: 0 <= v < |g| && dist'[v] == dist[v] ==> prev'[v] == prev[v] && via'[v] == via[v]
    // every entry of `c` naming an unvisited district has been relaxed
    ensures forall k :: 0 <= k < |g[c]| && g[c][k].node in unvisited ==>
      dist'[g[c][k].node].Fin? && dist'[g[c][k].node].val <= dist[c].val + g[c][k].weight
  {
    dist', prev', via' := dist, prev, via;
    var neighbours := g[c];
    for j := 0 to |neighbours|
      invariant RelaxedUpTo(g, c, unvisited, dist, prev, via, dist', prev', via', j)
    {
      ghost var dist1, prev1, via1 := dist', prev', via';
      var neighbour := neighbours[j];
      if neighbour.node in unvisited {
        var newDistance := dist'[c].val + neighbour.weight;
        if Less(Fin(newDistance), dist'[neighbour.node]) {
          dist' := dist'[neighbour.node := Fin(newDistance)];
          prev' := prev'[neighbour.node := Some(c)];
          via' := via'[neighbour.node := j];
        }
      }
      RelaxEntry(g, c, unvisited, dist, prev, via, dist1, prev1, via1, j, dist', prev', via');
    }
  }

  /** The state of the main loop of dijkstra.js:19-52 between two rounds. */
  ghost predicate Inv(g: Adjacency, start: nat, end: nat, dist: seq<Dist>, prev: seq<Option<nat>>,
                      via: seq<nat>, rank: seq<nat>, settled: nat, unvisited: set<nat>)
  {
    && |dist| == |g| && |prev| == |g| && |via| == |g| && |rank| == |g|
    && start < |g| && InRange(unvisited, |g|) && end in unvisited
    && dist[start] == Fin(0) && prev[start] == None
    && (forall v :: 0 <= v < |g| && v != start ==> (prev[v].Some? <==> dist[v].Fin?))
    && (forall v :: 0 <= v < |g| && v !in unvisited ==> rank[v] < settled)
    && Settled(g, start, dist, unvisited)
    && Relaxed(g, dist, unvisited)
    && Links(g, dist, prev, via, rank, settled, unvisited)
  }

  /** Settling `c` and relaxing its entries leaves every settled distance and its bound in place. */
  lemma SettledKept(g: Adjacency, start: nat, c: nat, unvisited: set<nat>,
                    dist: seq<Dist>, prev: seq<Option<nat>>, via: seq<nat>,
                    dist': seq<Dist>, prev': seq<Option<nat>>, via': seq<nat>)
    requires |dist| == |g| && |prev| == |g| && |via| == |g| && InRange(unvisited, |g|)
    requires c in unvisited && dist[c].Fin? && LowerBound(g, start, c, dist[c].val)
    requires Settled(g, start, dist, unvisited)
    requires RelaxedUpTo(g, c, unvisited - {c}, dist, prev, via, dist', prev', via', |g[c]|)
    ensures Settled(g, start, dist', unvisited - {c})
  {
    forall v | 0 <= v < |g| && v !in unvisited - {c}
      ensures dist'[v].Fin? && LowerBound(g, start, v, dist'[v].val)
    {
      assert dist'[v] == dist[v];
    }
  }

  /** After relaxing `c`, every settled district, `c` included, is relaxed. */
  lemma RelaxedKept(g: Adjacency, c: nat, unvisited: set<nat>,
                    dist: seq<Dist>, prev: seq<Option<nat>>, via: seq<nat>,
                    dist': seq<Dist>, prev': seq<Option<nat>>, via': seq<nat>)
    requires |dist| == |g| && |prev| == |g| && |via| == |g| && InRange(unvisited, |g|)
    requires c in unvisited && dist[c].Fin?
    requires Relaxed(g, dist, unvisited)
    requires RelaxedUpTo(g, c, unvisited - {c}, dist, prev, via, dist', prev', via', |g[c]|)
    ensures Relaxed(g, dist', unvisited - {c})
  {
    var unvisited' := unvisited - {c};
    forall u, k | 0 <= u < |g| && u !in unvisited' && 0 <= k < |g[u]| && g[u][k].node in unvisited'
      ensures dist'[u].Fin? && dist'[g[u][k].node].Fin? &&
              dist'[g[u][k].node].val <= dist'[u].val + g[u][k].weight
    {
      var x := g[u][k].node;
      assert dist'[u] == dist[u];
      if u != c {
        assert dist'[x] == dist[x] || Less(dist'[x], dist[x]);
      }
    }
  }

  /** After settling and relaxing `c`, every predecessor link still holds. */
  lemma LinksKept(g: Adjacency, c: nat, unvisited: set<nat>, rank: seq<nat>, settled: nat,
                  dist: seq<Dist>, prev: seq<Option<nat>>, via: seq<nat>,
                  dist': seq<Dist>, prev': seq<Option<nat>>, via': seq<nat>)
    requires |dist| == |g| && |prev| == |g| && |via| == |g| && |rank| == |g| && InRange(unvisited, |g|)
    requires c in unvisited && dist[c].Fin?
    requires forall v :: 0 <= v < |g| && v !in unvisited ==> rank[v] < settled
    requires Links(g, dist, prev, via, rank, settled, unvisited)
    requires RelaxedUpTo(g, c, unvisited - {c}, dist, prev, via, dist', prev', via', |g[c]|)
    ensures Links(g, dist', prev', via', rank[c := settled], settled + 1, unvisited - {c})
  {
    var unvisited', rank', settled' := unvisited - {c}, rank[c := settled], settled + 1;
    forall v | 0 <= v < |g| && prev'[v].Some?
      ensures var u := prev'[v].value;
        && u < |g| && u !in unvisited'
        && via'[v] < |g[u]| && g[u][via'[v]].node == v
        && dist'[u].Fin? && dist'[v] == Fin(dist'[u].val + g[u][via'[v]].weight)
        && rank'[u] < RankOf(v, rank', settled', unvisited')
    {
      if dist'[v] == dist[v] {
        var u := prev[v].value;
        assert u != c && u !in unvisited;
        assert dist'[u] == dist[u];
      } else {
        assert dist'[c] == dist[c];
      }
    }
  }

  /**
   * One round of the main loop keeps its invariant: settling the selected
   * district `c` (removing it from `unvisited`) and relaxing its entries.
   */
  lemma RoundKeepsInv(g: Adjacency, start: nat, end: nat, dist: seq<Dist>, prev: seq<Option<nat>>,
                      via: seq<nat>, rank: seq<nat>, settled: nat, unvisited: set<nat>, c: nat,
                      dist': seq<Dist>, prev': seq<Option<nat>>, via': seq<nat>)
    requires Inv(g, start, end, dist, prev, via, rank, settled, unvisited)
    requires c in unvisited && c != end && dist[c].Fin? && LowerBound(g, start, c, dist[c].val)
    requires RelaxedUpTo(g, c, unvisited - {c}, dist, prev, via, dist', prev', via', |g[c]|)
    ensures Inv(g, start, end, dist', prev', via', rank[c := settled], settled + 1, unvisited - {c})
  {
    SettledKept(g, start, c, unvisited, dist, prev, via, dist', prev', via');
    RelaxedKept(g, c, unvisited, dist, prev, via, dist', prev', via');
    LinksKept(g, c, unvisited, rank, settled, dist, prev, via, dist', prev', via');
  }

  /** Each round removes one district from `unvisited`, so the main loop ends. */
  lemma RemoveShrinks(unvisited: set<nat>, c: nat)
    requires c in unvisited
    ensures |unvisited - {c}| < |unvisited|
  {
  }

  /** The state set up by dijkstra.js:9-16 satisfies the loop invariant. */
  lemma InitialInv(g: Adjacency, start: nat, end: nat, dist: seq<Dist>, prev: seq<Option<nat>>,
                   via: seq<nat>, rank: seq<nat>, unvisited: set<nat>)
    requires start < |g| && end < |g|
    requires |dist| == |g| && |prev| == |g| && |via| == |g| && |rank| == |g|
    requires forall u :: u in unvisited <==> 0 <= u < |g|
    requires forall u :: 0 <= u < |g| ==> prev[u] == None && dist[u] == if u == start then Fin(0) else Inf
    ensures Inv(g, start, end, dist, prev, via, rank, 0, unvisited)
  {
  }

  /**
   * The district chosen by `SelectMin` is settled: no path from `start`
   * reaches it for less than its distance.
   */
  lemma SelectedIsSettled(g: Adjacency, start: nat, end: nat, dist: seq<Dist>, prev: seq<Option<nat>>,
                          via: seq<nat>, rank: seq<nat>, settled: nat, unvisited: set<nat>, c: nat)
    requires Inv(g, start, end, dist, prev, via, rank, settled, unvisited)
    requires c in unvisited && dist[c].Fin? && forall v :: v in unvisited ==> !Less(dist[v], dist[c])
    ensures LowerBound(g, start, c, dist[c].val)
  {
    forall p | PathFromTo(g, p, start, c) ensures dist[c].val <= PathCost(g, p) {
      var z := Frontier(g, start, dist, unvisited, p, c);
    }
  }

  /**
   * What the main loop leaves for the path reconstruction: every predecessor
   * link is a relaxed entry walked back in settle order, a finite distance
   * other than `start`'s has a predecessor, and `end`'s distance is `Inf`
   * exactly when `end` is unreachable and is otherwise a lower bound.
   */
  ghost predicate Traceable(g: Adjacency, start: nat, end: nat, dist: seq<Dist>, prev: seq<Option<nat>>,
                            via: seq<nat>, rank: seq<nat>, settled: nat, unvisited: set<nat>)
  {
    && |dist| == |g| && |prev| == |g| && |via| == |g| && |rank| == |g|
    && start < |g| && end < |g|
    && dist[start] == Fin(0) && prev[start] == None
    && (forall v :: 0 <= v < |g| && v != start ==> (prev[v].Some? <==> dist[v].Fin?))
    && Links(g, dist, prev, via, rank, settled, unvisited)
    && (dist[end].Inf? ==> !Reachable(g, start, end))
    && (dist[end].Fin? ==> LowerBound(g, start, end, dist[end].val))
  }

  /**
   * When the main loop stops, `end`'s distance is `Inf` exactly when no path
   * reaches it, and is otherwise a lower bound on every path to it.
   */
  lemma ExitTraceable(g: Adjacency, start: nat, end: nat, dist: seq<Dist>, prev: seq<Option<nat>>,
                      via: seq<nat>, rank: seq<nat>, settled: nat, unvisited: set<nat>, current: Option<nat>)
    requires Inv(g, start, end, dist, prev, via, rank, settled, unvisited) && end < |g|
    requires current.None? ==> forall v :: v in unvisited ==> dist[v] == Inf
    requires current.Some? ==>
      current.value == end && dist[end].Fin? && forall v :: v in unvisited ==> !Less(dist[v], dist[end])
    ensures Traceable(g, start, end, dist, prev, via, rank, settled, unvisited)
  {
    forall p | PathFromTo(g, p, start, end) ensures dist[end].Fin? && dist[end].val <= PathCost(g, p) {
      var z := Frontier(g, start, dist, unvisited, p, end);
    }
  }

  /**
   * dijkstra.js:54-69: no path when `end` has no predecessor and is not
   * `start`; otherwise the predecessor links walked back from `end`, and
   * `end`'s distance.
   */
  method TracePath(g: Adjacency, start: nat, end: nat, dist: seq<Dist>, prev: seq<Option<nat>>,
                   ghost via: seq<nat>, ghost rank: seq<nat>, ghost settled: nat, ghost unvisited: set<nat>)
    returns (path: seq<nat>, distance: Dist)
    requires Traceable(g, start, end, dist, prev, via, rank, settled, unvisited)
    ensures path == [] <==> distance == Inf
    ensures path == [] <==> !Reachable(g, start, end)
    ensures path != [] ==> Shortest(g, path, start, end) && distance == Fin(PathCost(g, path))
    ensures start == end ==> path == [start] && distance == Fin(0)
  {
    if prev[end] == None && end != start {
      return [], Inf;
    }
    path := [];
    var current: Option<nat> := Some(end);
    while current.Some?
      invariant current.Some? ==> current.value < |g|
      invariant path == [] ==> current == Some(end)
      invariant path != [] ==>
        && PathFromTo(g, path, path[0], end) && current == prev[path[0]] && dist[path[0]].Fin?
        && PathCost(g, path) + dist[path[0]].val <= dist[end].val
      invariant start == end ==> path == [] || path == [start]
      decreases if current.Some? then RankOf(current.value, rank, settled, unvisited) + 1 else 0
    {
      var v := current.value;
      if path != [] {
        PathPrepend(g, v, path);
      }
      path := [v] + path;
      current := prev[v];
    }
    distance := dist[end];
  }

  /**
   * dijkstra.js:2-70. The result is the empty path with `Inf` exactly when
   * `end` cannot be reached from `start`; otherwise it is a shortest path from
   * `start` to `end` and its cost.
   */
  method Dijkstra(g: Adjacency, start: nat, end: nat) returns (path: seq<nat>, distance: Dist)
    requires start < |g| && end < |g|
    ensures path == [] <==> distance == Inf
    ensures path == [] <==> !Reachable(g, start, end)
    ensures path != [] ==> Shortest(g, path, start, end) && distance == Fin(PathCost(g, path))
    ensures start == end ==> path == [start] && distance == Fin(0)
  {
    var n := |g|;
    var dist: seq<Dist> := [];
    var prev: seq<Option<nat>> := [];
    var unvisited: set<nat> := {};
    for v := 0 to n
      invariant |dist| == v && |prev| == v
      invariant forall u :: 0 <= u < v ==> dist[u] == Inf && prev[u] == None
      invariant forall u :: u in unvisited <==> 0 <= u < v
    {
      dist := dist + [Inf];
      prev := prev + [None];
      unvisited := unvisited + {v};
    }
    dist := dist[start := Fin(0)];

    ghost var via: seq<nat> := seq(n, _ => 0);
    ghost var rank: seq<nat> := seq(n, _ => 0);
    ghost var settled: nat := 0;
    InitialInv(g, start, end, dist, prev, via, rank, unvisited);
    var current: Option<nat> := None;

    while unvisited != {}
      invariant Inv(g, start, end, dist, prev, via, rank, settled, unvisited)
      decreases |unvisited|
    {
      current := SelectMin(dist, unvisited);
      if current.None? || current.value == end {
        break;
      }
      var c := current.value;

      SelectedIsSettled(g, start, end, dist, prev, via, rank, settled, unvisited, c);
      var dist', prev', via' := RelaxNeighbours(g, c, dist, prev, unvisited - {c}, via);
      RoundKeepsInv(g, start, end, dist, prev, via, rank, settled, unvisited, c, dist', prev', via');
      RemoveShrinks(unvisited, c);
      unvisited := unvisited - {c};
      rank := rank[c := settled];
      settled := settled + 1;
      dist, prev, via := dist', prev', via';
    }
    // The loop only ends by a break: `end` is selected, or nothing finite is left.
    ExitTraceable(g, start, end, dist, prev, via, rank, settled, unvisited, current);
    path, distance := TracePath(g, start, end, dist, prev, via, rank, settled, unvisited);
  }
}
