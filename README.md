# Muğla Smart Pathfinder — a verified model of the road graph and its shortest-path search

The pathfinder answers one question: what is the shortest road route between two
of the thirteen districts of Muğla? Its core has three parts, and each is modelled here.

- **The district table and the authored road table** (`data.js:2-72`). Module `Mugla`
  holds them. Districts are numbered by their key order, and `Mugla.DistrictNames`
  keeps the keys. `Mugla.Authored` lists every key's road list in source order.
- **The graph builder** `createBidirectionalGraph` (`data.js:75-105`). Module
  `RoadGraph` holds it as the method `RoadGraph.CreateBidirectionalGraph`:
  - It starts every district with an empty list.
  - It walks the authored keys in order.
  - For every road `from -> to` it pushes the forward entry.
  - It pushes the reflected entry `to -> from` only when `to`'s list does not
    already name `from`.
  - It returns the districts left without any entry; the source warns about
    these on the console.
  - The per-key step is the helper method `RoadGraph.AddKeyRoads`. The warning
    loop is `RoadGraph.Unconnected`.
  - The method is proved equal to `RoadGraph.Build`, which folds the same step
    (`RoadGraph.AddArc`) over the roads in authored order. The lemmas state what
    that fold guarantees.
- **Dijkstra's algorithm** `dijkstra` (`dijkstra.js:2-70`). Module `ShortestPath`
  holds it:
  - a linear minimum scan over the unvisited set;
  - an early exit at the end district, or when nothing reachable remains;
  - relaxation of the current district's entries;
  - the walk back along `previous`.

  The proof keeps a loop invariant:
  - every visited district carries its true shortest distance;
  - every unvisited one carries the best distance through visited districts;
  - the `previous` links form a chain of entries back to the start.

  The specification vocabulary lives in module `Graph`: paths, path cost,
  reachability and shortest paths.

A road appears in an adjacency list as an entry naming a neighbour and a length in km. A
path is a sequence of districts, each named by an entry of the one before. A hop costs
the lightest entry naming the next district. Parallel entries arise whenever a pair is
authored both ways, or a key lists the same target twice, since the forward push at
`data.js:87` is unconditional. Their lengths differ only when the authored lengths
differ, and the search itself always uses the lightest.

The shipped data is also certified. The graph built from it is symmetric, and it has no
district without a connection. The route Bodrum → Milas → Yatağan → Menteşe → Ula →
Köyceğiz → Ortaca → Fethiye, 252 km, is a shortest route. That is shown by a potential:
the table of Bodrum distances `Mugla.FromBodrum` never drops by more than a road's
length along a road. The search, run on the shipped graph as the route planner does
at `script.js:61`, is proved to return a shortest Bodrum–Fethiye route of 252 km.

The builder always pushes the forward entry, even when the reflection of an earlier key
already put the same entry into the list. Only the reverse push is guarded. So a pair
authored in both directions ends up with two entries in the later key's list. The model
follows the code. `RoadGraph.DuplicateEntry` proves this happens in general, and
`Mugla.MilasNamesBodrumTwice` proves it for the shipped data. So the builder does not keep
each direction of a road only once.

## Model

| member | source | states |
|---|---|---|
| `ShortestPath.Dijkstra` | dijkstra.js:2-70 | for valid start and end districts: the path is empty exactly when the distance is Infinity, and exactly when the end cannot be reached; otherwise the path runs from start to end, no path between them is cheaper, and the distance is its cost; start equal to end gives `[start]` at distance 0 |
| `ShortestPath.SelectMin` | dijkstra.js:21-29 | picks nothing exactly when every unvisited district is at Infinity; otherwise picks an unvisited district with a finite distance that no unvisited district beats strictly, and the lowest-numbered one among ties (the strict `<` of the scan keeps the first) |
| `ShortestPath.RelaxNeighbours` | dijkstra.js:40-51 | only unvisited districts change; each changed distance strictly decreases to the current distance plus the length of an entry of the current district that names it, and its predecessor becomes the current district; unchanged districts keep their predecessor; afterwards every entry of the current district naming an unvisited district is relaxed |
| `ShortestPath.RelaxEntry` | dijkstra.js:41-50 | handling one more neighbour entry keeps the relaxation facts for all entries handled so far, and adds them for that entry |
| `ShortestPath.Frontier` | dijkstra.js:19-52 | any path from the start to an unvisited district passes through an unvisited district (one lying on the path) whose tentative distance is at most that path's cost |
| `ShortestPath.SelectedIsSettled` | dijkstra.js:21-37 | the unvisited district with the least finite distance has its shortest distance: every path from the start to it costs at least that much |
| `ShortestPath.SettledKept` | dijkstra.js:37-51 | after visiting the selected district and relaxing its entries, every visited district, the new one included, still has a finite distance that no path from the start undercuts |
| `ShortestPath.RelaxedKept` | dijkstra.js:37-51 | after a round, every unvisited district's distance is still at most the cost through any visited neighbour |
| `ShortestPath.LinksKept` | dijkstra.js:37-51 | after a round, every predecessor link still points to a visited district settled earlier, through an entry of that district naming the linked one, whose length is the difference of their distances |
| `ShortestPath.RoundKeepsInv` | dijkstra.js:19-52 | one round of the main loop preserves the whole loop invariant |
| `ShortestPath.InitialInv` | dijkstra.js:9-16 | the initial tables (start at 0, all others at Infinity, no predecessors, all unvisited) satisfy the loop invariant |
| `ShortestPath.RemoveShrinks` | dijkstra.js:37 | deleting the current district shrinks the unvisited set, so the main loop terminates |
| `ShortestPath.ExitTraceable` | dijkstra.js:31-34 | on either exit (nothing selectable, or the end selected), the end's distance is Infinity only when no path reaches it, a finite distance bounds every path to it from below, and the predecessor links are walkable back to the start |
| `ShortestPath.TracePath` | dijkstra.js:54-69 | the walk back from the end returns the empty path at Infinity exactly when the end is unreachable, and otherwise a shortest path from start to end whose cost is the reported distance |
| `ShortestPath.Less` | dijkstra.js:25 | JavaScript's `<` on distances as used at dijkstra.js:25 and dijkstra.js:46: `Infinity` is below nothing, every length is below `Infinity`, and no value is below itself |
| `ShortestPath.LessStrictOrder` | dijkstra.js:25 | that comparison is a strict total order: irreflexive, transitive, and any two different values compare one way |
| `Graph.MinWeight` | dijkstra.js:43-48 | the cost of a hop is an entry naming the neighbour, and no entry naming it is lighter (the one relaxation keeps after trying every entry) |
| `Graph.PotentialCertifies` | dijkstra.js:2-70 | a path whose cost is met by a potential that is zero at its start is a shortest path, and its cost equals the potential at its end |
| `RoadGraph.CreateBidirectionalGraph` | data.js:75-105 | for a table whose keys and targets are districts: the result is the ordered fold of the road step over the authored roads; it has a list for every district; every authored entry is kept in its key's list and its target's list names the key back; the result is symmetric; the reported districts are exactly those with an empty list |
| `RoadGraph.AddKeyRoads` | data.js:85-94 | handling one key's road list in order equals applying the road step to each of its roads in turn |
| `RoadGraph.Unconnected` | data.js:98-102 | reports exactly the districts whose list is empty |
| `RoadGraph.Empty` | data.js:79-81 | every district starts with an empty list |
| `RoadGraph.AddArc` | data.js:86-93 | one road step keeps the list count, only extends lists, touches only the road's two ends, appends the forward entry, appends the reflection exactly when the target's list did not name the source, and leaves the target naming the source |
| `RoadGraph.Arcs` | data.js:84-85 | the roads in the order the builder visits them, keys in order and each list in order, one road per authored entry (its length is the number of entries); membership and order are stated by `ArcsListed`, `ArcPosition` and `ArcsOrdered` |
| `RoadGraph.Build` | data.js:84-95 | the state the builder reaches after a sequence of roads, starting from empty lists: one list per district; the builder's properties are proved about it in the lemmas below |
| `RoadGraph.BuildNamesDistricts` | data.js:84-95 | every entry of the built lists names a district |
| `RoadGraph.AddAll` | data.js:84-95 | the same road steps applied from any starting state: the list count is kept and lists only grow at the end |
| `RoadGraph.KeyArcs` | data.js:84-85 | a key's roads, in list order, one per authored entry |
| `RoadGraph.ArcsListed` | data.js:84-85 | a road is among those the builder visits exactly when some key's list holds its entry |
| `RoadGraph.ArcPosition` | data.js:84-85 | entry `j` of key `i` is visited right after the entries of all earlier keys and the first `j` entries of key `i` |
| `RoadGraph.ArcsOrdered` | data.js:84-85 | every entry of an earlier key is visited before every entry of a later key |
| `RoadGraph.ArcsPrefix` | data.js:84-85 | the roads of the first `i` keys are a prefix of all roads visited |
| `RoadGraph.ArcsNext` | data.js:84-85 | the roads of the first `i + 1` keys are those of the first `i` followed by key `i`'s |
| `RoadGraph.ArcsWithin` | data.js:84-90 | when every key and target is a district, so is every end of every visited road |
| `RoadGraph.BuildAppend` | data.js:84-95 | building from a longer road sequence equals continuing the build from the shorter one's result |
| `RoadGraph.BuildStep` | data.js:84-95 | the build after road `k` is one road step applied to the build before it |
| `RoadGraph.BuildPrefix` | data.js:84-95 | lists only grow: the build after the first `k` roads is, list by list, a prefix of the final one |
| `RoadGraph.AddArcSymmetric` | data.js:86-93 | a road step keeps a symmetric adjacency symmetric |
| `RoadGraph.BuildSymmetric` | data.js:84-95 | the built adjacency is symmetric: whenever `u`'s list names `v`, `v`'s list names `u` |
| `RoadGraph.BuildForward` | data.js:87 | road `k`'s forward entry sits in its source's final list right after what that list held before road `k` |
| `RoadGraph.ForwardInOrder` | data.js:84-87 | forward entries of the same source land in authored order |
| `RoadGraph.BuildReverse` | data.js:90-93 | after all roads, the target of every road names its source |
| `RoadGraph.BuildReflected` | data.js:90-93 | when the target's list did not name the source before road `k`, the reflection with the authored length lands right after what that list held |
| `RoadGraph.BuildSound` | data.js:84-95 | every entry of the result is some road's forward entry in its source's list or its reflection in its target's list; nothing else is invented |
| `RoadGraph.EmptyIffUntouched` | data.js:98-102 | a district's list ends up empty exactly when no road starts or ends at it |
| `RoadGraph.NamedLater` | data.js:90-93 | once road `k1` has been handled, its target's list names its source at every later point |
| `RoadGraph.DuplicateAt` | data.js:86-93 | a pair of districts whose roads point at each other gives the later road's source two entries naming the other district |
| `RoadGraph.DuplicateEntry` | data.js:86-93 | when key `i1` lists a road to key `i2` and key `i2` lists one back, with `i1` before `i2`, key `i2`'s final list names key `i1` twice |
| `RoadGraph.RoadKept` | data.js:84-95 | each authored entry is in its key's final list, and its target's final list names the key |
| `RoadGraph.AuthoredKept` | data.js:84-95 | the same for every authored entry at once |
| `Mugla.AuthoredWellFormed` | data.js:20-72 | the road table has one key per district, in district order, each with a non-empty list of roads to districts |
| `Mugla.NoDistrictIsolated` | data.js:20-72 | in the graph built from the shipped table, no district has an empty list, so the builder warns about none |
| `Mugla.ShippedGraph` | data.js:107-108 | the shipped graph is the fold over the authored roads, it is symmetric, and no district is reported unconnected |
| `Mugla.MilasNamesBodrumTwice` | data.js:50-53 | Milas's list in the shipped graph holds two entries naming Bodrum |
| `Mugla.BalancedPotential` | data.js:20-72 | a distance table that never drops by more than an authored road's length across that road, in either direction, is a potential of the built graph |
| `Mugla.BalancedEntry` | data.js:20-72 | each single entry of the closure of a balanced table, forward or reflected, keeps the balance |
| `Mugla.FromBodrumBalanced` | data.js:20-72 | the Bodrum distance table is balanced against the authored road table |
| `Mugla.RouteHops` | data.js:20-72 | each hop of the Bodrum–Fethiye route has an entry of the listed length |
| `Mugla.RouteWithin` | data.js:20-72 | the Bodrum–Fethiye route is a path costing at most 252 km in any graph holding those entries |
| `Mugla.RouteEntries` | data.js:20-72 | the shipped graph holds each entry of the Bodrum–Fethiye route |
| `Mugla.RouteShortest` | data.js:20-72 | in any graph with those entries that has the Bodrum distances as a potential, the route is shortest and costs 252 km |
| `Mugla.BodrumToFethiye` | data.js:20-72 | in the shipped graph, Bodrum → Milas → Yatağan → Menteşe → Ula → Köyceğiz → Ortaca → Fethiye is a shortest route, of 252 km |
| `Mugla.ShippedBodrumToFethiye` | script.js:61 | the search on the shipped graph from Bodrum to Fethiye returns a shortest route and the distance 252 |

## Left out

- Districts are numbered 0..n-1 in key order rather than keyed by name. JavaScript
  iterates string keys and `Set` members in insertion order, and the model iterates
  in ascending index order, which is the same order. The names survive only as
  `Mugla.DistrictNames`.
- The district coordinates (`lat`, `lng`, `id`) are not modelled. Neither the builder
  nor the search reads them.
- The console warning at `data.js:100` is not modelled as output. The districts it
  would name are returned as the `isolated` set.
- The input requirements are not modelled as runtime behaviour:
  - `RoadGraph.CreateBidirectionalGraph` requires every authored key and target to be
    a district. For an unknown key the forward push at `data.js:87` throws a TypeError
    (`push` on an undefined list); for an unknown target the `some` call at `data.js:90`
    throws one.
  - `ShortestPath.Dijkstra` requires the start and end to be districts. For an unknown
    start every district stays at Infinity, the scan selects nothing, the loop stops at
    `dijkstra.js:32-33`, and the source reports no path. For an unknown end the loop
    stops the same way or once everything is visited, but `previous[endNode]` is
    `undefined`, so the test at `dijkstra.js:59` fails and the walk at
    `dijkstra.js:64-67` never terminates: the source never returns.
- Road lengths are unbounded naturals. JavaScript doubles and their rounding are not
  modelled, and the shipped lengths are small integers.
- `Infinity` is the `Inf` case of the distance datatype rather than a float value.
- The builder does not reject a pair authored in both directions with different
  lengths. The reflection carries the first authored length. The model keeps both
  entries and takes the lightest one as a hop's cost; the search also ends up using
  the lightest one.
- `ShortestPath.Dijkstra` keeps the source's loop structure and its early exit. Not
  modelled: the object identity of `distances` and `previous` and the mutation of `path`
  by `unshift`. These are sequences reassigned by the methods.
- The user interface of `script.js` is not modelled (map drawing, form handling, alerts).
  Its only part in this model is the call `dijkstra(bidirectionalGraph, start, end)` at
  `script.js:61`, covered by `Mugla.ShippedBodrumToFethiye` for one district pair.
- `Mugla.ShippedBodrumToFethiye` certifies the shipped data only for the Bodrum–Fethiye
  pair. Other pairs are covered by the general contract of `ShortestPath.Dijkstra`, not
  by a concrete distance.
