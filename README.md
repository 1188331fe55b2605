# Bellman-Ford single-source shortest paths

This project models `ford_bellman` from `ford_bellman.py`, the Bellman-Ford algorithm over a
directed weighted graph, and proves what it computes.

The function keeps a table from each node to a record (distance, path). It starts every node
at infinity with an empty path, except the source, which starts at 0 with path `[source]`. It
then makes up to |V| - 1 passes over the edges. Each pass relaxes an edge u -> v of weight w
only when `dist[u] + w < dist[v]`: it sets `dist[v]` to `dist[u] + w` and `path[v]` to
`path[u] + [v]`. The loop stops after the first pass that relaxes nothing. A last scan over the
edges returns `None` as soon as some edge can still be relaxed; otherwise the function returns
the table.

The modules follow that structure:

- `Distances`: distances extended with infinity (`Inf | Fin(n)`). `Add`, `Less` and `Le` let
  infinity absorb any finite weight; it is never smaller than anything.
- `Graphs`: a graph as a node sequence plus an edge sequence, in the iteration order of the
  graph. `ValidGraph` holds what a directed graph guarantees: distinct nodes, edges between
  nodes and one edge per ordered pair. The module also defines walks, the cost of a walk,
  negative cycles reachable from a node, and the removal of cycles from a walk.
- `Relaxation`: the table and its steps as functions. These are:
  - `InitTable`;
  - `Relax`, which relaxes one edge;
  - `PassPrefix` and `Pass`, the edges of one pass, in order;
  - `Iterate`, the passes with early exit, and `Repeat`, the same number of full passes
    without it;
  - `Passes`;
  - `ShortestPaths`, the outcome after the final scan.
- `Theory`: what those functions satisfy.
- `Algorithm`: `ford_bellman` as the program runs it. The table is a local map rewritten in
  place by nested loops, with the `updated` flag, the `break` on it and the early return in the
  final scan. Each method is proved equal to the specification function of `Relaxation`.
- `Fixtures`: the two example graphs G and A of the file, and what `ford_bellman` returns on
  them from `"A"`.

What is proved, in short:

- **Path invariant.** After any number of steps, a record's path is non-empty exactly when its
  distance is finite. Such a path is a walk from the source to that node whose total weight is
  the recorded distance.
- **Monotone distances.** Distances only decrease. An unreached node never relaxes an edge.
- **Passes.** At most |V| - 1 passes are made, and the loop stops right after the first pass
  that relaxes nothing. Early exit returns the same table as running all passes.
- **Outcome.**
  - The result is `None` exactly when some edge can still be relaxed after the passes. That
    happens exactly when a negative cycle is reachable from the source.
  - Otherwise every distance is a lower bound on the cost of every walk from the source.
  - A node is reached exactly when some walk leads to it.
  - The table's keys are exactly the graph's nodes.

## Model

| member | source | states |
|---|---|---|
| Relaxation.InitTable | ford_bellman.py:60-64 | the initial table has exactly the graph's nodes as keys; the source has distance 0 and path [source]; every other node has distance infinity and an empty path |
| Distances.Add | ford_bellman.py:71-72 | dist[u] + w is finite exactly when dist[u] is, and then exceeds dist[u] by w: infinity plus a weight stays infinity |
| Distances.LessOrder | ford_bellman.py:71 | the comparison of distances is a strict total order with infinity above every finite distance and not below itself |
| Relaxation.ImprovesSpec | ford_bellman.py:71 | the relaxation test never passes for an unreached u, always passes for a reached u against an unreached v, and between finite distances is dist[u] + w < dist[v] on integers |
| Relaxation.Relax | ford_bellman.py:71-73 | relaxing one edge never adds or removes a record; what it does to the records is stated by RelaxSpec, the next row |
| Relaxation.RelaxSpec | ford_bellman.py:71-74 | relaxing edge u -> v sets the flag exactly when dist[u] + w < dist[v]; it leaves dist[v] <= dist[u] + w, rewrites no record but v's and never raises a distance; an unreached u never relaxes |
| Relaxation.PassPrefix | ford_bellman.py:68-74 | the first j edges of a pass keep the table's keys, and leave the table as it was when the flag stays false |
| Relaxation.Pass | ford_bellman.py:68-74 | one pass keeps the table's keys, and leaves the table as it was when it sets no flag |
| Relaxation.FixpointTight | ford_bellman.py:81-84 | a table covering the edges passes the final scan (no edge relaxes) exactly when every edge u -> v of weight w satisfies dist[v] <= dist[u] + w |
| Relaxation.Iterate | ford_bellman.py:67-78 | the outer loop with early exit keeps the table's keys and makes at most fuel passes, and at least one when fuel > 0 |
| Relaxation.Passes | ford_bellman.py:66-78 | the passes keep the graph's nodes as keys and number at most n - 1 on a graph of n nodes, so none for a one-node graph |
| Relaxation.ShortestPaths | ford_bellman.py:59-86 | the outcome is the unknown-source failure exactly when the source is not a node of the graph; otherwise it is the table after the passes exactly when no edge of that table can be relaxed, and a negative cycle (None) when one can |
| Theory.InitCovers | ford_bellman.py:60-62 | in a valid graph, the initial table has a record for both ends of every edge, so no lookup of a relaxation fails |
| Theory.InitPathsValid | ford_bellman.py:60-64 | the initial table satisfies the path invariant |
| Theory.RelaxPreservesPaths | ford_bellman.py:71-73 | relaxing an edge keeps the path invariant: path[u] + [v] is a walk from the source to v whose cost is dist[u] + w |
| Theory.PassPrefixPreservesPaths | ford_bellman.py:69-74 | every prefix of a pass keeps the path invariant |
| Theory.IteratePreservesPaths | ford_bellman.py:67-78 | any number of passes, with early exit, keeps the path invariant |
| Theory.PassPrefixRefines | ford_bellman.py:69-74 | during a pass the keys stay the same, no distance increases, and a record whose distance is unchanged is unchanged |
| Theory.RepeatRefines | ford_bellman.py:67-74 | full passes never raise a distance or change the keys |
| Theory.IterateRefines | ford_bellman.py:67-78 | the passes with early exit never raise a distance or change the keys |
| Theory.PassPrefixUpdated | ford_bellman.py:68-74 | a prefix of a pass leaves the flag false exactly when none of its edges improves the starting table |
| Theory.PassUpdatedIffNotFixpoint | ford_bellman.py:68-78 | a pass sets the updated flag exactly when some edge can still be relaxed; a pass that sets no flag changes nothing |
| Theory.RepeatStable | ford_bellman.py:77-78 | after a pass that relaxes nothing, further passes change nothing |
| Theory.RepeatLast | ford_bellman.py:67 | k + 1 passes are k passes followed by one more |
| Theory.IterateIsRepeat | ford_bellman.py:77-78 | the table after early exit is the table after all the passes without it |
| Theory.IteratePassesTable | ford_bellman.py:67-78 | the table the loop leaves is the table after as many full passes as it made |
| Theory.IteratePasses | ford_bellman.py:67-78 | every pass before the last one relaxed something; when the loop stops before the pass budget is used up, its last pass relaxed nothing |
| Theory.PassPrefixBound | ford_bellman.py:69-74 | after edge m of a pass, dist[v] <= (dist[u] at the start of the pass) + w, and no later edge of the pass undoes this |
| Theory.PassExtendsBound | ford_bellman.py:71-73 | a pass extends a bound on the walk p minus its last edge to a bound on p at its end |
| Theory.RepeatWalkBound | ford_bellman.py:67-74 | after k passes, every node at the end of a walk of at most k edges from the source is no farther than that walk's cost |
| Theory.FixpointWalkBound | ford_bellman.py:81-86 | in a table where no edge relaxes, a walk from a reached node a ends no farther than dist[a] plus the walk's cost |
| Theory.RepeatEdgeSettled | ford_bellman.py:67-82 | without a reachable negative cycle, no edge can be relaxed after n - 1 full passes on a graph of n nodes |
| Theory.NoNegativeCycleFixpoint | ford_bellman.py:67-82 | without a reachable negative cycle, the table after the passes is a fixed point of relaxation |
| Theory.SettledLowerBound | ford_bellman.py:81-86 | in a settled table (one the final scan accepts that also keeps the path invariant with the source at most 0 away, as every returned table does by ResultSettled), every walk from the source to x costs at least dist[x], which is finite |
| Theory.SettledNoNegativeCycle | ford_bellman.py:81-86 | in a settled table (one the final scan accepts that also keeps the path invariant with the source at most 0 away, as every returned table does by ResultSettled), no negative cycle is reachable from the source |
| Theory.SettledSource | ford_bellman.py:63-64 | in a settled table (one the final scan accepts that also keeps the path invariant with the source at most 0 away, as every returned table does by ResultSettled), the source is exactly 0 away |
| Theory.PassesPathsValid | ford_bellman.py:60-78 | the table after the passes satisfies the path invariant |
| Theory.PassesRefine | ford_bellman.py:60-78 | the table after the passes only lowers the initial distances |
| Theory.ResultSettled | ford_bellman.py:81-86 | a returned table covers every edge, admits no relaxation, satisfies the path invariant and has the source at distance at most 0 |
| Theory.ResultEdgesTight | ford_bellman.py:81-86 | in a returned table, every edge u -> v of weight w satisfies dist[v] <= dist[u] + w |
| Theory.ResultIsLowerBound | ford_bellman.py:81-86 | in a returned table, dist[x] is finite and at most the cost of any walk from the source to x |
| Theory.NegativeCycleDetected | ford_bellman.py:80-84 | a negative cycle reachable from the source makes the result None |
| Theory.NoNegativeCycleIsPaths | ford_bellman.py:80-86 | without a reachable negative cycle, the result is the table after the passes |
| Theory.NegativeCycleIff | ford_bellman.py:80-86 | the result is None exactly when a negative cycle is reachable from the source |
| Theory.ResultSource | ford_bellman.py:60-64 | a returned table has exactly the graph's nodes as keys and the source at distance 0 with path [source] |
| Theory.ResultReachable | ford_bellman.py:60-86 | in a returned table, a node has a finite distance exactly when some walk leads to it from the source, and then its path is such a walk whose cost is its distance |
| Graphs.WeightOfEdge | ford_bellman.py:69-71 | with one edge per ordered pair, the weight of the pair (u, v) is the weight of the edge u -> v |
| Graphs.CostAppend | ford_bellman.py:72-73 | appending v to a path adds the weight of the edge from its last node to v to its cost, as dist[v] and path[v] are assigned together |
| Graphs.WalkExtend | ford_bellman.py:72-73 | extending a walk by an edge of the graph gives a walk whose cost grows by that edge's weight |
| Graphs.CostSplit | ford_bellman.py:67 | cutting a walk at a position splits its cost into the costs of the two pieces; it supports ShortenWalk, the reason n - 1 passes suffice |
| Graphs.ShortenWalk | ford_bellman.py:67 | without a reachable negative cycle, every walk from the source can be replaced by one of at most n nodes (n the node count) with the same ends and no higher cost, which is why n - 1 passes suffice |
| Algorithm.RelaxEdges | ford_bellman.py:68-76 | the inner loop rewrites the table in place and raises the flag exactly as one pass over the edges does |
| Algorithm.HasImprovableEdge | ford_bellman.py:81-84 | the final scan finds an edge to relax exactly when the table is not a fixed point |
| Algorithm.RelaxPasses | ford_bellman.py:67-78 | the outer loop, with its break after a pass without update, gives the table and the pass count of Iterate |
| Algorithm.InitAndRelax | ford_bellman.py:59-78 | initialisation followed by the outer loop gives the table and the pass count of Passes, and the table covers every edge |
| Algorithm.FordBellman | ford_bellman.py:39-86 | returns what ShortestPaths specifies, None exactly when a negative cycle is reachable from the source, and makes at most n - 1 passes on a graph of n nodes |
| Fixtures.GValid | ford_bellman.py:10-21 | graph G has distinct nodes, edges between them and one edge per ordered pair |
| Fixtures.GShortestPaths | ford_bellman.py:10-21 | on G from A, two passes are made and the table is returned |
| Fixtures.GEntries | ford_bellman.py:92-93 | the table returned for G from A has A 0 [A], B 2 [A, B], C -3 [A, B, C], D -1 [A, B, C, D], E 3 [A, E] and F 1 [A, B, C, D, F] |
| Fixtures.ACycleCost | ford_bellman.py:23-34 | in graph A the cycle B -> C -> D -> B weighs -1 |
| Fixtures.ANegativeCycle | ford_bellman.py:95-96 | on A from A, the result is None |

## Left out

- Graph construction with networkx (`nx.DiGraph`, `add_weighted_edges_from`) is replaced by a
  plain node sequence and edge sequence. `ValidGraph` states what a `DiGraph` guarantees.
- Edge order: the model visits the edge sequence in the order given. For the two example
  graphs, the edges are listed as a `DiGraph` yields them: by node in insertion order, then by
  successor in insertion order. This is not the order of the edge literals in the file.
- Weights are integers and infinity is the symbolic `Inf`. IEEE floating-point arithmetic is
  not modelled. Every weight in the file is an integer.
- All printing is left out, because it is I/O that does not affect the result:
  - the `show_relax` trace (lines 75-76) and its parameter;
  - the negative-cycle message (line 83);
  - the top-level printing (lines 92-96).
- The visualisation with matplotlib (lines 98-108) is left out.
- A source that is not a node of the graph makes the program raise `KeyError` at line 63. The
  model returns `UnknownSource` instead, so no precondition is needed.
- `Relaxation.Improves` also requires both ends of the edge to have records, so that the
  functions are total. `Theory.InitCovers` and `Relaxation.Pass` (which keeps the keys) show
  that this always holds in a valid graph, so the extra condition never changes a step.
- The number of passes is a ghost out-parameter of `Algorithm.FordBellman`. The program does
  not return it.
