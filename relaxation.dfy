/**
 * The distance/path table of ford_bellman and the steps that rewrite it, as functions:
 * initialisation, relaxation of one edge, one pass over the edges, the passes with early
 * exit, and the outcome after the negative-cycle scan.
 */
module Relaxation {
  import opened Distances
  import opened Graphs

  /** One record of the table: best-known distance and the path that achieves it. */
  datatype Entry = Entry(dist: Dist, path: seq<Node>)

  type Table = map<Node, Entry>

  /** The table after part of a pass, and whether that part relaxed any edge. */
  datatype PassResult = PassResult(table: Table, updated: bool)

  /** The table after the relaxation passes, and how many passes ran. */
  datatype Run = Run(table: Table, passes: nat)

  /** The result of ford_bellman: the table, None (a negative cycle), or a lookup failure on the source. */
  datatype Outcome = Paths(table: Table) | NegativeCycle | UnknownSource

  /** Every endpoint of every edge has a record in the table. */
  predicate CoversEdges(g: Graph, t: Table)
  {
    forall i :: 0 <= i < |g.edges| ==> g.edges[i].u in t && g.edges[i].v in t
  }

  /**
   * t' comes from t by relaxations only: the same keys, no distance larger, and a record
   * that keeps its distance keeps its path too.
   */
  predicate Refines(t': Table, t: Table)
  {
    t'.Keys == t.Keys &&
    forall x :: x in t ==> Le(t'[x].dist, t[x].dist) && (t'[x].dist == t[x].dist ==> t'[x] == t[x])
  }

  /** The table built before the first pass: the source at 0 with path [source], every other node unreached. */
  function InitTable(g: Graph, s: Node): (t: Table)
    requires s in g.nodes
    ensures t.Keys == NodeSet(g)
    ensures t[s] == Entry(Fin(0), [s])
    ensures forall x :: x in t && x != s ==> t[x] == Entry(Inf, [])
  {
    (map x | x in g.nodes :: Entry(Inf, []))[s := Entry(Fin(0), [s])]
  }

  /**
   * Going through edge e strictly shortens the distance of its target. The table of a valid
   * graph has a record for every endpoint (InitCovers, PassCovers); an edge without records
   * never counts as improving.
   */
  predicate Improves(t: Table, e: Edge)
  {
    e.u in t && e.v in t && Less(Add(t[e.u].dist, e.w), t[e.v].dist)
  }

  /** Relax edge e: when it improves, v gets u's distance plus w and u's path followed by v. */
  function Relax(t: Table, e: Edge): (r: PassResult)
    ensures r.table.Keys == t.Keys
  {
    if Improves(t, e) then
      PassResult(t[e.v := Entry(Add(t[e.u].dist, e.w), t[e.u].path + [e.v])], true)
    else
      PassResult(t, false)
  }

  /**
   * Relaxation sets the flag exactly when the edge improves v; it leaves v no farther than
   * u's distance plus w, rewrites no other record and only lowers distances; an unreached u
   * (distance infinity) never triggers it.
   */
  lemma RelaxSpec(t: Table, e: Edge)
    ensures Relax(t, e).updated <==> Improves(t, e)
    ensures Refines(Relax(t, e).table, t)
    ensures e.u in t && e.v in t ==> Le(Relax(t, e).table[e.v].dist, Add(t[e.u].dist, e.w))
    ensures e.u in t && t[e.u].dist == Inf ==> Relax(t, e) == PassResult(t, false)
    ensures forall x :: x in t && x != e.v ==> Relax(t, e).table[x] == t[x]
  {
  }

  /**
   * The test dist[u] + w < dist[v] under the semantics of float('inf'): an unreached u never
   * passes it, a reached u always passes it against an unreached v, and between finite
   * distances it is the integer comparison.
   */
  lemma ImprovesSpec(t: Table, e: Edge)
    requires e.u in t && e.v in t
    ensures Improves(t, e) ==> t[e.u].dist.Fin?
    ensures t[e.u].dist.Fin? && t[e.v].dist == Inf ==> Improves(t, e)
    ensures t[e.u].dist.Fin? && t[e.v].dist.Fin? ==> (Improves(t, e) <==> t[e.u].dist.n + e.w < t[e.v].dist.n)
  {
  }

  /** Refinement is transitive. */
  lemma RefinesTrans(a: Table, b: Table, c: Table)
    requires Refines(a, b) && Refines(b, c)
    ensures Refines(a, c)
  {
    forall x | x in c
      ensures Le(a[x].dist, c[x].dist) && (a[x].dist == c[x].dist ==> a[x] == c[x])
    {
      assert Le(a[x].dist, b[x].dist) && Le(b[x].dist, c[x].dist);
    }
  }

  /** The first j edges of a pass relaxed in order, starting from t. */
  function PassPrefix(g: Graph, t: Table, j: nat): (r: PassResult)
    requires j <= |g.edges|
    ensures r.table.Keys == t.Keys
    ensures !r.updated ==> r.table == t
  {
    if j == 0 then PassResult(t, false)
    else
      var prev := PassPrefix(g, t, j - 1);
      var step := Relax(prev.table, g.edges[j - 1]);
      PassResult(step.table, prev.updated || step.updated)
  }

  /** One full pass over the edges. */
  function Pass(g: Graph, t: Table): (r: PassResult)
    ensures r.table.Keys == t.Keys
    ensures !r.updated ==> r.table == t
  {
    PassPrefix(g, t, |g.edges|)
  }

  /** No edge improves any distance: the table is a fixed point of relaxation. */
  predicate Fixpoint(g: Graph, t: Table)
  {
    forall i :: 0 <= i < |g.edges| ==> !Improves(t, g.edges[i])
  }

  /** A table covering the edges is a fixed point exactly when every edge has dist[v] <= dist[u] + w. */
  lemma FixpointTight(g: Graph, t: Table)
    requires CoversEdges(g, t)
    ensures Fixpoint(g, t) <==>
      forall i :: 0 <= i < |g.edges| ==> Le(t[g.edges[i].v].dist, Add(t[g.edges[i].u].dist, g.edges[i].w))
  {
  }

  /** k full passes, without early exit (the textbook reference). */
  function Repeat(g: Graph, t: Table, k: nat): (r: Table)
    ensures r.Keys == t.Keys
    decreases k
  {
    if k == 0 then t else Repeat(g, Pass(g, t).table, k - 1)
  }

  /** Up to fuel passes, stopping after the first pass that relaxes nothing. */
  function Iterate(g: Graph, t: Table, fuel: nat): (r: Run)
    ensures r.table.Keys == t.Keys
    ensures r.passes <= fuel
    ensures fuel > 0 ==> r.passes >= 1
    decreases fuel
  {
    if fuel == 0 then Run(t, 0)
    else
      var p := Pass(g, t);
      if !p.updated then Run(p.table, 1)
      else
        var rest := Iterate(g, p.table, fuel - 1);
        Run(rest.table, rest.passes + 1)
  }

  /** The passes ford_bellman makes from the initial table: at most |V| - 1. */
  function Passes(g: Graph, s: Node): (r: Run)
    requires s in g.nodes
    ensures r.table.Keys == NodeSet(g)
    ensures r.passes <= |g.nodes| - 1
  {
    Iterate(g, InitTable(g, s), |g.nodes| - 1)
  }

  /** What ford_bellman returns: the table when no edge can still be relaxed, else a negative cycle. */
  function ShortestPaths(g: Graph, s: Node): (r: Outcome)
    ensures r == UnknownSource <==> s !in g.nodes
    ensures r.Paths? <==> s in g.nodes && Fixpoint(g, Passes(g, s).table)
    ensures r.Paths? ==> r.table == Passes(g, s).table
  {
    if s !in g.nodes then UnknownSource
    else
      var t := Passes(g, s).table;
      if Fixpoint(g, t) then Paths(t) else NegativeCycle
  }
}
