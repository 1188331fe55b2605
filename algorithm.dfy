/**
 * ford_bellman as the program runs it: a table updated in place by nested loops, the
 * updated flag with its early exit, and the final scan that returns early on a negative
 * cycle. The method is proved equal to ShortestPaths, whose properties Theory proves.
 */
module Algorithm {
  import opened Distances
  import opened Graphs
  import opened Relaxation
  import opened Theory

  /**
   * One pass of the outer loop: relaxes every edge in order, updating the table in place
   * and raising the flag when some edge improved its target.
   */
  method RelaxEdges(g: Graph, t: Table) returns (table: Table, updated: bool)
    requires CoversEdges(g, t)
    ensures PassResult(table, updated) == Pass(g, t)
  {
    table, updated := t, false;
    var j := 0;
    while j < |g.edges|
      invariant 0 <= j <= |g.edges|
      invariant table.Keys == t.Keys
      invariant PassPrefix(g, t, j) == PassResult(table, updated)
    {
      var e := g.edges[j];
      if Less(Add(table[e.u].dist, e.w), table[e.v].dist) {
        table := table[e.v := Entry(Add(table[e.u].dist, e.w), table[e.u].path + [e.v])];
        updated := true;
      }
      j := j + 1;
    }
  }

  /** The scan after the passes: reports whether some edge can still be relaxed. */
  method HasImprovableEdge(g: Graph, t: Table) returns (found: bool)
    requires CoversEdges(g, t)
    ensures found <==> !Fixpoint(g, t)
  {
    var k := 0;
    while k < |g.edges|
      invariant 0 <= k <= |g.edges|
      invariant forall m :: 0 <= m < k ==> !Improves(t, g.edges[m])
    {
      var e := g.edges[k];
      if Less(Add(t[e.u].dist, e.w), t[e.v].dist) {
        assert Improves(t, g.edges[k]);
        return true;
      }
      k := k + 1;
    }
    return false;
  }

  /** r preceded by k more passes. */
  function After(r: Run, k: nat): Run
  {
    Run(r.table, r.passes + k)
  }

  /**
   * The pass made when i of n passes are done: a pass that relaxed nothing ends Iterate after
   * i + 1 passes, otherwise the passes left continue from the new table.
   */
  lemma IterateStep(g: Graph, t0: Table, t: Table, t': Table, updated: bool, i: nat, n: nat)
    requires i < n && Pass(g, t) == PassResult(t', updated)
    requires Iterate(g, t0, n) == After(Iterate(g, t, n - i), i)
    ensures updated ==> Iterate(g, t0, n) == After(Iterate(g, t', n - (i + 1)), i + 1)
    ensures !updated ==> Iterate(g, t0, n) == Run(t', i + 1)
  {
    assert Iterate(g, t, n - i) == if updated then After(Iterate(g, t', n - (i + 1)), 1) else Run(t', 1);
  }

  /**
   * The outer loop: at most n passes over the edges, leaving the loop after the first pass
   * that relaxes nothing. passes counts the passes made.
   */
  method RelaxPasses(g: Graph, t: Table, n: nat) returns (table: Table, ghost passes: nat)
    requires CoversEdges(g, t)
    ensures Run(table, passes) == Iterate(g, t, n)
    ensures table == Iterate(g, t, n).table
  {
    table := t;
    passes := 0;
    var i := 0;
    while i < n
      invariant i <= n && passes == i
      invariant table.Keys == t.Keys
      invariant Iterate(g, t, n) == After(Iterate(g, table, n - i), i)
    {
      ghost var before := table;
      var updated;
      CoversKeys(g, t, table);
      table, updated := RelaxEdges(g, table);
      IterateStep(g, t, before, table, updated, i, n);
      passes := passes + 1;
      if !updated {
        break;
      }
      i := i + 1;
    }
  }

  /** Builds the initial table and runs the outer loop with |V| - 1 passes at most. */
  method InitAndRelax(g: Graph, source: Node) returns (table: Table, ghost passes: nat)
    requires ValidGraph(g) && source in g.nodes
    ensures Run(table, passes) == Passes(g, source)
    ensures CoversEdges(g, table)
  {
    table := InitTable(g, source);
    InitCovers(g, source);
    table, passes := RelaxPasses(g, table, |g.nodes| - 1);
    CoversKeys(g, InitTable(g, source), table);
  }

  /**
   * Runs Bellman-Ford from source. The result is what ShortestPaths specifies: a negative
   * cycle exactly when one is reachable from source, otherwise the table of shortest
   * distances and paths. passes counts the relaxation passes the outer loop made.
   */
  method FordBellman(g: Graph, source: Node) returns (r: Outcome, ghost passes: nat)
    requires ValidGraph(g)
    ensures r == ShortestPaths(g, source)
    ensures r == NegativeCycle <==> source in g.nodes && ReachableNegativeCycle(g, source)
    ensures source in g.nodes ==> passes == Passes(g, source).passes <= |g.nodes| - 1
  {
    if source !in g.nodes {
      return UnknownSource, 0;
    }
    NegativeCycleIff(g, source);
    var table;
    table, passes := InitAndRelax(g, source);
    var cycle := HasImprovableEdge(g, table);
    if cycle {
      return NegativeCycle, passes;
    }
    return Paths(table), passes;
  }
}
