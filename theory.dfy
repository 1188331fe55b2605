/**
 * What ford_bellman's table means: the path invariant kept by every relaxation,
 * the effect of early exit, and the correctness of the outcome (shortest distances,
 * and a negative-cycle report exactly when a negative cycle is reachable).
 */
module Theory {
  import opened Distances
  import opened Graphs
  import opened Relaxation

  /**
   * The record of x: its path is non-empty exactly when its distance is finite, and then
   * it is a walk from s to x whose cost is that distance.
   */
  predicate EntryValid(g: Graph, s: Node, x: Node, en: Entry)
  {
    && (en.path != [] <==> en.dist.Fin?)
    && (en.path != [] ==> WalkFrom(g, en.path, s, x) && Cost(g, en.path) == en.dist.n)
  }

  predicate PathsValid(g: Graph, s: Node, t: Table)
  {
    forall x {:trigger EntryValid(g, s, x, t[x])} :: x in t ==> EntryValid(g, s, x, t[x])
  }

  // ---------------------------------------------------------------------------
  // Every edge endpoint has a record
  // ---------------------------------------------------------------------------

  /** A table keyed by the graph's nodes has a record for both ends of every edge. */
  lemma NodeKeysCover(g: Graph, t: Table)
    requires ValidGraph(g) && t.Keys == NodeSet(g)
    ensures CoversEdges(g, t)
  {
    forall i | 0 <= i < |g.edges|
      ensures g.edges[i].u in t && g.edges[i].v in t
    {
      assert g.edges[i].u in NodeSet(g) && g.edges[i].v in NodeSet(g);
    }
  }

  /** A table with the keys of one that covers the edges covers them too. */
  lemma CoversKeys(g: Graph, t: Table, t': Table)
    requires CoversEdges(g, t) && t'.Keys == t.Keys
    ensures CoversEdges(g, t')
  {
  }

  /** The initial table has a record for both ends of every edge. */
  lemma InitCovers(g: Graph, s: Node)
    requires ValidGraph(g) && s in g.nodes
    ensures CoversEdges(g, InitTable(g, s))
  {
    NodeKeysCover(g, InitTable(g, s));
  }

  // ---------------------------------------------------------------------------
  // The path invariant
  // ---------------------------------------------------------------------------

  /** The initial table satisfies the path invariant. */
  lemma InitPathsValid(g: Graph, s: Node)
    requires s in g.nodes
    ensures PathsValid(g, s, InitTable(g, s))
  {
    var t := InitTable(g, s);
    assert EntryValid(g, s, s, t[s]);
  }

  /** Relaxing an edge of the graph keeps the path invariant. */
  lemma RelaxPreservesPaths(g: Graph, s: Node, t: Table, i: nat)
    requires ValidGraph(g) && i < |g.edges|
    requires PathsValid(g, s, t)
    ensures PathsValid(g, s, Relax(t, g.edges[i]).table)
  {
    var e := g.edges[i];
    if Improves(t, e) {
      var pu := t[e.u].path;
      assert EntryValid(g, s, e.u, t[e.u]);
      assert HasEdge(g, pu[|pu| - 1], e.v);
      WalkExtend(g, pu, e.v);
      WeightOfEdge(g.edges, i);
      var r := Relax(t, e).table;
      assert EntryValid(g, s, e.v, r[e.v]);
    }
  }

  /** Every prefix of a pass keeps the path invariant. */
  lemma {:induction false} PassPrefixPreservesPaths(g: Graph, s: Node, t: Table, j: nat)
    requires ValidGraph(g) && j <= |g.edges|
    requires PathsValid(g, s, t)
    ensures PathsValid(g, s, PassPrefix(g, t, j).table)
  {
    if j > 0 {
      var prev := PassPrefix(g, t, j - 1).table;
      PassPrefixPreservesPaths(g, s, t, j - 1);
      RelaxPreservesPaths(g, s, prev, j - 1);
      assert PassPrefix(g, t, j).table == Relax(prev, g.edges[j - 1]).table;
    }
  }

  /** Any number of passes, with early exit, keeps the path invariant. */
  lemma {:induction false} IteratePreservesPaths(g: Graph, s: Node, t: Table, fuel: nat)
    requires ValidGraph(g)
    requires PathsValid(g, s, t)
    ensures PathsValid(g, s, Iterate(g, t, fuel).table)
    decreases fuel
  {
    if fuel > 0 {
      PassPrefixPreservesPaths(g, s, t, |g.edges|);
      if Pass(g, t).updated {
        IteratePreservesPaths(g, s, Pass(g, t).table, fuel - 1);
      }
    }
  }

  // ---------------------------------------------------------------------------
  // Distances never increase
  // ---------------------------------------------------------------------------

  /** A prefix of a pass only lowers distances, and rewrites a record only when it lowers it. */
  lemma {:induction false} PassPrefixRefines(g: Graph, t: Table, j: nat)
    requires j <= |g.edges|
    ensures Refines(PassPrefix(g, t, j).table, t)
  {
    if j > 0 {
      var prev := PassPrefix(g, t, j - 1).table;
      PassPrefixRefines(g, t, j - 1);
      RelaxSpec(prev, g.edges[j - 1]);
      RefinesTrans(Relax(prev, g.edges[j - 1]).table, prev, t);
    }
  }

  /** Full passes only lower distances. */
  lemma {:induction false} RepeatRefines(g: Graph, t: Table, k: nat)
    ensures Refines(Repeat(g, t, k), t)
    decreases k
  {
    if k > 0 {
      var next := Pass(g, t).table;
      PassPrefixRefines(g, t, |g.edges|);
      RepeatRefines(g, next, k - 1);
      RefinesTrans(Repeat(g, next, k - 1), next, t);
    }
  }

  /** The passes with early exit only lower distances. */
  lemma {:induction false} IterateRefines(g: Graph, t: Table, fuel: nat)
    ensures Refines(Iterate(g, t, fuel).table, t)
    decreases fuel
  {
    if fuel > 0 {
      var next := Pass(g, t).table;
      PassPrefixRefines(g, t, |g.edges|);
      if Pass(g, t).updated {
        IterateRefines(g, next, fuel - 1);
        RefinesTrans(Iterate(g, next, fuel - 1).table, next, t);
      }
    }
  }

  // ---------------------------------------------------------------------------
  // The updated flag and early exit
  // ---------------------------------------------------------------------------

  /** A prefix of a pass relaxes nothing exactly when none of its edges improves the starting table. */
  lemma {:induction false} PassPrefixUpdated(g: Graph, t: Table, j: nat)
    requires j <= |g.edges|
    ensures !PassPrefix(g, t, j).updated <==> forall m :: 0 <= m < j ==> !Improves(t, g.edges[m])
  {
    if j > 0 {
      PassPrefixUpdated(g, t, j - 1);
    }
  }

  /** A pass sets the updated flag exactly when the table is not yet a fixed point. */
  lemma PassUpdatedIffNotFixpoint(g: Graph, t: Table)
    ensures Pass(g, t).updated <==> !Fixpoint(g, t)
    ensures !Pass(g, t).updated ==> Pass(g, t).table == t
  {
    PassPrefixUpdated(g, t, |g.edges|);
  }

  /** Passes over a table that a pass leaves untouched change nothing. */
  lemma {:induction false} RepeatStable(g: Graph, t: Table, k: nat)
    requires !Pass(g, t).updated
    ensures Repeat(g, t, k) == t
  {
    if k > 0 {
      RepeatStable(g, t, k - 1);
    }
  }

  /** k + 1 passes are k passes followed by one more. */
  lemma {:induction false} RepeatLast(g: Graph, t: Table, k: nat)
    ensures Repeat(g, t, k + 1) == Pass(g, Repeat(g, t, k)).table
    decreases k
  {
    if k > 0 {
      RepeatLast(g, Pass(g, t).table, k - 1);
    }
  }

  /** The k-th pass starts from the table the first k - 1 passes leave. */
  lemma RepeatNext(g: Graph, t: Table, k: nat)
    requires k > 0
    ensures Repeat(g, t, k) == Pass(g, Repeat(g, t, k - 1)).table
  {
    RepeatLast(g, t, k - 1);
    assert k - 1 + 1 == k;
  }

  /** Early exit does not change the table: Iterate gives what fuel full passes give. */
  lemma {:induction false} IterateIsRepeat(g: Graph, t: Table, fuel: nat)
    ensures Iterate(g, t, fuel).table == Repeat(g, t, fuel)
    decreases fuel
  {
    if fuel > 0 {
      var p := Pass(g, t);
      if !p.updated {
        RepeatStable(g, t, fuel);
      } else {
        IterateIsRepeat(g, p.table, fuel - 1);
      }
    }
  }

  /** k + 1 full passes are one pass followed by k more. */
  lemma RepeatFirst(g: Graph, t: Table, k: nat)
    ensures Repeat(g, t, k + 1) == Repeat(g, Pass(g, t).table, k)
  {
  }

  /** The table Iterate leaves is the table after as many full passes as it ran. */
  lemma {:induction false} IteratePassesTable(g: Graph, t: Table, fuel: nat)
    ensures Iterate(g, t, fuel).table == Repeat(g, t, Iterate(g, t, fuel).passes)
    decreases fuel
  {
    if fuel > 0 {
      var p := Pass(g, t);
      if p.updated {
        var rest := Iterate(g, p.table, fuel - 1);
        IteratePassesTable(g, p.table, fuel - 1);
        RepeatFirst(g, t, rest.passes);
      } else {
        RepeatFirst(g, t, 0);
      }
    }
  }

  /**
   * Every pass Iterate ran but the last relaxed something, and when it stopped before
   * running out of fuel, its last pass relaxed nothing.
   */
  lemma {:induction false} IteratePasses(g: Graph, t: Table, fuel: nat, k: nat)
    ensures k + 1 < Iterate(g, t, fuel).passes ==> Pass(g, Repeat(g, t, k)).updated
    ensures k + 1 == Iterate(g, t, fuel).passes < fuel ==> !Pass(g, Repeat(g, t, k)).updated
    decreases fuel
  {
    if fuel > 0 {
      var p := Pass(g, t);
      if p.updated {
        if k == 0 {
          assert Repeat(g, t, k) == t;
        } else {
          IteratePasses(g, p.table, fuel - 1, k - 1);
          RepeatFirst(g, t, k - 1);
          assert k - 1 + 1 == k;
        }
      }
    }
  }

  // ---------------------------------------------------------------------------
  // Distances are bounded by walk costs
  // ---------------------------------------------------------------------------

  /** After the first j edges of a pass, each of them satisfies dist[v] <= (starting dist[u]) + w. */
  lemma {:induction false} PassPrefixBound(g: Graph, t: Table, j: nat, m: nat)
    requires m < j <= |g.edges| && g.edges[m].u in t && g.edges[m].v in t
    ensures Le(PassPrefix(g, t, j).table[g.edges[m].v].dist, Add(t[g.edges[m].u].dist, g.edges[m].w))
  {
    var prev := PassPrefix(g, t, j - 1).table;
    var e := g.edges[m];
    RelaxSpec(prev, g.edges[j - 1]);
    PassPrefixRefines(g, t, j - 1);
    if m < j - 1 {
      PassPrefixBound(g, t, j - 1, m);
    }
    assert Le(prev[e.u].dist, t[e.u].dist);
  }

  /** After a pass over t, every edge satisfies dist[v] <= t's dist[u] + w. */
  lemma PassBound(g: Graph, t: Table, m: nat)
    requires m < |g.edges| && g.edges[m].u in t && g.edges[m].v in t
    ensures Le(Pass(g, t).table[g.edges[m].v].dist, Add(t[g.edges[m].u].dist, g.edges[m].w))
  {
    PassPrefixBound(g, t, |g.edges|, m);
  }

  /** A pass never raises a distance above a bound it already met. */
  lemma PassKeepsBound(g: Graph, t: Table, x: Node, d: Dist)
    requires x in t && Le(t[x].dist, d)
    ensures Le(Pass(g, t).table[x].dist, d)
  {
    PassPrefixRefines(g, t, |g.edges|);
    LeTrans(Pass(g, t).table[x].dist, t[x].dist, d);
  }

  /** A pass over a table that bounds the walk p minus its last edge bounds the whole of p at its end. */
  lemma PassExtendsBound(g: Graph, t: Table, p: seq<Node>)
    requires ValidGraph(g) && |p| >= 2 && IsWalk(g, p) && p[|p| - 2] in t && p[|p| - 1] in t
    requires Le(t[p[|p| - 2]].dist, Fin(Cost(g, p[..|p| - 1])))
    ensures Le(Pass(g, t).table[p[|p| - 1]].dist, Fin(Cost(g, p)))
  {
    var u, x := p[|p| - 2], p[|p| - 1];
    assert HasEdge(g, p[|p| - 2], p[|p| - 2 + 1]);
    var m :| 0 <= m < |g.edges| && g.edges[m].u == u && g.edges[m].v == x;
    WeightOfEdge(g.edges, m);
    PassBound(g, t, m);
    LeAdd(Pass(g, t).table[x].dist, t[u].dist, g.edges[m].w, Cost(g, p[..|p| - 1]));
  }

  /**
   * After k passes from a table where s is at distance at most 0, a node at the end of a walk
   * of at most k edges from s is no farther than that walk's cost.
   */
  lemma {:induction false} RepeatWalkBound(g: Graph, t0: Table, s: Node, k: nat, p: seq<Node>, x: Node)
    requires ValidGraph(g) && CoversEdges(g, t0) && s in t0 && Le(t0[s].dist, Fin(0))
    requires WalkFrom(g, p, s, x) && |p| <= k + 1
    ensures x in t0
    ensures Le(Repeat(g, t0, k)[x].dist, Fin(Cost(g, p)))
  {
    if |p| > 1 {
      assert HasEdge(g, p[|p| - 2], p[|p| - 2 + 1]);
    }
    if k == 0 {
      assert p == [s];
      assert Repeat(g, t0, k) == t0 && Cost(g, p) == 0;
    } else {
      var prev := Repeat(g, t0, k - 1);
      RepeatNext(g, t0, k);
      if |p| <= k {
        RepeatWalkBound(g, t0, s, k - 1, p, x);
        PassKeepsBound(g, prev, x, Fin(Cost(g, p)));
      } else {
        WalkSlice(g, p, 0, |p| - 1);
        RepeatWalkBound(g, t0, s, k - 1, p[..|p| - 1], p[|p| - 2]);
        PassExtendsBound(g, prev, p);
      }
    }
  }

  /** In a fixed point, a walk from a reached node a leads to a node no farther than dist[a] plus the walk's cost. */
  lemma {:induction false} FixpointWalkBound(g: Graph, t: Table, p: seq<Node>, a: Node, b: Node)
    requires ValidGraph(g) && CoversEdges(g, t) && Fixpoint(g, t)
    requires WalkFrom(g, p, a, b) && a in t && t[a].dist.Fin?
    ensures b in t
    ensures Le(t[b].dist, Fin(t[a].dist.n + Cost(g, p)))
  {
    if |p| > 1 {
      var p' := p[..|p| - 1];
      var u := p[|p| - 2];
      WalkSlice(g, p, 0, |p| - 1);
      FixpointWalkBound(g, t, p', a, u);
      assert HasEdge(g, p[|p| - 2], p[|p| - 2 + 1]);
      var m :| 0 <= m < |g.edges| && g.edges[m].u == u && g.edges[m].v == b;
      WeightOfEdge(g.edges, m);
      assert !Improves(t, g.edges[m]);
    }
  }

  /**
   * Without a reachable negative cycle, no edge improves the table after k >= |V| - 1 passes
   * from a table where s is at most 0 away: a path through the edge can be shortened to at
   * most |V| - 1 edges, which the passes have already accounted for.
   */
  lemma RepeatEdgeSettled(g: Graph, s: Node, t0: Table, k: nat, m: nat)
    requires ValidGraph(g) && s in g.nodes && CoversEdges(g, t0) && s in t0 && Le(t0[s].dist, Fin(0))
    requires forall p, c :: !NegCycleWitness(g, s, p, c)
    requires k >= |g.nodes| - 1 && m < |g.edges| && PathsValid(g, s, Repeat(g, t0, k))
    ensures !Improves(Repeat(g, t0, k), g.edges[m])
  {
    var t := Repeat(g, t0, k);
    var e := g.edges[m];
    if e.u in t && t[e.u].dist.Fin? {
      var pu := t[e.u].path;
      assert EntryValid(g, s, e.u, t[e.u]);
      assert HasEdge(g, pu[|pu| - 1], e.v);
      WalkExtend(g, pu, e.v);
      WeightOfEdge(g.edges, m);
      var q := ShortenWalk(g, s, pu + [e.v], e.v);
      RepeatWalkBound(g, t0, s, k, q, e.v);
    }
  }

  /** Without a reachable negative cycle, the |V| - 1 passes reach a fixed point. */
  lemma NoNegativeCycleFixpoint(g: Graph, s: Node)
    requires ValidGraph(g) && s in g.nodes
    requires forall p, c :: !NegCycleWitness(g, s, p, c)
    ensures Fixpoint(g, Passes(g, s).table)
  {
    var t0 := InitTable(g, s);
    var k := |g.nodes| - 1;
    InitCovers(g, s);
    PassesPathsValid(g, s);
    IterateIsRepeat(g, t0, k);
    forall m | 0 <= m < |g.edges|
      ensures !Improves(Repeat(g, t0, k), g.edges[m])
    {
      RepeatEdgeSettled(g, s, t0, k, m);
    }
  }

  // ---------------------------------------------------------------------------
  // Settled tables
  // ---------------------------------------------------------------------------

  /**
   * What the scan after the passes finds when it returns a table: every edge endpoint has a
   * record, no edge improves, the path invariant holds and the source is at most 0 away.
   */
  predicate Settled(g: Graph, s: Node, t: Table)
  {
    s in t && CoversEdges(g, t) && Fixpoint(g, t) && PathsValid(g, s, t) && Le(t[s].dist, Fin(0))
  }

  /** In a settled table, every walk from s to x costs at least dist[x], so dist[x] is finite. */
  lemma SettledLowerBound(g: Graph, s: Node, t: Table, p: seq<Node>, x: Node)
    requires ValidGraph(g) && Settled(g, s, t) && WalkFrom(g, p, s, x)
    ensures x in t && t[x].dist.Fin? && t[x].dist.n <= Cost(g, p)
  {
    FixpointWalkBound(g, t, p, s, x);
  }

  /** A settled table rules out every negative cycle reachable from s. */
  lemma SettledNoNegativeCycle(g: Graph, s: Node, t: Table, p: seq<Node>, c: seq<Node>)
    requires ValidGraph(g) && Settled(g, s, t)
    ensures !NegCycleWitness(g, s, p, c)
  {
    if NegCycleWitness(g, s, p, c) {
      SettledLowerBound(g, s, t, p, c[0]);
      FixpointWalkBound(g, t, c, c[0], c[0]);
    }
  }

  /** In a settled table the source is exactly 0 away: a recorded path below 0 would be a negative cycle. */
  lemma SettledSource(g: Graph, s: Node, t: Table)
    requires ValidGraph(g) && Settled(g, s, t)
    ensures t[s].dist == Fin(0)
  {
    assert EntryValid(g, s, s, t[s]);
    var c := t[s].path;
    if t[s].dist.n < 0 {
      assert |c| != 1;
      assert NegCycleWitness(g, s, [s], c);
      SettledNoNegativeCycle(g, s, t, [s], c);
      assert false;
    }
  }

  // ---------------------------------------------------------------------------
  // The outcome
  // ---------------------------------------------------------------------------

  /** The passes keep the path invariant of the initial table. */
  lemma PassesPathsValid(g: Graph, s: Node)
    requires ValidGraph(g) && s in g.nodes
    ensures PathsValid(g, s, Passes(g, s).table)
  {
    InitPathsValid(g, s);
    IteratePreservesPaths(g, s, InitTable(g, s), |g.nodes| - 1);
  }

  /** The passes only lower the distances of the initial table. */
  lemma PassesRefine(g: Graph, s: Node)
    requires s in g.nodes
    ensures Refines(Passes(g, s).table, InitTable(g, s))
  {
    IterateRefines(g, InitTable(g, s), |g.nodes| - 1);
  }

  /** A table that ford_bellman returns is settled. */
  lemma ResultSettled(g: Graph, s: Node)
    requires ValidGraph(g) && ShortestPaths(g, s).Paths?
    ensures Settled(g, s, ShortestPaths(g, s).table)
  {
    NodeKeysCover(g, Passes(g, s).table);
    PassesPathsValid(g, s);
    PassesRefine(g, s);
    assert InitTable(g, s)[s].dist == Fin(0);
  }

  /** In a returned table every edge u -> v with weight w satisfies dist[v] <= dist[u] + w. */
  lemma ResultEdgesTight(g: Graph, s: Node, m: nat)
    requires ValidGraph(g) && ShortestPaths(g, s).Paths? && m < |g.edges|
    ensures var t, e := ShortestPaths(g, s).table, g.edges[m];
      e.u in t && e.v in t && Le(t[e.v].dist, Add(t[e.u].dist, e.w))
  {
    ResultSettled(g, s);
  }

  /** In a returned table, every walk from s to x costs at least dist[x], so dist[x] is finite. */
  lemma ResultIsLowerBound(g: Graph, s: Node, p: seq<Node>, x: Node)
    requires ValidGraph(g) && ShortestPaths(g, s).Paths?
    requires WalkFrom(g, p, s, x)
    ensures x in ShortestPaths(g, s).table
    ensures ShortestPaths(g, s).table[x].dist.Fin?
    ensures ShortestPaths(g, s).table[x].dist.n <= Cost(g, p)
  {
    ResultSettled(g, s);
    SettledLowerBound(g, s, ShortestPaths(g, s).table, p, x);
  }

  /** A reachable negative cycle makes ford_bellman report a negative cycle. */
  lemma NegativeCycleDetected(g: Graph, s: Node, p: seq<Node>, c: seq<Node>)
    requires ValidGraph(g) && s in g.nodes && NegCycleWitness(g, s, p, c)
    ensures ShortestPaths(g, s) == NegativeCycle
  {
    if ShortestPaths(g, s).Paths? {
      ResultSettled(g, s);
      SettledNoNegativeCycle(g, s, ShortestPaths(g, s).table, p, c);
    }
  }

  /** Without a reachable negative cycle, ford_bellman returns the table after its passes. */
  lemma NoNegativeCycleIsPaths(g: Graph, s: Node)
    requires ValidGraph(g) && s in g.nodes
    requires forall p, c :: !NegCycleWitness(g, s, p, c)
    ensures ShortestPaths(g, s) == Paths(Passes(g, s).table)
  {
    NoNegativeCycleFixpoint(g, s);
  }

  /** ford_bellman reports a negative cycle exactly when a negative cycle is reachable from the source. */
  lemma NegativeCycleIff(g: Graph, s: Node)
    requires ValidGraph(g) && s in g.nodes
    ensures ShortestPaths(g, s) == NegativeCycle <==> ReachableNegativeCycle(g, s)
  {
    if ReachableNegativeCycle(g, s) {
      var p, c :| NegCycleWitness(g, s, p, c);
      NegativeCycleDetected(g, s, p, c);
    } else {
      NoNegativeCycleIsPaths(g, s);
    }
  }

  /** A returned table has exactly the graph's nodes as keys, and the source at distance 0 with path [source]. */
  lemma ResultSource(g: Graph, s: Node)
    requires ValidGraph(g) && ShortestPaths(g, s).Paths?
    ensures ShortestPaths(g, s).table.Keys == NodeSet(g)
    ensures s in ShortestPaths(g, s).table
    ensures ShortestPaths(g, s).table[s] == Entry(Fin(0), [s])
  {
    var t := ShortestPaths(g, s).table;
    ResultSettled(g, s);
    SettledSource(g, s, t);
    PassesRefine(g, s);
    assert t[s].dist == InitTable(g, s)[s].dist;
  }

  /**
   * In a returned table, dist[x] is finite exactly when some walk leads from the source to x,
   * and then the recorded path is such a walk and its cost is dist[x].
   */
  lemma ResultReachable(g: Graph, s: Node, x: Node)
    requires ValidGraph(g) && ShortestPaths(g, s).Paths? && x in ShortestPaths(g, s).table
    ensures ShortestPaths(g, s).table[x].dist.Fin? <==> exists p :: WalkFrom(g, p, s, x)
    ensures var en := ShortestPaths(g, s).table[x];
      en.dist.Fin? ==> WalkFrom(g, en.path, s, x) && Cost(g, en.path) == en.dist.n
  {
    var t := ShortestPaths(g, s).table;
    ResultSettled(g, s);
    assert EntryValid(g, s, x, t[x]);
    if exists p :: WalkFrom(g, p, s, x) {
      var p :| WalkFrom(g, p, s, x);
      SettledLowerBound(g, s, t, p, x);
    }
  }
}
