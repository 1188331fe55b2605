/**
 * The two example graphs of ford_bellman.py and what ford_bellman computes on them from "A".
 * Edges are listed in the order a networkx DiGraph yields them: nodes in insertion order
 * (A, B, C, D, E, F), and for each node its successors in insertion order.
 */
module Fixtures {
  import opened Distances
  import opened Graphs
  import opened Relaxation
  import opened Theory

  const Nodes: seq<Node> := ["A", "B", "C", "D", "E", "F"]

  /** Graph G: the cycle B -> C -> D -> B weighs -5 + 2 + 4 = 1. */
  function G(): Graph
  {
    Graph(Nodes, ShapeEdges("A", "B", "C", "D", "E", "F", 4))
  }

  /** Graph A: as G, but D -> B weighs 2, so the cycle B -> C -> D -> B weighs -1. */
  function A(): Graph
  {
    Graph(Nodes, ShapeEdges("A", "B", "C", "D", "E", "F", 2))
  }

  /** The six node names are pairwise different. */
  lemma Names()
    ensures "A" != "B" && "A" != "C" && "A" != "D" && "A" != "E" && "A" != "F"
    ensures "B" != "C" && "B" != "D" && "B" != "E" && "B" != "F"
    ensures "C" != "D" && "C" != "E" && "C" != "F"
    ensures "D" != "E" && "D" != "F"
    ensures "E" != "F"
  {
  }

  /** The paths the relaxations build, one node at a time. */
  lemma Appends()
    ensures ["A"] + ["B"] == ["A", "B"] && ["A"] + ["E"] == ["A", "E"]
    ensures ["A", "B"] + ["C"] == ["A", "B", "C"]
    ensures ["A", "B", "C"] + ["D"] == ["A", "B", "C", "D"]
    ensures ["A", "B", "C", "D"] + ["F"] == ["A", "B", "C", "D", "F"]
    ensures ["B"] + ["C"] == ["B", "C"] && ["B", "C"] + ["D"] == ["B", "C", "D"]
    ensures ["B", "C", "D"] + ["B"] == ["B", "C", "D", "B"]
  {
  }

  /** The edges of G, in iteration order. */
  lemma GEdges()
    ensures G().edges[0] == Edge("A", "B", 2) && G().edges[1] == Edge("A", "E", 3)
    ensures G().edges[2] == Edge("B", "C", -5) && G().edges[3] == Edge("C", "D", 2)
    ensures G().edges[4] == Edge("D", "B", 4) && G().edges[5] == Edge("D", "F", 2)
    ensures G().edges[6] == Edge("E", "D", 1) && |G().edges| == 7
  {
  }

  /** The edges of A on its cycle B -> C -> D -> B and the edge into it. */
  lemma AEdges()
    ensures A().edges[0] == Edge("A", "B", 2) && A().edges[2] == Edge("B", "C", -5)
    ensures A().edges[3] == Edge("C", "D", 2) && A().edges[4] == Edge("D", "B", 2)
  {
  }

  /**
   * The edges both example graphs share, with x the weight of the edge D -> B. The names are
   * parameters so that the facts about the shape (ShapeValid) are proved once over symbolic
   * names, which needs only that the names differ, instead of comparing string literals.
   */
  function ShapeEdges(a: Node, b: Node, c: Node, d: Node, e: Node, f: Node, x: int): seq<Edge>
  {
    [Edge(a, b, 2), Edge(a, e, 3), Edge(b, c, -5), Edge(c, d, 2), Edge(d, b, x), Edge(d, f, 2), Edge(e, d, 1)]
  }

  /** Six pairwise different names make a node sequence without repetition. */
  lemma ShapeDistinct(a: Node, b: Node, c: Node, d: Node, e: Node, f: Node)
    requires a != b && a != c && a != d && a != e && a != f
    requires b != c && b != d && b != e && b != f
    requires c != d && c != e && c != f
    requires d != e && d != f && e != f
    ensures var ns := [a, b, c, d, e, f]; forall i, j :: 0 <= i < j < |ns| ==> ns[i] != ns[j]
  {
  }

  /** Every edge of the shape joins two of its six names. */
  lemma ShapeEnds(a: Node, b: Node, c: Node, d: Node, e: Node, f: Node, x: int)
    ensures var ns, es := [a, b, c, d, e, f], ShapeEdges(a, b, c, d, e, f, x);
      forall i :: 0 <= i < |es| ==> es[i].u in ns && es[i].v in ns
  {
  }

  /** With six different names, no two edges of the shape join the same ordered pair. */
  lemma ShapePairs(a: Node, b: Node, c: Node, d: Node, e: Node, f: Node, x: int)
    requires a != b && a != c && a != d && a != e && a != f
    requires b != c && b != d && b != e && b != f
    requires c != d && c != e && c != f
    requires d != e && d != f && e != f
    ensures UniquePairs(ShapeEdges(a, b, c, d, e, f, x))
  {
  }

  /** The shape both example graphs share is a valid graph whenever its six names differ. */
  lemma ShapeValid(a: Node, b: Node, c: Node, d: Node, e: Node, f: Node, x: int)
    requires a != b && a != c && a != d && a != e && a != f
    requires b != c && b != d && b != e && b != f
    requires c != d && c != e && c != f
    requires d != e && d != f && e != f
    ensures ValidGraph(Graph([a, b, c, d, e, f], ShapeEdges(a, b, c, d, e, f, x)))
  {
    ShapeDistinct(a, b, c, d, e, f);
    ShapeEnds(a, b, c, d, e, f, x);
    ShapePairs(a, b, c, d, e, f, x);
  }

  /** G is a valid graph. */
  lemma GValid()
    ensures ValidGraph(G())
  {
    Names();
    ShapeValid("A", "B", "C", "D", "E", "F", 4);
  }

  /** A is a valid graph. */
  lemma AValid()
    ensures ValidGraph(A())
  {
    Names();
    ShapeValid("A", "B", "C", "D", "E", "F", 2);
  }

  // ---------------------------------------------------------------------------
  // One edge of a pass at a time
  // ---------------------------------------------------------------------------

  /** When edge j improves the table left by the first j edges, the first j + 1 edges rewrite its target. */
  lemma StepRelaxes(g: Graph, t0: Table, j: nat, t: Table, u: bool)
    requires j < |g.edges| && PassPrefix(g, t0, j) == PassResult(t, u)
    requires Improves(t, g.edges[j])
    ensures PassPrefix(g, t0, j + 1) ==
      PassResult(t[g.edges[j].v := Entry(Add(t[g.edges[j].u].dist, g.edges[j].w), t[g.edges[j].u].path + [g.edges[j].v])], true)
  {
  }

  /** When edge j does not improve the table left by the first j edges, the first j + 1 edges leave it. */
  lemma StepKeeps(g: Graph, t0: Table, j: nat, t: Table, u: bool)
    requires j < |g.edges| && PassPrefix(g, t0, j) == PassResult(t, u)
    requires !Improves(t, g.edges[j])
    ensures PassPrefix(g, t0, j + 1) == PassResult(t, u)
  {
  }

  // ---------------------------------------------------------------------------
  // Tables over the six nodes
  // ---------------------------------------------------------------------------

  /**
   * The table with records a, b, c, d, e, f for A, B, C, D, E, F. Table6Get and Table6SetB to
   * Table6SetF state its lookups and updates once for arbitrary records, so that the steps of
   * the passes below compare records term by term and never compare the key strings again.
   */
  function Table6(a: Entry, b: Entry, c: Entry, d: Entry, e: Entry, f: Entry): Table
  {
    map["A" := a, "B" := b, "C" := c, "D" := d, "E" := e, "F" := f]
  }

  /** The keys and records of a six-node table. */
  lemma Table6Get(a: Entry, b: Entry, c: Entry, d: Entry, e: Entry, f: Entry)
    ensures var t := Table6(a, b, c, d, e, f);
      && t.Keys == {"A", "B", "C", "D", "E", "F"}
      && t["A"] == a && t["B"] == b && t["C"] == c && t["D"] == d && t["E"] == e && t["F"] == f
  {
    Names();
  }

  /** Rewriting the record of B in a six-node table. */
  lemma Table6SetB(a: Entry, b: Entry, c: Entry, d: Entry, e: Entry, f: Entry, x: Entry)
    ensures Table6(a, b, c, d, e, f)["B" := x] == Table6(a, x, c, d, e, f)
  {
    Names();
  }

  /** Rewriting the record of C in a six-node table. */
  lemma Table6SetC(a: Entry, b: Entry, c: Entry, d: Entry, e: Entry, f: Entry, x: Entry)
    ensures Table6(a, b, c, d, e, f)["C" := x] == Table6(a, b, x, d, e, f)
  {
    Names();
  }

  /** Rewriting the record of D in a six-node table. */
  lemma Table6SetD(a: Entry, b: Entry, c: Entry, d: Entry, e: Entry, f: Entry, x: Entry)
    ensures Table6(a, b, c, d, e, f)["D" := x] == Table6(a, b, c, x, e, f)
  {
    Names();
  }

  /** Rewriting the record of E in a six-node table. */
  lemma Table6SetE(a: Entry, b: Entry, c: Entry, d: Entry, e: Entry, f: Entry, x: Entry)
    ensures Table6(a, b, c, d, e, f)["E" := x] == Table6(a, b, c, d, x, f)
  {
    Names();
  }

  /** Rewriting the record of F in a six-node table. */
  lemma Table6SetF(a: Entry, b: Entry, c: Entry, d: Entry, e: Entry, f: Entry, x: Entry)
    ensures Table6(a, b, c, d, e, f)["F" := x] == Table6(a, b, c, d, e, x)
  {
    Names();
  }

  const Unreached := Entry(Inf, [])

  // ---------------------------------------------------------------------------
  // Graph G
  // ---------------------------------------------------------------------------

  const RA := Entry(Fin(0), ["A"])
  const RB := Entry(Fin(2), ["A"] + ["B"])
  const RE := Entry(Fin(3), ["A"] + ["E"])
  const RC := Entry(Fin(-3), ["A"] + ["B"] + ["C"])
  const RD := Entry(Fin(-1), ["A"] + ["B"] + ["C"] + ["D"])
  const RF := Entry(Fin(1), ["A"] + ["B"] + ["C"] + ["D"] + ["F"])

  function T0(): Table { Table6(RA, Unreached, Unreached, Unreached, Unreached, Unreached) }
  function T1(): Table { Table6(RA, RB, Unreached, Unreached, Unreached, Unreached) }
  function T2(): Table { Table6(RA, RB, Unreached, Unreached, RE, Unreached) }
  function T3(): Table { Table6(RA, RB, RC, Unreached, RE, Unreached) }
  function T4(): Table { Table6(RA, RB, RC, RD, RE, Unreached) }

  /** The table ford_bellman returns for G from A. */
  function GResult(): Table { Table6(RA, RB, RC, RD, RE, RF) }

  /** The table built before the first pass over G. */
  lemma GInit()
    ensures InitTable(G(), "A") == T0()
  {
    Names();
    Table6Get(RA, Unreached, Unreached, Unreached, Unreached, Unreached);
    assert NodeSet(G()) == {"A", "B", "C", "D", "E", "F"};
  }

  /** A -> B sets B to 2, then A -> E sets E to 3. */
  lemma GFirstEdges()
    ensures PassPrefix(G(), T0(), 2) == PassResult(T2(), true)
  {
    var g := G();
    GEdges();
    assert PassPrefix(g, T0(), 0) == PassResult(T0(), false);
    Table6Get(RA, Unreached, Unreached, Unreached, Unreached, Unreached);
    Table6SetB(RA, Unreached, Unreached, Unreached, Unreached, Unreached, RB);
    StepRelaxes(g, T0(), 0, T0(), false);
    Table6Get(RA, RB, Unreached, Unreached, Unreached, Unreached);
    Table6SetE(RA, RB, Unreached, Unreached, Unreached, Unreached, RE);
    StepRelaxes(g, T0(), 1, T1(), true);
  }

  /** B -> C sets C to -3, then C -> D sets D to -1. */
  lemma GMiddleEdges()
    ensures PassPrefix(G(), T0(), 4) == PassResult(T4(), true)
  {
    var g := G();
    GEdges();
    GFirstEdges();
    Table6Get(RA, RB, Unreached, Unreached, RE, Unreached);
    Table6SetC(RA, RB, Unreached, Unreached, RE, Unreached, RC);
    StepRelaxes(g, T0(), 2, T2(), true);
    Table6Get(RA, RB, RC, Unreached, RE, Unreached);
    Table6SetD(RA, RB, RC, Unreached, RE, Unreached, RD);
    StepRelaxes(g, T0(), 3, T3(), true);
  }

  /** D -> B keeps B at 2, then D -> F sets F to 1. */
  lemma GLateEdges()
    ensures PassPrefix(G(), T0(), 6) == PassResult(GResult(), true)
  {
    var g := G();
    GEdges();
    GMiddleEdges();
    Table6Get(RA, RB, RC, RD, RE, Unreached);
    StepKeeps(g, T0(), 4, T4(), true);
    Table6SetF(RA, RB, RC, RD, RE, Unreached, RF);
    StepRelaxes(g, T0(), 5, T4(), true);
  }

  /** The first pass over G relaxes A->B, A->E, B->C, C->D and D->F, in that order. */
  lemma GFirstPass()
    ensures Pass(G(), T0()) == PassResult(GResult(), true)
  {
    GLateEdges();
    GEdges();
    Table6Get(RA, RB, RC, RD, RE, RF);
    StepKeeps(G(), T0(), 6, GResult(), true);
  }

  /** The second pass over G relaxes nothing. */
  lemma GSecondPass()
    ensures Pass(G(), GResult()) == PassResult(GResult(), false)
  {
    var g, t := G(), GResult();
    GEdges();
    Table6Get(RA, RB, RC, RD, RE, RF);
    assert PassPrefix(g, t, 0) == PassResult(t, false);
    StepKeeps(g, t, 0, t, false);
    StepKeeps(g, t, 1, t, false);
    StepKeeps(g, t, 2, t, false);
    StepKeeps(g, t, 3, t, false);
    StepKeeps(g, t, 4, t, false);
    StepKeeps(g, t, 5, t, false);
    StepKeeps(g, t, 6, t, false);
  }

  /** The records of the table returned for G, with the paths written out. */
  lemma GEntries()
    ensures GResult().Keys == {"A", "B", "C", "D", "E", "F"}
    ensures GResult()["A"] == Entry(Fin(0), ["A"])
    ensures GResult()["B"] == Entry(Fin(2), ["A", "B"])
    ensures GResult()["C"] == Entry(Fin(-3), ["A", "B", "C"])
    ensures GResult()["D"] == Entry(Fin(-1), ["A", "B", "C", "D"])
    ensures GResult()["E"] == Entry(Fin(3), ["A", "E"])
    ensures GResult()["F"] == Entry(Fin(1), ["A", "B", "C", "D", "F"])
  {
    Table6Get(RA, RB, RC, RD, RE, RF);
    Appends();
  }

  /**
   * On G, ford_bellman makes two passes (the second relaxes nothing and ends the loop) and
   * returns A 0, B 2, C -3, D -1, E 3, F 1, each with the path that achieves it.
   */
  lemma GShortestPaths()
    ensures Passes(G(), "A") == Run(GResult(), 2)
    ensures ShortestPaths(G(), "A") == Paths(GResult())
  {
    GInit();
    GFirstPass();
    GSecondPass();
    PassUpdatedIffNotFixpoint(G(), GResult());
    assert |G().nodes| - 1 == 5;
    assert Iterate(G(), GResult(), 4) == Run(GResult(), 1);
  }

  // ---------------------------------------------------------------------------
  // Graph A
  // ---------------------------------------------------------------------------

  /** The cycle B -> C -> D -> B of A weighs -5 + 2 + 2 = -1. */
  lemma ACycleCost()
    ensures Cost(A(), ["B", "C", "D", "B"]) == -1
  {
    var g := A();
    AValid();
    AEdges();
    Appends();
    WeightOfEdge(g.edges, 2);
    WeightOfEdge(g.edges, 3);
    WeightOfEdge(g.edges, 4);
    CostAppend(g, ["B"], "C");
    CostAppend(g, ["B", "C"], "D");
    CostAppend(g, ["B", "C", "D"], "B");
  }

  /** B -> C -> D -> B is a cycle of A, and A -> B leads to it from A. */
  lemma ACycleReachable()
    ensures IsCycle(A(), ["B", "C", "D", "B"]) && WalkFrom(A(), ["A", "B"], "A", "B")
  {
    var g := A();
    AEdges();
    var p, c := ["A", "B"], ["B", "C", "D", "B"];
    assert HasEdge(g, p[0], p[1]) && HasEdge(g, c[0], c[1]);
    assert HasEdge(g, c[1], c[2]) && HasEdge(g, c[2], c[3]);
  }

  /** On A, ford_bellman finds the negative cycle B -> C -> D -> B, reachable from A, and returns None. */
  lemma ANegativeCycle()
    ensures ShortestPaths(A(), "A") == NegativeCycle
  {
    AValid();
    ACycleCost();
    ACycleReachable();
    NegativeCycleDetected(A(), "A", ["A", "B"], ["B", "C", "D", "B"]);
  }
}
