/**
 * Directed weighted graphs as name and edge sequences, walks along their edges,
 * the cost of a walk, and the removal of cycles from a walk.
 */
module Graphs {

  type Node = string

  /** A directed edge u -> v carrying weight w. */
  datatype Edge = Edge(u: Node, v: Node, w: int)

  /** The node sequence and the edge sequence, both in the graph's own iteration order. */
  datatype Graph = Graph(nodes: seq<Node>, edges: seq<Edge>)

  /** No two edges join the same ordered pair of nodes. */
  predicate UniquePairs(es: seq<Edge>)
  {
    forall i, j :: 0 <= i < j < |es| ==> es[i].u != es[j].u || es[i].v != es[j].v
  }

  /** What a directed graph guarantees: distinct nodes, edges between its nodes, one edge per ordered pair. */
  predicate ValidGraph(g: Graph)
  {
    && (forall i, j :: 0 <= i < j < |g.nodes| ==> g.nodes[i] != g.nodes[j])
    && (forall i :: 0 <= i < |g.edges| ==> g.edges[i].u in g.nodes && g.edges[i].v in g.nodes)
    && UniquePairs(g.edges)
  }

  function NodeSet(g: Graph): set<Node>
  {
    set x | x in g.nodes
  }

  predicate HasEdge(g: Graph, a: Node, b: Node)
  {
    exists i :: 0 <= i < |g.edges| && g.edges[i].u == a && g.edges[i].v == b
  }

  /** The weight of each ordered pair joined by an edge of es; the first such edge wins. */
  function Weights(es: seq<Edge>): map<(Node, Node), int>
  {
    if es == [] then map[] else Weights(es[1..])[(es[0].u, es[0].v) := es[0].w]
  }

  /** The weight of the edge a -> b in es (0 when there is none). */
  function Weight(es: seq<Edge>, a: Node, b: Node): int
  {
    var m := Weights(es);
    if (a, b) in m then m[(a, b)] else 0
  }

  /** With one edge per ordered pair, the weight of a pair is the weight of its edge. */
  lemma {:induction false} WeightOfEdge(es: seq<Edge>, i: nat)
    requires UniquePairs(es) && i < |es|
    ensures Weight(es, es[i].u, es[i].v) == es[i].w
  {
    if i > 0 {
      assert es[1..][i - 1] == es[i];
      WeightOfEdge(es[1..], i - 1);
      assert es[0].u != es[i].u || es[0].v != es[i].v;
    }
  }

  /** Each consecutive pair of p is joined by an edge. */
  predicate IsWalk(g: Graph, p: seq<Node>)
  {
    forall i :: 0 <= i < |p| - 1 ==> HasEdge(g, p[i], p[i + 1])
  }

  /** p is a walk that starts at a and ends at b. */
  predicate WalkFrom(g: Graph, p: seq<Node>, a: Node, b: Node)
  {
    |p| >= 1 && p[0] == a && p[|p| - 1] == b && IsWalk(g, p)
  }

  /** The sum of the weights along consecutive pairs of p. */
  function Cost(g: Graph, p: seq<Node>): int
    decreases |p|
  {
    if |p| <= 1 then 0
    else Cost(g, p[..|p| - 1]) + Weight(g.edges, p[|p| - 2], p[|p| - 1])
  }

  /** A closed walk with at least one edge. */
  predicate IsCycle(g: Graph, c: seq<Node>)
  {
    |c| >= 2 && c[0] == c[|c| - 1] && IsWalk(g, c)
  }

  /** p leads from s to the start of c, and c is a cycle of negative cost. */
  predicate NegCycleWitness(g: Graph, s: Node, p: seq<Node>, c: seq<Node>)
  {
    IsCycle(g, c) && WalkFrom(g, p, s, c[0]) && Cost(g, c) < 0
  }

  /** Some cycle of negative total weight can be reached from s. */
  ghost predicate ReachableNegativeCycle(g: Graph, s: Node)
  {
    exists p, c :: NegCycleWitness(g, s, p, c)
  }

  /** Appending v to p adds the weight of the pair (last of p, v) to the cost. */
  lemma CostAppend(g: Graph, p: seq<Node>, v: Node)
    requires |p| >= 1
    ensures Cost(g, p + [v]) == Cost(g, p) + Weight(g.edges, p[|p| - 1], v)
  {
    var q := p + [v];
    assert q[..|q| - 1] == p;
  }

  /** Appending v to a walk ending where an edge to v starts gives a walk. */
  lemma WalkAppend(g: Graph, p: seq<Node>, v: Node)
    requires |p| >= 1 && IsWalk(g, p) && HasEdge(g, p[|p| - 1], v)
    ensures IsWalk(g, p + [v])
  {
    var q := p + [v];
    forall i | 0 <= i < |q| - 1
      ensures HasEdge(g, q[i], q[i + 1])
    {
      if i < |p| - 1 {
        assert q[i] == p[i] && q[i + 1] == p[i + 1];
      } else {
        assert q[i] == p[|p| - 1] && q[i + 1] == v;
      }
    }
  }

  /** Extending a walk by one edge extends its cost by that edge's weight. */
  lemma WalkExtend(g: Graph, p: seq<Node>, v: Node)
    requires |p| >= 1 && IsWalk(g, p) && HasEdge(g, p[|p| - 1], v)
    ensures IsWalk(g, p + [v])
    ensures Cost(g, p + [v]) == Cost(g, p) + Weight(g.edges, p[|p| - 1], v)
  {
    WalkAppend(g, p, v);
    CostAppend(g, p, v);
  }

  /** Every contiguous piece of a walk is a walk. */
  lemma WalkSlice(g: Graph, p: seq<Node>, a: nat, b: nat)
    requires IsWalk(g, p) && a <= b <= |p|
    ensures IsWalk(g, p[a..b])
  {
    var q := p[a..b];
    forall i | 0 <= i < |q| - 1
      ensures HasEdge(g, q[i], q[i + 1])
    {
      assert q[i] == p[a + i] && q[i + 1] == p[a + i + 1];
    }
  }

  /** Every node on a walk that starts at a node of the graph is a node of the graph. */
  lemma WalkNodes(g: Graph, p: seq<Node>)
    requires ValidGraph(g) && |p| >= 1 && IsWalk(g, p) && p[0] in g.nodes
    ensures forall i :: 0 <= i < |p| ==> p[i] in g.nodes
  {
    forall i | 0 < i < |p|
      ensures p[i] in g.nodes
    {
      assert HasEdge(g, p[i - 1], p[(i - 1) + 1]);
    }
  }

  /** Cutting a walk at position k splits its cost into the costs of the two pieces. */
  lemma {:induction false} CostSplit(g: Graph, p: seq<Node>, k: nat)
    requires k < |p|
    ensures Cost(g, p) == Cost(g, p[..k + 1]) + Cost(g, p[k..])
    decreases |p|
  {
    if k == |p| - 1 {
      assert p[..k + 1] == p;
    } else {
      var p' := p[..|p| - 1];
      CostSplit(g, p', k);
      assert p'[..k + 1] == p[..k + 1];
      var r := p[k..];
      assert r[..|r| - 1] == p'[k..];
      assert r[|r| - 2] == p[|p| - 2] && r[|r| - 1] == p[|p| - 1];
    }
  }

  /** A sequence longer than the set holding all its elements repeats an element. */
  lemma {:induction false} Pigeonhole(q: seq<Node>, S: set<Node>) returns (i: nat, j: nat)
    requires forall k :: 0 <= k < |q| ==> q[k] in S
    requires |q| > |S|
    ensures i < j < |q| && q[i] == q[j]
  {
    var x := q[0];
    if x in q[1..] {
      var k :| 0 <= k < |q[1..]| && q[1..][k] == x;
      i, j := 0, k + 1;
    } else {
      var S' := S - {x};
      assert |S'| == |S| - 1;
      forall k | 0 <= k < |q[1..]|
        ensures q[1..][k] in S'
      {
        assert q[1..][k] == q[k + 1];
      }
      var i', j' := Pigeonhole(q[1..], S');
      i, j := i' + 1, j' + 1;
    }
  }

  /** A sequence has at most as many distinct elements as it has positions. */
  lemma {:induction false} SetOfSeqSize(s: seq<Node>)
    ensures |set x | x in s| <= |s|
  {
    if s != [] {
      SetOfSeqSize(s[1..]);
      var t := set x | x in s[1..];
      assert (set x | x in s) == t + {s[0]};
    }
  }

  /** Cutting the closed piece q[i..j+1] out of a walk leaves a shorter walk with the same ends. */
  lemma CutCycleWalk(g: Graph, q: seq<Node>, i: nat, j: nat)
    requires IsWalk(g, q) && i < j < |q| && q[i] == q[j]
    ensures var q' := q[..i + 1] + q[j + 1..];
      && IsWalk(g, q') && |q'| == |q| - (j - i) && q'[0] == q[0] && q'[|q'| - 1] == q[|q| - 1]
  {
    var q' := q[..i + 1] + q[j + 1..];
    forall k | 0 <= k < |q'| - 1
      ensures HasEdge(g, q'[k], q'[k + 1])
    {
      if k < i {
        assert q'[k] == q[k] && q'[k + 1] == q[k + 1];
      } else {
        assert q'[k] == q[k + j - i] && q'[k + 1] == q[k + j - i + 1];
      }
    }
  }

  /** The cost of q from position i splits at position j into the pieces up to j and from j. */
  lemma CostSplitFrom(g: Graph, q: seq<Node>, i: nat, j: nat)
    requires i <= j < |q|
    ensures Cost(g, q[i..]) == Cost(g, q[i..j + 1]) + Cost(g, q[j..])
  {
    var rest := q[i..];
    CostSplit(g, rest, j - i);
    assert rest[..j - i + 1] == q[i..j + 1];
    assert rest[j - i..] == q[j..];
  }

  /** The cost of a walk is the cost after cutting out q[i..j+1] plus the cost of that piece. */
  lemma CutCycleCost(g: Graph, q: seq<Node>, i: nat, j: nat)
    requires i < j < |q| && q[i] == q[j]
    ensures Cost(g, q) == Cost(g, q[..i + 1] + q[j + 1..]) + Cost(g, q[i..j + 1])
  {
    var q' := q[..i + 1] + q[j + 1..];
    CostSplit(g, q, i);
    CostSplitFrom(g, q, i, j);
    CostSplit(g, q', i);
    assert q'[..i + 1] == q[..i + 1];
    CutTail(q, i, j);
  }

  /** After cutting out q[i+1..j+1], the walk continues from position i as q does from j. */
  lemma CutTail(q: seq<Node>, i: nat, j: nat)
    requires i < j < |q| && q[i] == q[j]
    ensures (q[..i + 1] + q[j + 1..])[i..] == q[j..]
  {
    var q' := q[..i + 1] + q[j + 1..];
    assert q'[i..] == [q[i]] + q[j + 1..];
    assert q[j..] == [q[j]] + q[j + 1..];
  }

  /**
   * When no negative cycle can be reached from s, every walk from s can be replaced by
   * a walk of at most |V| nodes (|V| - 1 edges) with the same ends and no higher cost.
   */
  lemma {:induction false} ShortenWalk(g: Graph, s: Node, q: seq<Node>, x: Node) returns (r: seq<Node>)
    requires ValidGraph(g) && s in g.nodes
    requires forall p, c :: !NegCycleWitness(g, s, p, c)
    requires WalkFrom(g, q, s, x)
    ensures WalkFrom(g, r, s, x) && |r| <= |g.nodes| && Cost(g, r) <= Cost(g, q)
    decreases |q|
  {
    if |q| <= |g.nodes| {
      return q;
    }
    WalkNodes(g, q);
    SetOfSeqSize(g.nodes);
    var i, j := Pigeonhole(q, NodeSet(g));
    var head, cycle := q[..i + 1], q[i..j + 1];
    WalkSlice(g, q, 0, i + 1);
    WalkSlice(g, q, i, j + 1);
    assert IsCycle(g, cycle);
    assert WalkFrom(g, head, s, cycle[0]);
    assert !NegCycleWitness(g, s, head, cycle);
    CutCycleWalk(g, q, i, j);
    CutCycleCost(g, q, i, j);
    r := ShortenWalk(g, s, q[..i + 1] + q[j + 1..], x);
  }
}
