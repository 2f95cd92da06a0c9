/** The weighted graph of the blossom solver: the graph `Solver_Blossom.run` builds from the candidate
    pairs, and the start of `max_weight_matching` (the exit on an empty graph, the largest edge
    weight, the initial vertex duals and the slack of an edge). */
module BlossomGraph {
  import opened Lists
  import opened Options
  import opened GridModel
  import opened Scoring
  import opened FlowNetwork

  /** An undirected graph as `networkx.Graph` keeps it: its nodes in insertion order, each edge once
      (in the orientation it was first added) and the `'weight'` attribute of the edges that have one,
      under either orientation. */
  datatype WGraph = WGraph(nodes: seq<Cell>, edges: seq<Pair>, weight: map<Pair, int>)

  /** `G[a][b]` exists. */
  predicate Linked(G: WGraph, a: Cell, b: Cell) {
    (a, b) in G.edges || (b, a) in G.edges
  }

  /** `G[a][b].get('weight', 1)`. */
  function W(G: WGraph, a: Cell, b: Cell): int {
    if (a, b) in G.weight then G.weight[(a, b)]
    else if (b, a) in G.weight then G.weight[(b, a)]
    else 1
  }

  /** No repeated node, no edge joining a node outside the graph, no edge listed twice, one weight per
      edge. */
  ghost predicate Simple(G: WGraph) {
    NoDup(G.nodes) &&
    (forall a, b :: (a, b) in G.weight && (b, a) in G.weight ==> G.weight[(a, b)] == G.weight[(b, a)]) &&
    (forall k :: 0 <= k < |G.edges| ==> G.edges[k].0 in G.nodes && G.edges[k].1 in G.nodes) &&
    (forall k, l :: 0 <= k < l < |G.edges| ==>
       G.edges[k] != G.edges[l] && G.edges[k] != (G.edges[l].1, G.edges[l].0))
  }

  /** `G.add_edge(u, v, weight=w)`: u, then v, join the nodes if new; an existing edge only has its
      weight replaced. */
  function AddEdge(G: WGraph, u: Cell, v: Cell, w: int): WGraph {
    var nodes1 := if u in G.nodes then G.nodes else G.nodes + [u];
    var nodes2 := if v in nodes1 then nodes1 else nodes1 + [v];
    var edges := if Linked(G, u, v) then G.edges else G.edges + [(u, v)];
    WGraph(nodes2, edges, (G.weight - {(v, u)})[(u, v) := w])
  }

  /** The graph of `Solver_Blossom.run` after the first pairs of a list. */
  function GraphOf(g: Grid, pairs: seq<Pair>): WGraph
    requires Shaped(g) && AllInBounds(g, pairs)
  {
    if pairs == [] then WGraph([], [], map[])
    else
      var p := pairs[|pairs| - 1];
      AddEdge(GraphOf(g, pairs[..|pairs| - 1]), p.0, p.1, Weight(g, p))
  }

  /** The loop of `Solver_Blossom.run` that builds `G`: each candidate pair becomes an edge of weight
      `-(cost - value_u - value_v)`. */
  method BuildGraph(g: Grid) returns (G: WGraph)
    requires Shaped(g) && AllInBounds(g, g.allPairs)
    ensures G == GraphOf(g, g.allPairs)
  {
    var pairs := g.allPairs;
    G := WGraph([], [], map[]);
    for k := 0 to |pairs|
      invariant G == GraphOf(g, pairs[..k])
    {
      var (u, v) := pairs[k];
      var cost := Cost(g, (u, v));
      var weight := cost - ValueAt(g, u) - ValueAt(g, v);
      GraphOfStep(g, pairs, k);
      assert u == pairs[k].0 && v == pairs[k].1 && -weight == Weight(g, pairs[k]);
      G := AddEdge(G, u, v, -weight);
    }
    assert pairs[..|pairs|] == pairs;
  }

  lemma GraphOfStep(g: Grid, pairs: seq<Pair>, k: nat)
    requires Shaped(g) && AllInBounds(g, pairs) && k < |pairs|
    ensures AllInBounds(g, pairs[..k]) && AllInBounds(g, pairs[..k + 1]) && PairInBounds(g, pairs[k])
    ensures GraphOf(g, pairs[..k + 1]) == AddEdge(GraphOf(g, pairs[..k]), pairs[k].0, pairs[k].1, Weight(g, pairs[k]))
  {
    PrefixStep(pairs, k);
    PrefixInBounds(g, pairs[..k + 1]);
  }

  lemma PrefixInBounds(g: Grid, pairs: seq<Pair>)
    requires AllInBounds(g, pairs) && |pairs| > 0
    ensures AllInBounds(g, pairs[..|pairs| - 1])
  {
    assert forall k :: 0 <= k < |pairs| - 1 ==> pairs[..|pairs| - 1][k] == pairs[k];
  }

  /** What adding one edge does to adjacency and weights. */
  lemma AddEdgeFacts(G: WGraph, u: Cell, v: Cell, w: int)
    ensures var G' := AddEdge(G, u, v, w);
      Linked(G', u, v) && W(G', u, v) == w && W(G', v, u) == w &&
      (forall a, b :: Linked(G', a, b) <==> Linked(G, a, b) || (a, b) == (u, v) || (a, b) == (v, u)) &&
      (forall a, b :: (a, b) != (u, v) && (a, b) != (v, u) ==> W(G', a, b) == W(G, a, b)) &&
      (forall c :: c in G'.nodes <==> c in G.nodes || c == u || c == v)
  {
  }

  /** The edge weight of a pair does not depend on the order of its cells. */
  lemma WeightSymmetric(g: Grid, p: Pair)
    requires Shaped(g) && PairInBounds(g, p)
    ensures Weight(g, (p.1, p.0)) == Weight(g, p)
  {
  }

  /** Every candidate pair is an edge of the built graph, of weight twice the smaller value of its
      cells; every edge comes from a candidate pair; the nodes are the cells of the pairs, each once. */
  lemma GraphOfFacts(g: Grid, pairs: seq<Pair>)
    requires Shaped(g) && AllInBounds(g, pairs)
    ensures var G := GraphOf(g, pairs);
      (forall k :: 0 <= k < |pairs| ==>
         Linked(G, pairs[k].0, pairs[k].1) &&
         W(G, pairs[k].0, pairs[k].1) == 2 * Min(ValueAt(g, pairs[k].0), ValueAt(g, pairs[k].1))) &&
      (forall a, b :: Linked(G, a, b) ==> (a, b) in pairs || (b, a) in pairs) &&
      (forall c :: c in G.nodes <==> c in CellsOf(pairs))
  {
    GraphOfPairs(g, pairs);
    GraphOfEdges(g, pairs);
    GraphOfNodes(g, pairs);
  }

  lemma {:induction false} GraphOfPairs(g: Grid, pairs: seq<Pair>)
    requires Shaped(g) && AllInBounds(g, pairs)
    ensures forall k :: 0 <= k < |pairs| ==>
      Linked(GraphOf(g, pairs), pairs[k].0, pairs[k].1) &&
      W(GraphOf(g, pairs), pairs[k].0, pairs[k].1) == 2 * Min(ValueAt(g, pairs[k].0), ValueAt(g, pairs[k].1))
  {
    if pairs != [] {
      var pre, p := pairs[..|pairs| - 1], pairs[|pairs| - 1];
      PrefixInBounds(g, pairs);
      GraphOfPairs(g, pre);
      var G0, G := GraphOf(g, pre), GraphOf(g, pairs);
      AddEdgeFacts(G0, p.0, p.1, Weight(g, p));
      WeightSymmetric(g, p);
      forall k | 0 <= k < |pairs|
        ensures Linked(G, pairs[k].0, pairs[k].1)
        ensures W(G, pairs[k].0, pairs[k].1) == 2 * Min(ValueAt(g, pairs[k].0), ValueAt(g, pairs[k].1))
      {
        if k < |pre| {
          assert pairs[k] == pre[k];
        }
      }
    }
  }

  lemma {:induction false} GraphOfEdges(g: Grid, pairs: seq<Pair>)
    requires Shaped(g) && AllInBounds(g, pairs)
    ensures forall a, b :: Linked(GraphOf(g, pairs), a, b) ==> (a, b) in pairs || (b, a) in pairs
  {
    if pairs != [] {
      var pre, p := pairs[..|pairs| - 1], pairs[|pairs| - 1];
      PrefixInBounds(g, pairs);
      GraphOfEdges(g, pre);
      AddEdgeFacts(GraphOf(g, pre), p.0, p.1, Weight(g, p));
      assert pairs == pre + [p];
    }
  }

  lemma {:induction false} GraphOfNodes(g: Grid, pairs: seq<Pair>)
    requires Shaped(g) && AllInBounds(g, pairs)
    ensures forall c :: c in GraphOf(g, pairs).nodes <==> c in CellsOf(pairs)
  {
    if pairs != [] {
      var pre, p := pairs[..|pairs| - 1], pairs[|pairs| - 1];
      PrefixInBounds(g, pairs);
      GraphOfNodes(g, pre);
      AddEdgeFacts(GraphOf(g, pre), p.0, p.1, Weight(g, p));
      assert pairs == pre + [p];
      CellsOfAppend(pre, [p]);
      CellsOfSingle(p);
    }
  }

  /** The graph `networkx.Graph` builds is simple whatever edges are added. */
  lemma {:induction false} GraphOfSimple(g: Grid, pairs: seq<Pair>)
    requires Shaped(g) && AllInBounds(g, pairs)
    ensures Simple(GraphOf(g, pairs))
  {
    if pairs != [] {
      var p := pairs[|pairs| - 1];
      PrefixInBounds(g, pairs);
      GraphOfSimple(g, pairs[..|pairs| - 1]);
      AddEdgeSimple(GraphOf(g, pairs[..|pairs| - 1]), p.0, p.1, Weight(g, p));
    }
  }

  lemma AddEdgeSimple(G: WGraph, u: Cell, v: Cell, w: int)
    requires Simple(G)
    ensures Simple(AddEdge(G, u, v, w))
  {
    var G' := AddEdge(G, u, v, w);
    var nodes1 := if u in G.nodes then G.nodes else G.nodes + [u];
    if u !in G.nodes {
      NoDupAppend(G.nodes, [u]);
    }
    if v !in nodes1 {
      NoDupAppend(nodes1, [v]);
    }
  }

  /** The opening of `max_weight_matching`: `None` for a graph without nodes (which returns the empty
      set at once), otherwise `maxweight`, the largest weight of an edge that is not a loop, or 0. */
  method MaxWeight(G: WGraph) returns (maxweight: Option<int>)
    ensures maxweight.None? <==> G.nodes == []
    ensures maxweight.Some? ==> Largest(G, maxweight.value)
  {
    if G.nodes == [] {
      return None;
    }
    var m := 0;
    for k := 0 to |G.edges|
      invariant m >= 0
      invariant forall l :: 0 <= l < k && G.edges[l].0 != G.edges[l].1 ==> W(G, G.edges[l].0, G.edges[l].1) <= m
      invariant m == 0 || exists l :: 0 <= l < k && G.edges[l].0 != G.edges[l].1 && W(G, G.edges[l].0, G.edges[l].1) == m
    {
      var (i, j) := G.edges[k];
      var wt := W(G, i, j);
      if i != j && wt > m {
        m := wt;
      }
    }
    maxweight := Some(m);
  }

  /** m is at least 0 and every weight of an edge that is not a loop, and is one of them unless 0. */
  ghost predicate Largest(G: WGraph, m: int) {
    m >= 0 &&
    (forall k :: 0 <= k < |G.edges| && G.edges[k].0 != G.edges[k].1 ==> W(G, G.edges[k].0, G.edges[k].1) <= m) &&
    (m == 0 || exists k :: 0 <= k < |G.edges| && G.edges[k].0 != G.edges[k].1 && W(G, G.edges[k].0, G.edges[k].1) == m)
  }

  /** `dualvar = dict(zip(gnodes, repeat(maxweight)))`. */
  function InitialDuals(G: WGraph, maxweight: int): (dual: map<Cell, int>)
    ensures forall v :: v in dual <==> v in G.nodes
  {
    map v | v in G.nodes :: maxweight
  }

  /** `slack(v, w)`: twice the edge weight subtracted from the two vertex duals. */
  function Slack(G: WGraph, dual: map<Cell, int>, v: Cell, w: Cell): int
    requires v in dual && w in dual && Linked(G, v, w)
  {
    dual[v] + dual[w] - 2 * W(G, v, w)
  }

  lemma SlackSymmetric(G: WGraph, dual: map<Cell, int>, v: Cell, w: Cell)
    requires Simple(G) && v in dual && w in dual && Linked(G, v, w)
    ensures Slack(G, dual, w, v) == Slack(G, dual, v, w)
  {
  }

  /** With the initial duals every vertex dual is non-negative and no edge between two distinct
      vertices has a negative slack. */
  lemma InitialSlack(G: WGraph, maxweight: int, v: Cell, w: Cell)
    requires Simple(G) && Largest(G, maxweight) && v != w && Linked(G, v, w)
    ensures v in InitialDuals(G, maxweight) && w in InitialDuals(G, maxweight)
    ensures InitialDuals(G, maxweight)[v] >= 0 && Slack(G, InitialDuals(G, maxweight), v, w) >= 0
  {
    var k := if (v, w) in G.edges then IndexOf(G.edges, (v, w)) else IndexOf(G.edges, (w, v));
    assert G.edges[k].0 != G.edges[k].1;
  }
}
