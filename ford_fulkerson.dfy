/** `SolverFordFulkerson` of the course version: augmenting paths found by breadth-first search, each
    reversed edge by edge in the adjacency dictionary itself, until "t" cannot be reached from "s". */
module FordFulkerson {
  import opened Lists
  import opened Options
  import opened GridModel
  import opened FlowNetwork
  import opened FlowMatching

  /** `bfs`: the path from "s" to "t" read back from the search's parent map, or None. */
  method Bfs(g: Graph) returns (path: Option<seq<Node>>)
    ensures path.Some? <==> Reachable(g, Source, Sink)
    ensures path.Some? ==>
      IsPath(g, path.value) && NoDup(path.value) &&
      path.value[0] == Source && path.value[|path.value| - 1] == Sink
  {
    var parents, found, depth := Explore(g, Source, Sink);
    if found {
      var p := ReconstructPath(parents, Source, Sink, depth);
      ReversedChainIsPath(g, Source, parents, depth, Sink);
      path := Some(p);
    } else {
      path := None;
    }
  }

  /** One reversed edge: `graph[u].remove(v)` (the first occurrence) then `graph[v].append(u)`. */
  function Flip(g: Graph, u: Node, v: Node): (r: Graph)
    requires v in Adj(g, u)
    ensures Adj(r, u) == (if u == v then RemoveFirst(Adj(g, u), v) + [u] else RemoveFirst(Adj(g, u), v))
    ensures u != v ==> Adj(r, v) == Adj(g, v) + [u]
    ensures forall x :: x != u && x != v ==> Adj(r, x) == Adj(g, x)
  {
    var g1 := g[u := RemoveFirst(Adj(g, u), v)];
    g1[v := Adj(g1, v) + [u]]
  }

  /** Reversing the first edge of a path of distinct nodes leaves the rest of it a path. */
  lemma FlipKeepsPath(g: Graph, path: seq<Node>)
    requires IsPath(g, path) && NoDup(path) && |path| >= 2
    ensures IsPath(Flip(g, path[0], path[1]), path[1..]) && NoDup(path[1..])
  {
    var r := Flip(g, path[0], path[1]);
    var rest := path[1..];
    forall k | 0 <= k < |rest| - 1 ensures rest[k + 1] in Adj(r, rest[k]) {
      assert rest[k] == path[k + 1] && rest[k + 1] == path[k + 2];
      assert path[k + 1] != path[0];
      if k > 0 {
        assert path[k + 1] != path[1];
      }
    }
  }

  /** `for u, v in zip(path, path[1:])`: every edge of the path reversed, from the front. */
  function FlipAll(g: Graph, path: seq<Node>): Graph
    requires IsPath(g, path) && NoDup(path)
    decreases |path|
  {
    if |path| < 2 then g
    else
      FlipKeepsPath(g, path);
      FlipAll(Flip(g, path[0], path[1]), path[1..])
  }

  /** A node off the path keeps its successors. */
  lemma {:induction false} FlipAllOffPath(g: Graph, path: seq<Node>, x: Node)
    requires IsPath(g, path) && NoDup(path) && x !in path
    ensures Adj(FlipAll(g, path), x) == Adj(g, x)
    decreases |path|
  {
    if |path| >= 2 {
      FlipKeepsPath(g, path);
      assert x !in path[1..];
      FlipAllOffPath(Flip(g, path[0], path[1]), path[1..], x);
    }
  }

  /** With u's list free of repeats, a reversal takes away exactly the edge u -> v and adds exactly
      v -> u; when u was not yet a successor of v, no list gains a repeat. */
  lemma FlipMembers(g: Graph, u: Node, v: Node)
    requires v in Adj(g, u) && u != v && AllNoDup(g)
    ensures forall x, y :: y in Adj(Flip(g, u, v), x) <==>
      (y in Adj(g, x) && !(x == u && y == v)) || (x == v && y == u)
    ensures u !in Adj(g, v) ==> AllNoDup(Flip(g, u, v))
  {
    forall x, y ensures y in Adj(Flip(g, u, v), x) <==> (y in Adj(g, x) && !(x == u && y == v)) || (x == v && y == u) {
      FlipMember(g, u, v, x, y);
    }
    if u !in Adj(g, v) {
      FlipNoDup(g, u, v);
    }
  }

  /** One edge x -> y after the reversal of u -> v. */
  lemma FlipMember(g: Graph, u: Node, v: Node, x: Node, y: Node)
    requires v in Adj(g, u) && u != v && AllNoDup(g)
    ensures y in Adj(Flip(g, u, v), x) <==> (y in Adj(g, x) && !(x == u && y == v)) || (x == v && y == u)
  {
    AllNoDupAdj(g, u);
    RemoveFirstMembers(Adj(g, u), v);
  }

  /** The reversal puts no repeat into any list when v -> u was absent. */
  lemma FlipNoDup(g: Graph, u: Node, v: Node)
    requires v in Adj(g, u) && u != v && AllNoDup(g) && u !in Adj(g, v)
    ensures AllNoDup(Flip(g, u, v))
  {
    AllNoDupAdj(g, u);
    AllNoDupAdj(g, v);
    RemoveFirstKeepsNoDup(Adj(g, u), v);
    NoDupAppend(Adj(g, v), [u]);
    forall w | w in Flip(g, u, v) ensures NoDup(Flip(g, u, v)[w]) {
      assert Flip(g, u, v)[w] == Adj(Flip(g, u, v), w);
      if w != u && w != v {
        AllNoDupAdj(g, w);
      }
    }
  }

  /** Reversing a simple path whose edges have no reverse in the graph takes away exactly the path's
      edges, adds exactly their reverses, and puts no repeat into any list. */
  lemma {:induction false} FlipAllMembers(g: Graph, path: seq<Node>)
    requires IsPath(g, path) && NoDup(path) && AllNoDup(g)
    requires forall k :: 0 <= k < |path| - 1 ==> path[k] !in Adj(g, path[k + 1])
    ensures AllNoDup(FlipAll(g, path))
    ensures forall x, y :: y in Adj(FlipAll(g, path), x) <==>
      (y in Adj(g, x) && !Step(path, x, y)) || Step(path, y, x)
    decreases |path|
  {
    if |path| >= 2 {
      var g1 := Flip(g, path[0], path[1]);
      var rest := path[1..];
      FlipKeepsPath(g, path);
      FlipMembers(g, path[0], path[1]);
      forall k | 0 <= k < |rest| - 1 ensures rest[k] !in Adj(g1, rest[k + 1]) {
        assert rest[k] == path[k + 1] && rest[k + 1] == path[k + 2];
        assert path[k + 2] != path[0] && path[k + 2] != path[1];
      }
      FlipAllMembers(g1, rest);
      assert path[0] !in rest;
      forall x, y ensures y in Adj(FlipAll(g, path), x) <==>
        (y in Adj(g, x) && !Step(path, x, y)) || Step(path, y, x)
      {
        StepCons(path, x, y);
        StepCons(path, y, x);
        if Step(rest, path[1], path[0]) {
          StepMembers(rest, path[1], path[0]);
        }
      }
    }
  }

  /** Reversing an augmenting path takes exactly one edge out of "s" and gives it none back. */
  lemma SourceLosesOneEdge(g: Graph, path: seq<Node>)
    requires IsPath(g, path) && NoDup(path) && |path| >= 2 && path[0] == Source
    ensures |Adj(FlipAll(g, path), Source)| == |Adj(g, Source)| - 1
  {
    var g1 := Flip(g, path[0], path[1]);
    FlipKeepsPath(g, path);
    assert Source !in path[1..] by {
      forall k | 0 <= k < |path| - 1 ensures path[1..][k] != Source {
        assert path[1..][k] == path[k + 1] && path[k + 1] != path[0];
      }
    }
    FlipAllOffPath(g1, path[1..], Source);
  }

  /** `ford_fulkerson(graph, even_cells, odd_cells)`: while the search finds a path from "s" to "t",
      reverse its edges in the graph itself; then read the pairs from the odd cells' lists. It ends
      with no path from "s" to "t" left, after at most as many augmentations as "s" had edges. When
      the graph given is a network built from candidate edges E, the final graph stands for a matching
      of those edges, and the pairs read are that matching, each pair once. */
  method FordFulkerson(graph: FlowGraph, evens: set<Cell>, odds: set<Cell>, ghost E: set<Pair>)
    returns (pairs: seq<Pair>, ghost rounds: nat, ghost matching: set<Pair>)
    modifies graph
    ensures !Reachable(graph.adj, Source, Sink)
    ensures ReadFrom(graph.adj, evens, odds, pairs)
    ensures rounds + |Adj(graph.adj, Source)| == |Adj(old(graph.adj), Source)|
    ensures Network(old(graph.adj), E, evens, odds) ==>
      MatchingOf(E, matching, evens, odds) && Represents(graph.adj, E, matching, evens, odds) &&
      NoDup(pairs) && (forall p :: p in pairs <==> p in matching) &&
      forall M' :: MatchingOf(E, M', evens, odds) ==> |M'| <= |pairs|
  {
    rounds, matching := 0, {};
    ghost var network := Network(graph.adj, E, evens, odds);
    while true
      invariant rounds + |Adj(graph.adj, Source)| == |Adj(old(graph.adj), Source)|
      invariant network ==>
        MatchingOf(E, matching, evens, odds) && Represents(graph.adj, E, matching, evens, odds)
      decreases |Adj(graph.adj, Source)|
    {
      var path := Bfs(graph.adj);
      if path.None? {
        break;
      }
      ghost var before := graph.adj;
      ReversePath(graph, path.value);
      SourceLosesOneEdge(before, path.value);
      if network {
        PathReverseAbsent(before, E, matching, evens, odds, path.value);
        FlipAllMembers(before, path.value);
        AugmentKeeps(before, graph.adj, E, matching, evens, odds, path.value);
        matching := Augmented(E, matching, path.value);
      }
      rounds := rounds + 1;
    }
    pairs := ReadPairs(graph.adj, evens, odds);
    if network {
      ReadIsMatching(graph.adj, E, matching, evens, odds, pairs);
      forall o | o in odds ensures NoDup(Adj(graph.adj, At(o))) {
        AllNoDupAdj(graph.adj, At(o));
      }
      ListedIsMaximum(graph.adj, E, matching, evens, odds, pairs);
    }
  }

  /** The edge loop of `ford_fulkerson` over one augmenting path, editing the graph in place. */
  method ReversePath(graph: FlowGraph, path: seq<Node>)
    requires IsPath(graph.adj, path) && NoDup(path)
    modifies graph
    ensures graph.adj == FlipAll(old(graph.adj), path)
  {
    var k := 0;
    while k < |path| - 1
      invariant 0 <= k <= |path| - 1
      invariant IsPath(graph.adj, path[k..]) && NoDup(path[k..])
      invariant FlipAll(graph.adj, path[k..]) == FlipAll(old(graph.adj), path)
    {
      var u, v := path[k], path[k + 1];
      FlipKeepsPath(graph.adj, path[k..]);
      assert path[k..][1..] == path[k + 1..];
      graph.adj := graph.adj[u := RemoveFirst(Adj(graph.adj, u), v)];
      graph.adj := graph.adj[v := Adj(graph.adj, v) + [u]];
      k := k + 1;
    }
  }

  /** `SolverFordFulkerson.run`: build the network from the candidate pairs and match. The pairs are
      read off the final graph, in which "t" can no longer be reached. When the candidate pairs are
      bipartite, that graph stands for a matching of the candidate edges, the pairs are exactly its
      pairs (distinct, sharing no cell), and no matching of the candidate edges has more pairs. */
  method Run(g: Grid) returns (pairs: seq<Pair>, ghost start: Graph, ghost final: Graph, ghost matching: set<Pair>)
    ensures Built(g.allPairs, start, EvenSide(g.allPairs), OddSide(g.allPairs))
    ensures !Reachable(final, Source, Sink)
    ensures ReadFrom(final, EvenSide(g.allPairs), OddSide(g.allPairs), pairs)
    ensures Bipartite(g.allPairs) ==>
      NoDup(pairs) && Disjoint(pairs) && forall k :: 0 <= k < |pairs| ==> pairs[k] in Edges(g.allPairs)
    ensures Bipartite(g.allPairs) ==>
      MatchingOf(Edges(g.allPairs), matching, EvenSide(g.allPairs), OddSide(g.allPairs)) &&
      Represents(final, Edges(g.allPairs), matching, EvenSide(g.allPairs), OddSide(g.allPairs)) &&
      forall p :: p in pairs <==> p in matching
    ensures Bipartite(g.allPairs) ==>
      forall M' :: MatchingOf(Edges(g.allPairs), M', EvenSide(g.allPairs), OddSide(g.allPairs)) ==> |M'| <= |pairs|
    ensures Bipartite(g.allPairs) && g.allPairs != [] ==> |pairs| >= 1
  {
    var adj, evens, odds := BuildNetwork(g.allPairs);
    start := adj;
    var graph := new FlowGraph(adj);
    ghost var rounds;
    pairs, rounds, matching := FordFulkerson(graph, evens, odds, Edges(g.allPairs));
    final := graph.adj;
    if Bipartite(g.allPairs) {
      Solved(g.allPairs, adj, final, matching, pairs);
    }
  }
}
