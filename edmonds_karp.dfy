/** `Solver_Ford_Fulkerson` of the `color_grid_game` package: the same flow network, but the
    augmenting paths are reversed in a per-key copy of the graph (the residual graph), through the
    search's parent map, and an edge is only added back when it is not there yet. */
module EdmondsKarp {
  import opened Lists
  import opened Options
  import opened GridModel
  import opened FlowNetwork
  import opened FlowMatching

  /** `bfs` of the `color_grid_game` package: the parent map of the search when it reaches "t", and
      the empty map `{}` when it does not. */
  method BfsParents(g: Graph) returns (parents: map<Node, Option<Node>>, ghost depth: map<Node, nat>)
    ensures parents == map[] <==> !Reachable(g, Source, Sink)
    ensures parents != map[] ==> ParentTree(g, Source, parents, depth) && Sink in parents
  {
    var found;
    parents, found, depth := Explore(g, Source, Sink);
    if !found {
      parents := map[];
    }
  }

  /** One step of the augmentation walk over the parent edge u -> v: the forward edge is removed when
      it is present, and the backward edge v -> u is appended only when it is absent. */
  function GuardedFlip(r: Graph, u: Node, v: Node): Graph {
    var r1 := if u in r && v in r[u] then r[u := RemoveFirst(r[u], v)] else r;
    if v !in r1 || u !in r1[v] then r1[v := Adj(r1, v) + [u]] else r1
  }

  /** The guarded step never puts a repeat into a list. */
  lemma GuardedFlipKeepsNoDup(r: Graph, u: Node, v: Node)
    requires AllNoDup(r)
    ensures AllNoDup(GuardedFlip(r, u, v))
  {
    var r1 := if u in r && v in r[u] then r[u := RemoveFirst(r[u], v)] else r;
    if u in r && v in r[u] {
      RemoveFirstKeepsNoDup(r[u], v);
    }
    assert AllNoDup(r1);
    if v !in r1 || u !in r1[v] {
      var l := Adj(r1, v);
      assert NoDup(l);
      NoDupAppend(l, [u]);
    }
  }

  /** The lists of nodes other than u and v are untouched by the step on u -> v. */
  lemma GuardedFlipElsewhere(r: Graph, u: Node, v: Node, x: Node)
    requires x != u && x != v
    ensures Adj(GuardedFlip(r, u, v), x) == Adj(r, x)
  {
  }

  /** The step on u -> v, for a present edge out of u into another node v: u's list loses v and
      nothing else happens to it. */
  lemma GuardedFlipTail(r: Graph, u: Node, v: Node)
    requires v in Adj(r, u) && u != v
    ensures Adj(GuardedFlip(r, u, v), u) == RemoveFirst(Adj(r, u), v)
  {
  }

  /** The walk of the augmentation along a parent chain [t, parent of t, ..., s]: the step on each
      parent edge, from "t" back to "s". */
  function FlipChain(r: Graph, chain: seq<Node>): Graph
    decreases |chain|
  {
    if |chain| < 2 then r else FlipChain(GuardedFlip(r, chain[1], chain[0]), chain[1..])
  }

  /** Walking a chain keeps every list free of repeats. */
  lemma {:induction false} FlipChainKeepsNoDup(r: Graph, chain: seq<Node>)
    requires AllNoDup(r)
    ensures AllNoDup(FlipChain(r, chain))
    decreases |chain|
  {
    if |chain| >= 2 {
      GuardedFlipKeepsNoDup(r, chain[1], chain[0]);
      FlipChainKeepsNoDup(GuardedFlip(r, chain[1], chain[0]), chain[1..]);
    }
  }

  /** With the lists free of repeats, the guarded step takes away exactly the edge u -> v and adds
      exactly v -> u. */
  lemma GuardedFlipMembers(r: Graph, u: Node, v: Node)
    requires AllNoDup(r) && u != v
    ensures forall x, y :: y in Adj(GuardedFlip(r, u, v), x) <==>
      (y in Adj(r, x) && !(x == u && y == v)) || (x == v && y == u)
  {
    forall x, y ensures y in Adj(GuardedFlip(r, u, v), x) <==>
      (y in Adj(r, x) && !(x == u && y == v)) || (x == v && y == u)
    {
      GuardedFlipMember(r, u, v, x, y);
    }
  }

  lemma GuardedFlipMember(r: Graph, u: Node, v: Node, x: Node, y: Node)
    requires AllNoDup(r) && u != v
    ensures y in Adj(GuardedFlip(r, u, v), x) <==>
      (y in Adj(r, x) && !(x == u && y == v)) || (x == v && y == u)
  {
    var r1 := if u in r && v in r[u] then r[u := RemoveFirst(r[u], v)] else r;
    if u in r && v in r[u] {
      RemoveFirstMembers(r[u], v);
    }
    assert y in Adj(r1, x) <==> y in Adj(r, x) && !(x == u && y == v);
  }

  /** Walking a chain of distinct nodes takes away exactly the parent edges chain[k + 1] -> chain[k]
      and adds exactly their reverses. */
  lemma {:induction false} FlipChainMembers(r: Graph, chain: seq<Node>)
    requires AllNoDup(r) && NoDup(chain)
    ensures forall x, y :: y in Adj(FlipChain(r, chain), x) <==>
      (y in Adj(r, x) && !Step(chain, y, x)) || Step(chain, x, y)
    decreases |chain|
  {
    if |chain| >= 2 {
      var r1 := GuardedFlip(r, chain[1], chain[0]);
      var rest := chain[1..];
      GuardedFlipMembers(r, chain[1], chain[0]);
      GuardedFlipKeepsNoDup(r, chain[1], chain[0]);
      FlipChainMembers(r1, rest);
      assert chain[0] !in rest;
      forall x, y ensures y in Adj(FlipChain(r, chain), x) <==>
        (y in Adj(r, x) && !Step(chain, y, x)) || Step(chain, x, y)
      {
        StepCons(chain, x, y);
        StepCons(chain, y, x);
        if Step(rest, chain[1], chain[0]) {
          StepMembers(rest, chain[1], chain[0]);
        }
      }
    }
  }

  /** A node off the chain keeps its list. */
  lemma {:induction false} FlipChainElsewhere(r: Graph, chain: seq<Node>, x: Node)
    requires x !in chain
    ensures Adj(FlipChain(r, chain), x) == Adj(r, x)
    decreases |chain|
  {
    if |chain| >= 2 {
      GuardedFlipElsewhere(r, chain[1], chain[0], x);
      assert x !in chain[1..];
      FlipChainElsewhere(GuardedFlip(r, chain[1], chain[0]), chain[1..], x);
    }
  }

  /** Walking a chain that ends at "s", and meets it nowhere else, takes exactly one edge out of "s":
      the one into the chain's last node before "s", which must be present. */
  lemma {:induction false} FlipChainSource(r: Graph, chain: seq<Node>)
    requires |chain| >= 2 && chain[|chain| - 1] == Source && Source !in chain[..|chain| - 1]
    requires chain[|chain| - 2] in Adj(r, Source)
    ensures Adj(FlipChain(r, chain), Source) == RemoveFirst(Adj(r, Source), chain[|chain| - 2])
    decreases |chain|
  {
    var n := |chain|;
    var r1 := GuardedFlip(r, chain[1], chain[0]);
    assert chain[0] in chain[..n - 1];
    if n == 2 {
      GuardedFlipTail(r, Source, chain[0]);
      assert chain[1..] == [Source];
    } else {
      assert chain[1] in chain[..n - 1];
      GuardedFlipElsewhere(r, chain[1], chain[0], Source);
      var rest := chain[1..];
      assert rest[..|rest| - 1] == chain[1..n - 1];
      assert Source !in rest[..|rest| - 1];
      FlipChainSource(r1, rest);
    }
  }

  /** The augmentation along the parent chain of "t" removes one out-edge of "s" and gives none back. */
  lemma AugmentShrinksSource(r: Graph, parents: map<Node, Option<Node>>, depth: map<Node, nat>)
    requires ParentTree(r, Source, parents, depth) && Sink in parents
    ensures |Adj(FlipChain(r, ParentChain(Source, parents, depth, Sink)), Source)| == |Adj(r, Source)| - 1
  {
    var chain := ParentChain(Source, parents, depth, Sink);
    ChainFacts(Source, parents, depth, Sink);
    ChainNoDup(Source, parents, depth, Sink);
    var n := |chain|;
    assert Source !in chain[..n - 1] by {
      forall k | 0 <= k < n - 1 ensures chain[k] != Source {
        assert chain[k] != chain[n - 1];
      }
    }
    assert chain[n - 2] != Source && parents[chain[n - 2]] == Some(Source);
    FlipChainSource(r, chain);
  }

  /** `residual_graph[u] = graph[u][:]` for every key u: a copy with the same lists. */
  method CopyGraph(g: Graph) returns (r: Graph)
    ensures r == g
  {
    r := map[];
    var keys := g.Keys;
    while keys != {}
      invariant keys <= g.Keys
      invariant r.Keys == g.Keys - keys
      invariant forall u :: u in r ==> r[u] == g[u]
    {
      var u :| u in keys;
      r := r[u := g[u]];
      keys := keys - {u};
    }
  }

  /** The augmentation walk: from v = "t", take u = parents[v], remove v from u's list when it is
      there, append u to v's list when it is not there, and go on from u until v is "s". */
  method Augment(residual: FlowGraph, parents: map<Node, Option<Node>>, ghost depth: map<Node, nat>)
    requires ChainShape(Source, parents, depth) && Sink in parents
    modifies residual
    ensures residual.adj == FlipChain(old(residual.adj), ParentChain(Source, parents, depth, Sink))
  {
    var v := Sink;
    while v != Source
      invariant v in parents
      invariant FlipChain(residual.adj, ParentChain(Source, parents, depth, v)) ==
        FlipChain(old(residual.adj), ParentChain(Source, parents, depth, Sink))
      decreases depth[v]
    {
      var u := parents[v].value;
      ghost var before := residual.adj;
      ChainStep(before, parents, depth, v);
      if u in residual.adj && v in residual.adj[u] {
        residual.adj := residual.adj[u := RemoveFirst(residual.adj[u], v)];
      }
      if v !in residual.adj || u !in residual.adj[v] {
        residual.adj := residual.adj[v := Adj(residual.adj, v) + [u]];
      }
      assert residual.adj == GuardedFlip(before, u, v);
      v := u;
    }
  }

  /** One step of the walk: the chain of v is v followed by the chain of its parent u. */
  lemma ChainStep(r: Graph, parents: map<Node, Option<Node>>, depth: map<Node, nat>, v: Node)
    requires ChainShape(Source, parents, depth) && v in parents && v != Source
    ensures FlipChain(r, ParentChain(Source, parents, depth, v)) ==
      FlipChain(GuardedFlip(r, parents[v].value, v), ParentChain(Source, parents, depth, parents[v].value))
  {
    var u := parents[v].value;
    ChainFacts(Source, parents, depth, u);
    var chain := ParentChain(Source, parents, depth, v);
    assert chain == [v] + ParentChain(Source, parents, depth, u);
    assert chain[1..] == ParentChain(Source, parents, depth, u);
  }

  /** `edmonds_karp`: a ValueError when the graph or either side is empty; otherwise augment on a
      copy of the graph until the search fails, then read the pairs off the odd cells' lists. The
      graph given is left as it was (the method may not change it); the copy ends with no path from
      "s" to "t", has lost one edge out of "s" per augmentation, and keeps lists without repeats
      when the given lists had none. When the graph given is a network built from candidate edges E,
      the copy ends standing for a matching of those edges, and the pairs read are that matching,
      each pair once. */
  method EdmondsKarp(graph: FlowGraph, evens: set<Cell>, odds: set<Cell>, ghost E: set<Pair>)
    returns (result: Result<seq<Pair>>, ghost residual: Graph, ghost rounds: nat, ghost matching: set<Pair>)
    ensures result.Err? <==> graph.adj == map[] || evens == {} || odds == {}
    ensures result.Ok? ==> !Reachable(residual, Source, Sink) && ReadFrom(residual, evens, odds, result.value)
    ensures result.Ok? ==> rounds + |Adj(residual, Source)| == |Adj(graph.adj, Source)|
    ensures result.Ok? && AllNoDup(graph.adj) ==> AllNoDup(residual)
    ensures result.Ok? && Network(graph.adj, E, evens, odds) ==>
      MatchingOf(E, matching, evens, odds) && Represents(residual, E, matching, evens, odds) &&
      NoDup(result.value) && (forall p :: p in result.value <==> p in matching) &&
      forall M' :: MatchingOf(E, M', evens, odds) ==> |M'| <= |result.value|
  {
    rounds, matching := 0, {};
    residual := graph.adj;
    if graph.adj == map[] || evens == {} || odds == {} {
      return Err("Invalid graph or cell sets"), residual, rounds, matching;
    }
    ghost var network := Network(graph.adj, E, evens, odds);
    var copy := CopyGraph(graph.adj);
    var r := new FlowGraph(copy);
    while true
      invariant rounds + |Adj(r.adj, Source)| == |Adj(graph.adj, Source)|
      invariant AllNoDup(graph.adj) ==> AllNoDup(r.adj)
      invariant network ==> MatchingOf(E, matching, evens, odds) && Represents(r.adj, E, matching, evens, odds)
      decreases |Adj(r.adj, Source)|
    {
      var parents, depth := BfsParents(r.adj);
      if parents == map[] {
        break;
      }
      ghost var before := r.adj;
      Augment(r, parents, depth);
      AugmentShrinksSource(before, parents, depth);
      ghost var chain := ParentChain(Source, parents, depth, Sink);
      if AllNoDup(graph.adj) {
        FlipChainKeepsNoDup(before, chain);
      }
      if network {
        ReversedChainIsPath(before, Source, parents, depth, Sink);
        ChainNoDup(Source, parents, depth, Sink);
        FlipChainMembers(before, chain);
        forall x, y ensures Step(Reverse(chain), x, y) <==> Step(chain, y, x) {
          StepReverse(chain, x, y);
        }
        AugmentKeeps(before, r.adj, E, matching, evens, odds, Reverse(chain));
        matching := Augmented(E, matching, Reverse(chain));
      }
      rounds := rounds + 1;
    }
    residual := r.adj;
    var pairs := ReadPairs(r.adj, evens, odds);
    if network {
      ReadIsMatching(r.adj, E, matching, evens, odds, pairs);
      forall o | o in odds ensures NoDup(Adj(r.adj, At(o))) {
        AllNoDupAdj(r.adj, At(o));
      }
      ListedIsMaximum(r.adj, E, matching, evens, odds, pairs);
    }
    result := Ok(pairs);
  }

  /** The number of edges out of "s" in a built network is the number of even cells. */
  lemma SourceEdgesCount(s: seq<Node>, evens: set<Cell>)
    requires NoDup(s) && forall x :: x in s <==> x.At? && x.cell in evens
    ensures |s| == |evens|
  {
    var cells := seq(|s|, i requires 0 <= i < |s| => s[i].cell);
    assert NoDup(cells) by {
      forall a, b | 0 <= a < b < |cells| ensures cells[a] != cells[b] {
        assert s[a] in s && s[b] in s;
        assert s[a] == At(cells[a]) && s[b] == At(cells[b]);
      }
    }
    NoDupCard(cells);
    assert (set c | c in cells) == evens by {
      forall c | c in evens ensures c in cells {
        assert At(c) in s;
        var i :| 0 <= i < |s| && s[i] == At(c);
        assert cells[i] == c;
      }
      forall c | c in cells ensures c in evens {
        var i :| 0 <= i < |cells| && cells[i] == c;
        assert s[i] in s;
      }
    }
  }

  /** `Solver_Ford_Fulkerson.run`: build the network, then match. It raises exactly when the grid has
      no candidate pair; otherwise it augments at most once per even cell and ends with no path from
      "s" to "t" in the residual graph from which the pairs are read. When the candidate pairs are
      bipartite, the residual graph stands for a matching of the candidate edges, the pairs are
      exactly its pairs (distinct, sharing no cell), and no matching of the candidate edges has more
      pairs. */
  method Run(g: Grid)
    returns (result: Result<seq<Pair>>, ghost start: Graph, ghost residual: Graph, ghost rounds: nat, ghost matching: set<Pair>)
    ensures Built(g.allPairs, start, EvenSide(g.allPairs), OddSide(g.allPairs))
    ensures result.Err? <==> g.allPairs == []
    ensures result.Ok? ==> !Reachable(residual, Source, Sink)
    ensures result.Ok? ==> ReadFrom(residual, EvenSide(g.allPairs), OddSide(g.allPairs), result.value)
    ensures result.Ok? ==> rounds + |Adj(residual, Source)| == |Adj(start, Source)|
    ensures result.Ok? ==> rounds <= |EvenSide(g.allPairs)|
    ensures result.Ok? && Bipartite(g.allPairs) ==>
      NoDup(result.value) && Disjoint(result.value) &&
      forall k :: 0 <= k < |result.value| ==> result.value[k] in Edges(g.allPairs)
    ensures result.Ok? && Bipartite(g.allPairs) ==>
      MatchingOf(Edges(g.allPairs), matching, EvenSide(g.allPairs), OddSide(g.allPairs)) &&
      Represents(residual, Edges(g.allPairs), matching, EvenSide(g.allPairs), OddSide(g.allPairs)) &&
      forall p :: p in result.value <==> p in matching
    ensures result.Ok? && Bipartite(g.allPairs) ==>
      forall M' :: MatchingOf(Edges(g.allPairs), M', EvenSide(g.allPairs), OddSide(g.allPairs)) ==>
        |M'| <= |result.value|
    ensures result.Ok? && Bipartite(g.allPairs) ==> |result.value| >= 1
  {
    var adj, evens, odds := BuildNetwork(g.allPairs);
    start := adj;
    assert g.allPairs != [] ==> evens != {} && odds != {} && Source in adj;
    var graph := new FlowGraph(adj);
    result, residual, rounds, matching := EdmondsKarp(graph, evens, odds, Edges(g.allPairs));
    if result.Ok? {
      SourceEdgesCount(Adj(adj, Source), evens);
      if Bipartite(g.allPairs) {
        Solved(g.allPairs, adj, residual, matching, result.value);
      }
    }
  }
}
