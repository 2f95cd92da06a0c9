/** `SolverGeneral` of the course version, a weighted bipartite matcher written by hand in the style
    of the Hungarian algorithm: the bipartite graph built from the candidate pairs and the cost
    matrix handed to the search. */
module HungarianGraph {
  import opened Lists
  import opened GridModel
  import opened Scoring
  import opened FlowNetwork

  /** `graph` of `_build_bipartite_graph`: the keys of `graph['even']` in insertion order with their
      lists of odd partners, the keys of `graph['odd']` in insertion order (their lists stay empty),
      and `graph['weights']`. */
  datatype Bipartite = Bipartite(
    evenNodes: seq<Cell>,
    adj: map<Cell, seq<Cell>>,
    oddNodes: seq<Cell>,
    weights: map<Pair, int>)

  /** The odd ends of the candidate pairs whose even end is e, in candidate order. */
  function Partners(pairs: seq<Pair>, e: Cell): seq<Cell> {
    if pairs == [] then []
    else
      var p := pairs[|pairs| - 1];
      Partners(pairs[..|pairs| - 1], e) + (if EvenEnd(p) == e then [OddEnd(p)] else [])
  }

  /** Some candidate pair has even end e and odd end o. */
  ghost predicate HasEdge(pairs: seq<Pair>, e: Cell, o: Cell) {
    exists k :: 0 <= k < |pairs| && EvenEnd(pairs[k]) == e && OddEnd(pairs[k]) == o
  }

  /** The dictionaries after the loop of `_build_bipartite_graph` has seen the given pairs. */
  function BipartiteOf(g: Grid, pairs: seq<Pair>): Bipartite
    requires Shaped(g) && AllInBounds(g, pairs)
  {
    if pairs == [] then Bipartite([], map[], [], map[])
    else AddPair(g, BipartiteOf(g, pairs[..|pairs| - 1]), pairs[|pairs| - 1])
  }

  /** One turn of that loop: the even cell becomes a key (with an empty list) if it is new, the odd
      cell too, the odd cell is appended to the even cell's list and the weight is recorded. */
  function AddPair(g: Grid, b: Bipartite, p: Pair): Bipartite
    requires Shaped(g) && PairInBounds(g, p)
  {
    var e, o := EvenEnd(p), OddEnd(p);
    Bipartite(
      if e in b.adj then b.evenNodes else b.evenNodes + [e],
      b.adj[e := (if e in b.adj then b.adj[e] else []) + [o]],
      if o in b.oddNodes then b.oddNodes else b.oddNodes + [o],
      b.weights[(e, o) := Weight(g, p)])
  }

  /** `_build_bipartite_graph`: one pass over the candidate pairs, each split into its even and odd
      cell by the parity of row + col. */
  method BuildBipartite(g: Grid) returns (b: Bipartite)
    requires Shaped(g) && AllInBounds(g, g.allPairs)
    ensures b == BipartiteOf(g, g.allPairs)
  {
    var pairs := g.allPairs;
    b := Bipartite([], map[], [], map[]);
    var k := 0;
    while k < |pairs|
      invariant k <= |pairs|
      invariant b == BipartiteOf(g, pairs[..k])
    {
      b := AddPairStep(g, b, pairs[k]);
      PrefixStep(pairs, k);
      PrefixInBounds(g, pairs[..k + 1]);
      k := k + 1;
    }
    assert pairs[..k] == pairs;
  }

  /** The body of that loop for one candidate pair. */
  method AddPairStep(g: Grid, b0: Bipartite, p: Pair) returns (b: Bipartite)
    requires Shaped(g) && PairInBounds(g, p)
    ensures b == AddPair(g, b0, p)
  {
    var u, v := p.0, p.1;
    var even, odd := u, v;
    if (u.row + u.col) % 2 != 0 {
      even, odd := v, u;
    }
    var weight := -(Cost(g, p) - ValueAt(g, u) - ValueAt(g, v));
    var evenNodes, adj, oddNodes := b0.evenNodes, b0.adj, b0.oddNodes;
    if even !in adj {
      evenNodes := evenNodes + [even];
      adj := adj[even := []];
    }
    if odd !in oddNodes {
      oddNodes := oddNodes + [odd];
    }
    adj := adj[even := adj[even] + [odd]];
    b := Bipartite(evenNodes, adj, oddNodes, b0.weights[(even, odd) := weight]);
  }

  /** Partners lists exactly the odd ends paired with e. */
  lemma {:induction false} PartnersMembers(pairs: seq<Pair>, e: Cell, o: Cell)
    ensures o in Partners(pairs, e) <==> HasEdge(pairs, e, o)
  {
    if pairs != [] {
      var pre := pairs[..|pairs| - 1];
      PartnersMembers(pre, e, o);
      if HasEdge(pre, e, o) {
        var k :| 0 <= k < |pre| && EvenEnd(pre[k]) == e && OddEnd(pre[k]) == o;
        assert pairs[k] == pre[k];
      }
      if HasEdge(pairs, e, o) {
        var k :| 0 <= k < |pairs| && EvenEnd(pairs[k]) == e && OddEnd(pairs[k]) == o;
        if k < |pre| {
          assert pre[k] == pairs[k];
        }
      }
    }
  }

  /** Both node lists are without repeats and hold exactly the even and the odd ends of the candidate
      pairs; `graph['even']` has exactly the even nodes as keys, each with its partners in order. */
  lemma {:induction false} BipartiteNodes(g: Grid, pairs: seq<Pair>)
    requires Shaped(g) && AllInBounds(g, pairs)
    ensures var b := BipartiteOf(g, pairs);
      NoDup(b.evenNodes) && NoDup(b.oddNodes) &&
      (forall e :: e in b.adj <==> e in b.evenNodes) &&
      (forall e :: e in b.evenNodes <==> e in EvenSide(pairs)) &&
      (forall o :: o in b.oddNodes <==> o in OddSide(pairs))
  {
    if pairs != [] {
      var pre := pairs[..|pairs| - 1];
      var p := pairs[|pairs| - 1];
      PrefixInBounds(g, pairs);
      BipartiteNodes(g, pre);
      var b0 := BipartiteOf(g, pre);
      if EvenEnd(p) !in b0.adj {
        NoDupAppend(b0.evenNodes, [EvenEnd(p)]);
      }
      if OddEnd(p) !in b0.oddNodes {
        NoDupAppend(b0.oddNodes, [OddEnd(p)]);
      }
    }
  }

  /** Each even node's list holds its partners in candidate order; a cell that is no key has none. */
  lemma {:induction false} BipartiteLists(g: Grid, pairs: seq<Pair>)
    requires Shaped(g) && AllInBounds(g, pairs)
    ensures var b := BipartiteOf(g, pairs);
      forall e :: Partners(pairs, e) == if e in b.adj then b.adj[e] else []
  {
    if pairs != [] {
      PrefixInBounds(g, pairs);
      BipartiteLists(g, pairs[..|pairs| - 1]);
    }
  }

  lemma PrefixInBounds(g: Grid, pairs: seq<Pair>)
    requires AllInBounds(g, pairs) && pairs != []
    ensures AllInBounds(g, pairs[..|pairs| - 1]) && PairInBounds(g, pairs[|pairs| - 1])
  {
    var pre := pairs[..|pairs| - 1];
    forall k | 0 <= k < |pre| ensures PairInBounds(g, pre[k]) {
      assert pre[k] == pairs[k];
    }
  }

  /** `graph['weights']` has a key (e, o) exactly for the listed partners, and its weight is twice the
      smaller of the two values, whichever candidate pair wrote it last. */
  lemma {:induction false} BipartiteWeights(g: Grid, pairs: seq<Pair>)
    requires Shaped(g) && AllInBounds(g, pairs)
    ensures var b := BipartiteOf(g, pairs);
      forall e, o :: (e, o) in b.weights <==> o in Partners(pairs, e)
    ensures var b := BipartiteOf(g, pairs);
      forall e, o :: (e, o) in b.weights ==>
        InBounds(g, e) && InBounds(g, o) && b.weights[(e, o)] == 2 * Min(ValueAt(g, e), ValueAt(g, o))
  {
    if pairs != [] {
      var pre := pairs[..|pairs| - 1];
      var p := pairs[|pairs| - 1];
      PrefixInBounds(g, pairs);
      BipartiteWeights(g, pre);
      assert PairInBounds(g, p);
      assert Min(ValueAt(g, p.0), ValueAt(g, p.1)) == Min(ValueAt(g, EvenEnd(p)), ValueAt(g, OddEnd(p)));
    }
  }

  /** A cost that may be the `-float('inf')` of a missing edge. */
  datatype ExtInt = NegInf | Fin(value: int)

  /** The lists of `graph['even']` only hold odd nodes with a weight. */
  ghost predicate Consistent(b: Bipartite) {
    (forall e :: e in b.evenNodes ==> e in b.adj) &&
    forall e, o :: e in b.adj && o in b.adj[e] ==> (e, o) in b.weights
  }

  /** The cost matrix of `_hungarian_algorithm`: n rows for the even nodes, m columns for the odd
      nodes, `-inf` everywhere, then the weight of each listed edge. */
  method CostMatrix(b: Bipartite) returns (cost: array2<ExtInt>)
    requires Consistent(b)
    ensures fresh(cost)
    ensures cost.Length0 == |b.evenNodes| && cost.Length1 == |b.oddNodes|
    ensures forall i, j :: 0 <= i < cost.Length0 && 0 <= j < cost.Length1 ==>
      cost[i, j] == (var e, o := b.evenNodes[i], b.oddNodes[j];
                     if o in b.adj[e] then Fin(b.weights[(e, o)]) else NegInf)
  {
    var n, m := |b.evenNodes|, |b.oddNodes|;
    cost := new ExtInt[n, m]((i, j) => NegInf);
    for i := 0 to n
      invariant forall i', j :: 0 <= i' < n && 0 <= j < m ==>
        cost[i', j] == (var e, o := b.evenNodes[i'], b.oddNodes[j];
                        if i' < i && o in b.adj[e] then Fin(b.weights[(e, o)]) else NegInf)
    {
      var u := b.evenNodes[i];
      for j := 0 to m
        invariant forall i', j' :: 0 <= i' < n && 0 <= j' < m ==>
          cost[i', j'] == (var e, o := b.evenNodes[i'], b.oddNodes[j'];
                           if (i' < i || (i' == i && j' < j)) && o in b.adj[e] then Fin(b.weights[(e, o)]) else NegInf)
      {
        var v := b.oddNodes[j];
        if v in b.adj[u] {
          cost[i, j] := Fin(b.weights[(u, v)]);
        }
      }
    }
  }

  /** The setup of `SolverGeneral.run` up to the search: the graph and its cost matrix. Entry (i, j)
      is finite exactly when the i-th even node and the j-th odd node form a candidate pair, and it is
      then twice the smaller of their values. */
  method Setup(g: Grid) returns (b: Bipartite, cost: array2<ExtInt>)
    requires Shaped(g) && AllInBounds(g, g.allPairs)
    ensures fresh(cost)
    ensures NoDup(b.evenNodes) && NoDup(b.oddNodes)
    ensures forall e :: e in b.evenNodes <==> e in EvenSide(g.allPairs)
    ensures forall o :: o in b.oddNodes <==> o in OddSide(g.allPairs)
    ensures cost.Length0 == |b.evenNodes| && cost.Length1 == |b.oddNodes|
    ensures forall i, j :: 0 <= i < cost.Length0 && 0 <= j < cost.Length1 ==>
      (cost[i, j].Fin? <==> HasEdge(g.allPairs, b.evenNodes[i], b.oddNodes[j]))
    ensures forall i, j :: 0 <= i < cost.Length0 && 0 <= j < cost.Length1 && cost[i, j].Fin? ==>
      InBounds(g, b.evenNodes[i]) && InBounds(g, b.oddNodes[j]) &&
      cost[i, j].value == 2 * Min(ValueAt(g, b.evenNodes[i]), ValueAt(g, b.oddNodes[j]))
  {
    b := BuildBipartite(g);
    BipartiteNodes(g, g.allPairs);
    BipartiteConsistent(g, g.allPairs);
    cost := CostMatrix(b);
    forall i, j | 0 <= i < cost.Length0 && 0 <= j < cost.Length1
      ensures cost[i, j].Fin? <==> HasEdge(g.allPairs, b.evenNodes[i], b.oddNodes[j])
      ensures cost[i, j].Fin? ==>
        InBounds(g, b.evenNodes[i]) && InBounds(g, b.oddNodes[j]) &&
        cost[i, j].value == 2 * Min(ValueAt(g, b.evenNodes[i]), ValueAt(g, b.oddNodes[j]))
    {
      EdgeEntry(g, g.allPairs, b.evenNodes[i], b.oddNodes[j]);
    }
  }

  /** The built graph lists only weighted edges, under keys it has. */
  lemma BipartiteConsistent(g: Grid, pairs: seq<Pair>)
    requires Shaped(g) && AllInBounds(g, pairs)
    ensures Consistent(BipartiteOf(g, pairs))
  {
    BipartiteNodes(g, pairs);
    BipartiteLists(g, pairs);
    BipartiteWeights(g, pairs);
  }

  /** One entry of the built graph: o is listed under e exactly when a candidate pair joins them, and
      its weight is then twice the smaller of their values. */
  lemma EdgeEntry(g: Grid, pairs: seq<Pair>, e: Cell, o: Cell)
    requires Shaped(g) && AllInBounds(g, pairs)
    ensures var b := BipartiteOf(g, pairs);
      (e in b.adj && o in b.adj[e]) <==> HasEdge(pairs, e, o)
    ensures var b := BipartiteOf(g, pairs);
      e in b.adj && o in b.adj[e] ==>
        (e, o) in b.weights && InBounds(g, e) && InBounds(g, o) &&
        b.weights[(e, o)] == 2 * Min(ValueAt(g, e), ValueAt(g, o))
  {
    BipartiteLists(g, pairs);
    BipartiteWeights(g, pairs);
    PartnersMembers(pairs, e, o);
  }
}
