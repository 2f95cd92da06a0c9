/** The unit-capacity flow network shared by the two Ford-Fulkerson matchers: its nodes and
    adjacency dictionaries, the construction from the candidate pairs, the breadth-first search with
    its parent map, the path read back from that map, and the reading of the matching from the
    residual graph. */
module FlowNetwork {
  import opened Lists
  import opened Options
  import opened GridModel

  /** A node of the network: the source "s", the sink "t", or a cell. */
  datatype Node = Source | Sink | At(cell: Cell)

  /** An adjacency dictionary from a node to the list of its successors. */
  type Graph = map<Node, seq<Node>>

  /** `graph.get(u, [])`, and also what a defaultdict of lists yields for a missing key. */
  function Adj(g: Graph, u: Node): seq<Node> {
    if u in g then g[u] else []
  }

  /** Every successor of every node lies in the set. */
  ghost predicate Covers(g: Graph, nodes: set<Node>) {
    forall u, v :: v in Adj(g, u) ==> v in nodes
  }

  /** A finite set of nodes holding s and every successor: all the nodes a search can meet. */
  lemma AllNodes(g: Graph, s: Node) returns (nodes: set<Node>)
    ensures s in nodes && Covers(g, nodes)
  {
    nodes := {s} + g.Keys + (set u, v | u in g && v in g[u] :: v);
  }

  /** Consecutive nodes are joined by an edge. */
  predicate IsPath(g: Graph, path: seq<Node>) {
    |path| > 0 && forall k :: 0 <= k < |path| - 1 ==> path[k + 1] in Adj(g, path[k])
  }

  ghost predicate Reachable(g: Graph, s: Node, t: Node) {
    exists path :: IsPath(g, path) && path[0] == s && path[|path| - 1] == t
  }

  /** No edge leaves the set. */
  ghost predicate Closed(g: Graph, S: set<Node>) {
    forall x, w :: x in S && w in Adj(g, x) ==> w in S
  }

  /** A path that starts in a closed set never leaves it. */
  lemma {:induction false} ClosedKeepsPath(g: Graph, S: set<Node>, path: seq<Node>)
    requires Closed(g, S) && IsPath(g, path) && path[0] in S
    ensures path[|path| - 1] in S
  {
    if |path| > 1 {
      var pre := path[..|path| - 1];
      assert IsPath(g, pre);
      ClosedKeepsPath(g, S, pre);
      assert path[|path| - 1] in Adj(g, path[|path| - 2]);
    }
  }

  /** The shape of a parent map: the start node has parent None, every other node has a recorded
      parent one level closer to the start. The depths are proof bookkeeping only. */
  ghost predicate ChainShape(s: Node, parents: map<Node, Option<Node>>, depth: map<Node, nat>) {
    s in parents && parents[s] == None && depth.Keys == parents.Keys && depth[s] == 0 &&
    forall v :: v in parents && v != s ==>
      parents[v].Some? && parents[v].value in parents && depth[v] == depth[parents[v].value] + 1
  }

  /** A parent map of a search over g: every recorded parent has an edge to its child. */
  ghost predicate ParentTree(g: Graph, s: Node, parents: map<Node, Option<Node>>, depth: map<Node, nat>) {
    ChainShape(s, parents, depth) &&
    forall v :: v in parents && v != s ==> v in Adj(g, parents[v].value)
  }

  /** The chain of parents from v back to the start node: v, parent of v, ..., s. */
  ghost function ParentChain(s: Node, parents: map<Node, Option<Node>>, depth: map<Node, nat>, v: Node): seq<Node>
    requires ChainShape(s, parents, depth) && v in parents
    decreases depth[v]
  {
    if v == s then [s] else [v] + ParentChain(s, parents, depth, parents[v].value)
  }

  /** The parent chain runs from v to s through depth[v] + 1 distinct recorded nodes, each the child
      of the next. */
  lemma {:induction false} ChainFacts(s: Node, parents: map<Node, Option<Node>>, depth: map<Node, nat>, v: Node)
    requires ChainShape(s, parents, depth) && v in parents
    ensures var chain := ParentChain(s, parents, depth, v);
      |chain| == depth[v] + 1 && chain[0] == v && chain[|chain| - 1] == s &&
      (forall k :: 0 <= k < |chain| ==> chain[k] in parents && depth[chain[k]] == depth[v] - k) &&
      (forall k :: 0 <= k < |chain| - 1 ==> chain[k] != s && parents[chain[k]] == Some(chain[k + 1]))
    decreases depth[v]
  {
    if v != s {
      var u := parents[v].value;
      ChainFacts(s, parents, depth, u);
      var chain := ParentChain(s, parents, depth, v);
      assert chain == [v] + ParentChain(s, parents, depth, u);
      forall k | 1 <= k < |chain| ensures chain[k] == ParentChain(s, parents, depth, u)[k - 1] { }
    }
  }

  /** Distinct depths: the chain visits no node twice. */
  lemma ChainNoDup(s: Node, parents: map<Node, Option<Node>>, depth: map<Node, nat>, v: Node)
    requires ChainShape(s, parents, depth) && v in parents
    ensures NoDup(ParentChain(s, parents, depth, v))
  {
    ChainFacts(s, parents, depth, v);
    var chain := ParentChain(s, parents, depth, v);
    forall a, b | 0 <= a < b < |chain| ensures chain[a] != chain[b] {
      assert depth[chain[a]] != depth[chain[b]];
    }
  }

  /** Read forwards, the parent chain of t is a path of distinct nodes from s to t. */
  lemma ReversedChainIsPath(g: Graph, s: Node, parents: map<Node, Option<Node>>, depth: map<Node, nat>, t: Node)
    requires ParentTree(g, s, parents, depth) && t in parents
    ensures var path := Reverse(ParentChain(s, parents, depth, t));
      IsPath(g, path) && path[0] == s && path[|path| - 1] == t && NoDup(path)
  {
    var chain := ParentChain(s, parents, depth, t);
    ChainFacts(s, parents, depth, t);
    ChainNoDup(s, parents, depth, t);
    forall k | 0 <= k < |chain| - 1 ensures LinkedBack(g, chain, k) {
      assert chain[k] != s && parents[chain[k]] == Some(chain[k + 1]);
    }
    ReverseLinks(g, chain);
    ReverseNoDup(chain);
  }

  /** Node k of the chain is a successor of node k + 1. */
  predicate LinkedBack(g: Graph, chain: seq<Node>, k: nat)
    requires k < |chain| - 1
  {
    chain[k] in Adj(g, chain[k + 1])
  }

  /** A chain in which each node is a successor of the next one, read backwards, is a path. */
  lemma ReverseLinks(g: Graph, chain: seq<Node>)
    requires |chain| > 0 && forall k: nat :: k < |chain| - 1 ==> LinkedBack(g, chain, k)
    ensures IsPath(g, Reverse(chain))
  {
    forall k | 0 <= k < |chain| - 1 ensures Reverse(chain)[k + 1] in Adj(g, Reverse(chain)[k]) {
      ReverseLink(g, chain, k);
    }
  }

  /** Link k of the reversed chain is link |chain| - 2 - k of the chain, read the other way. */
  lemma ReverseLink(g: Graph, chain: seq<Node>, k: nat)
    requires k < |chain| - 1 && LinkedBack(g, chain, |chain| - 2 - k)
    ensures Reverse(chain)[k + 1] in Adj(g, Reverse(chain)[k])
  {
    ReverseAt(chain, k);
    ReverseAt(chain, k + 1);
  }

  /** Recording v as a child of u keeps the parent map a search tree. */
  lemma AddChild(g: Graph, s: Node, parents: map<Node, Option<Node>>, depth: map<Node, nat>, u: Node, v: Node)
    requires ParentTree(g, s, parents, depth) && u in parents && v !in parents && v in Adj(g, u)
    ensures ParentTree(g, s, parents[v := Some(u)], depth[v := depth[u] + 1])
  {
  }

  /** The breadth-first search shared by both matchers: nodes are taken from the front of the queue,
      and each successor not yet seen is recorded with its parent and queued; the search stops as soon
      as t is recorded. It finds t exactly when t is reachable from a different node s, and the parent
      map it returns is a search tree of g. */
  method Explore(g: Graph, s: Node, t: Node)
    returns (parents: map<Node, Option<Node>>, found: bool, ghost depth: map<Node, nat>)
    ensures ParentTree(g, s, parents, depth)
    ensures found ==> s != t && t in parents
    ensures s != t ==> (found <==> Reachable(g, s, t))
  {
    parents := map[s := None];
    depth := map[s := 0];
    found := false;
    var queue := [s];
    ghost var nodes := AllNodes(g, s);
    ghost var done: set<Node> := {};
    while queue != []
      invariant SearchState(g, s, t, nodes, parents, depth, queue, done, {})
      decreases |nodes - done|
    {
      var u := queue[0];
      PopKeepsState(g, s, t, nodes, parents, depth, queue, done);
      parents, queue, found, depth := VisitSuccessors(g, s, t, u, parents, queue[1..], depth, nodes, done);
      if found {
        FoundIsReachable(g, s, parents, depth, t);
        return;
      }
      assert nodes - (done + {u}) < nodes - done by {
        assert u in nodes - done;
      }
      done := done + {u};
    }
    if s != t {
      ExhaustedIsUnreachable(g, s, t, nodes, parents, depth, done);
    }
  }

  /** What the search keeps between steps: a search tree inside the known nodes; a queue of distinct
      recorded nodes; the finished nodes, recorded, none queued, with all their successors recorded;
      every recorded node finished, queued or open; and t not recorded yet. */
  ghost predicate SearchState(g: Graph, s: Node, t: Node, nodes: set<Node>, parents: map<Node, Option<Node>>,
                              depth: map<Node, nat>, queue: seq<Node>, done: set<Node>, open: set<Node>) {
    ParentTree(g, s, parents, depth) && parents.Keys <= nodes &&
    (forall x :: x in queue ==> x in parents && x !in done) && NoDup(queue) &&
    done <= parents.Keys &&
    (forall x :: x in parents ==> x in done || x in queue || x in open) &&
    (forall x, w :: x in done && w in Adj(g, x) ==> w in parents) &&
    (s != t ==> t !in parents)
  }

  lemma FoundIsReachable(g: Graph, s: Node, parents: map<Node, Option<Node>>, depth: map<Node, nat>, t: Node)
    requires ParentTree(g, s, parents, depth) && t in parents
    ensures Reachable(g, s, t)
  {
    ReversedChainIsPath(g, s, parents, depth, t);
  }

  /** When the queue runs out without t, the recorded nodes are closed under the edges, so t, which is
      not among them, cannot be reached. */
  lemma ExhaustedIsUnreachable(g: Graph, s: Node, t: Node, nodes: set<Node>, parents: map<Node, Option<Node>>,
                               depth: map<Node, nat>, done: set<Node>)
    requires SearchState(g, s, t, nodes, parents, depth, [], done, {}) && s != t
    ensures !Reachable(g, s, t)
  {
    if Reachable(g, s, t) {
      var path :| IsPath(g, path) && path[0] == s && path[|path| - 1] == t;
      ClosedKeepsPath(g, parents.Keys, path);
    }
  }

  lemma PopKeepsState(g: Graph, s: Node, t: Node, nodes: set<Node>, parents: map<Node, Option<Node>>,
                      depth: map<Node, nat>, queue: seq<Node>, done: set<Node>)
    requires SearchState(g, s, t, nodes, parents, depth, queue, done, {}) && queue != []
    ensures queue[0] in parents && queue[0] !in queue[1..] && queue[0] !in done
    ensures SearchState(g, s, t, nodes, parents, depth, queue[1..], done, {queue[0]})
  {
    var rest := queue[1..];
    forall k | 0 <= k < |rest| ensures rest[k] != queue[0] {
      assert rest[k] == queue[k + 1];
    }
  }

  /** The inner loop of the search for the node u just taken from the queue: u's successors not yet
      recorded are recorded with parent u and queued, and u is then finished. */
  method VisitSuccessors(g: Graph, s: Node, t: Node, u: Node, parents0: map<Node, Option<Node>>, queue0: seq<Node>,
                         ghost depth0: map<Node, nat>, ghost nodes: set<Node>, ghost done: set<Node>)
    returns (parents: map<Node, Option<Node>>, queue: seq<Node>, found: bool, ghost depth: map<Node, nat>)
    requires Covers(g, nodes)
    requires SearchState(g, s, t, nodes, parents0, depth0, queue0, done, {u})
    requires u in parents0 && u !in queue0 && u !in done
    ensures ParentTree(g, s, parents, depth)
    ensures found ==> s != t && t in parents
    ensures !found ==> SearchState(g, s, t, nodes, parents, depth, queue, done + {u}, {})
  {
    parents, queue, found, depth := parents0, queue0, false, depth0;
    var adj := Adj(g, u);
    var i := 0;
    while i < |adj|
      invariant i <= |adj| && u in parents && u !in queue
      invariant SearchState(g, s, t, nodes, parents, depth, queue, done, {u})
      invariant forall k :: 0 <= k < i ==> adj[k] in parents
    {
      ghost var before := parents;
      parents, queue, found, depth := Visit(g, s, t, u, adj[i], parents, queue, depth, nodes, done);
      if found {
        return;
      }
      SeenKept(adj, i, before, parents);
      i := i + 1;
    }
    FinishKeepsState(g, s, t, nodes, parents, depth, queue, done, u);
  }

  /** One successor v of u: `if v not in parents`, record u as its parent, then stop if it is t and
      queue it otherwise. */
  method Visit(g: Graph, s: Node, t: Node, u: Node, v: Node, parents0: map<Node, Option<Node>>, queue0: seq<Node>,
               ghost depth0: map<Node, nat>, ghost nodes: set<Node>, ghost done: set<Node>)
    returns (parents: map<Node, Option<Node>>, queue: seq<Node>, found: bool, ghost depth: map<Node, nat>)
    requires Covers(g, nodes) && v in Adj(g, u)
    requires SearchState(g, s, t, nodes, parents0, depth0, queue0, done, {u})
    requires u in parents0 && u !in queue0
    ensures ParentTree(g, s, parents, depth) && v in parents
    ensures found <==> v !in parents0 && v == t
    ensures found ==> s != t && t in parents
    ensures !found ==> SearchState(g, s, t, nodes, parents, depth, queue, done, {u})
    ensures !found ==> u in parents && u !in queue && parents0.Keys <= parents.Keys
  {
    parents, queue, found, depth := parents0, queue0, false, depth0;
    if v !in parents {
      if v == t {
        AddChild(g, s, parents, depth, u, v);
        parents := parents[v := Some(u)];
        depth := depth[v := depth[u] + 1];
        found := true;
        return;
      }
      RecordKeepsState(g, s, t, nodes, parents, depth, queue, done, u, v);
      parents := parents[v := Some(u)];
      depth := depth[v := depth[u] + 1];
      queue := queue + [v];
    }
  }

  /** A visit keeps every earlier successor recorded and records adj[i]. */
  lemma SeenKept(adj: seq<Node>, i: nat, before: map<Node, Option<Node>>, after: map<Node, Option<Node>>)
    requires i < |adj| && adj[i] in after && before.Keys <= after.Keys
    requires forall k :: 0 <= k < i ==> adj[k] in before
    ensures forall k :: 0 <= k < i + 1 ==> adj[k] in after
  {
  }

  /** Once every successor of u is recorded, u can join the finished nodes. */
  lemma FinishKeepsState(g: Graph, s: Node, t: Node, nodes: set<Node>, parents: map<Node, Option<Node>>,
                         depth: map<Node, nat>, queue: seq<Node>, done: set<Node>, u: Node)
    requires SearchState(g, s, t, nodes, parents, depth, queue, done, {u})
    requires u in parents && u !in queue && forall k :: 0 <= k < |Adj(g, u)| ==> Adj(g, u)[k] in parents
    ensures SearchState(g, s, t, nodes, parents, depth, queue, done + {u}, {})
  {
  }

  lemma RecordKeepsState(g: Graph, s: Node, t: Node, nodes: set<Node>, parents: map<Node, Option<Node>>,
                         depth: map<Node, nat>, queue: seq<Node>, done: set<Node>, u: Node, v: Node)
    requires Covers(g, nodes) && SearchState(g, s, t, nodes, parents, depth, queue, done, {u})
    requires u in parents && v in Adj(g, u) && v !in parents && v != t
    ensures SearchState(g, s, t, nodes, parents[v := Some(u)], depth[v := depth[u] + 1], queue + [v], done, {u})
  {
    AddChild(g, s, parents, depth, u, v);
    NoDupAppend(queue, [v]);
  }

  /** `reconstruct_path`: walk the parents from t until the start node's None, then reverse. */
  method ReconstructPath(parents: map<Node, Option<Node>>, s: Node, t: Node, ghost depth: map<Node, nat>)
    returns (path: seq<Node>)
    requires ChainShape(s, parents, depth) && t in parents
    ensures path == Reverse(ParentChain(s, parents, depth, t))
  {
    var rev := [];
    var current := Some(t);
    while current.Some?
      invariant current.Some? ==>
        current.value in parents &&
        rev + ParentChain(s, parents, depth, current.value) == ParentChain(s, parents, depth, t)
      invariant current.None? ==> rev == ParentChain(s, parents, depth, t)
      decreases if current.Some? then depth[current.value] + 1 else 0
    {
      var c := current.value;
      if c != s {
        assert ParentChain(s, parents, depth, c) == [c] + ParentChain(s, parents, depth, parents[c].value);
        assert rev + ParentChain(s, parents, depth, c) == (rev + [c]) + ParentChain(s, parents, depth, parents[c].value);
      }
      rev := rev + [c];
      current := parents[c];
    }
    path := Reverse(rev);
  }

  /** The even-parity cell of a candidate pair: the start of its edge. */
  function EvenEnd(p: Pair): Cell {
    if IsEven(p.0) then p.0 else p.1
  }

  /** The other cell of a candidate pair: the end of its edge. */
  function OddEnd(p: Pair): Cell {
    if IsEven(p.0) then p.1 else p.0
  }

  function EvenSide(pairs: seq<Pair>): set<Cell> {
    if pairs == [] then {} else EvenSide(pairs[..|pairs| - 1]) + {EvenEnd(pairs[|pairs| - 1])}
  }

  function OddSide(pairs: seq<Pair>): set<Cell> {
    if pairs == [] then {} else OddSide(pairs[..|pairs| - 1]) + {OddEnd(pairs[|pairs| - 1])}
  }

  /** The list `graph[c]` holds after the edge loop: the odd ends of the pairs whose even end is c, in
      candidate order. */
  function OddSuccessors(pairs: seq<Pair>, c: Cell): seq<Node> {
    if pairs == [] then []
    else
      var p := pairs[|pairs| - 1];
      OddSuccessors(pairs[..|pairs| - 1], c) + (if EvenEnd(p) == c then [At(OddEnd(p))] else [])
  }

  /** The sides hold exactly the even and odd ends of the candidate pairs. */
  lemma {:induction false} SideMembers(pairs: seq<Pair>)
    ensures forall c :: c in EvenSide(pairs) <==> exists k :: 0 <= k < |pairs| && EvenEnd(pairs[k]) == c
    ensures forall c :: c in OddSide(pairs) <==> exists k :: 0 <= k < |pairs| && OddEnd(pairs[k]) == c
  {
    if pairs != [] {
      var pre := pairs[..|pairs| - 1];
      SideMembers(pre);
      forall c | c in EvenSide(pairs) ensures exists k :: 0 <= k < |pairs| && EvenEnd(pairs[k]) == c {
        if c in EvenSide(pre) {
          var k :| 0 <= k < |pre| && EvenEnd(pre[k]) == c;
          assert pairs[k] == pre[k];
        }
      }
      forall c | c in OddSide(pairs) ensures exists k :: 0 <= k < |pairs| && OddEnd(pairs[k]) == c {
        if c in OddSide(pre) {
          var k :| 0 <= k < |pre| && OddEnd(pre[k]) == c;
          assert pairs[k] == pre[k];
        }
      }
      forall k | 0 <= k < |pairs| ensures EvenEnd(pairs[k]) in EvenSide(pairs) && OddEnd(pairs[k]) in OddSide(pairs) {
        if k < |pre| {
          assert pairs[k] == pre[k];
        }
      }
    }
  }

  lemma PrefixStep(pairs: seq<Pair>, k: nat)
    requires k < |pairs|
    ensures pairs[..k + 1][..k] == pairs[..k] && pairs[..k + 1][k] == pairs[k]
  {
  }

  /** The network `run` builds from the candidate pairs: an edge from the even end to the odd end of
      every pair, an edge from "s" to every even cell, in the arbitrary order a set is iterated, and an
      edge from every odd cell to "t". The sides are the sets of even and odd ends. */
  ghost predicate Built(pairs: seq<Pair>, graph: Graph, evens: set<Cell>, odds: set<Cell>) {
    evens == EvenSide(pairs) && odds == OddSide(pairs) &&
    (forall c :: Adj(graph, At(c)) == OddSuccessors(pairs, c) + (if c in odds then [Sink] else [])) &&
    (forall c :: At(c) in graph <==> c in evens || c in odds) &&
    NoDup(Adj(graph, Source)) &&
    (forall x :: x in Adj(graph, Source) <==> x.At? && x.cell in evens) &&
    (Source in graph <==> evens != {}) && Sink !in graph
  }

  /** The three edge loops of `run`. */
  method BuildNetwork(pairs: seq<Pair>) returns (graph: Graph, evens: set<Cell>, odds: set<Cell>)
    ensures Built(pairs, graph, evens, odds)
  {
    graph, evens, odds := AddPairEdges(pairs);
    graph := AddSourceEdges(graph, evens);
    graph := AddSinkEdges(graph, odds);
  }

  /** The loop over the candidate pairs: `graph[even].append(odd)`. */
  method AddPairEdges(pairs: seq<Pair>) returns (graph: Graph, evens: set<Cell>, odds: set<Cell>)
    ensures evens == EvenSide(pairs) && odds == OddSide(pairs)
    ensures forall c :: Adj(graph, At(c)) == OddSuccessors(pairs, c)
    ensures forall x :: x in graph <==> x.At? && x.cell in evens
  {
    graph, evens, odds := map[], {}, {};
    var k := 0;
    while k < |pairs|
      invariant k <= |pairs|
      invariant evens == EvenSide(pairs[..k]) && odds == OddSide(pairs[..k])
      invariant forall c :: Adj(graph, At(c)) == OddSuccessors(pairs[..k], c)
      invariant forall x :: x in graph <==> x.At? && x.cell in evens
    {
      PrefixStep(pairs, k);
      var p := pairs[k];
      var even, odd := if IsEven(p.0) then p.0 else p.1, if IsEven(p.0) then p.1 else p.0;
      evens := evens + {even};
      odds := odds + {odd};
      graph := graph[At(even) := Adj(graph, At(even)) + [At(odd)]];
      k := k + 1;
    }
    assert pairs[..k] == pairs;
  }

  /** `for even in even_cells: graph["s"].append(even)`, in some order of the set. */
  method AddSourceEdges(graph0: Graph, evens: set<Cell>) returns (graph: Graph)
    requires Source !in graph0
    ensures NoDup(Adj(graph, Source))
    ensures forall x :: x in Adj(graph, Source) <==> x.At? && x.cell in evens
    ensures graph == graph0[Source := Adj(graph, Source)] || (evens == {} && graph == graph0)
    ensures Source in graph <==> evens != {}
  {
    graph := graph0;
    var rest := evens;
    while rest != {}
      invariant rest <= evens
      invariant NoDup(Adj(graph, Source))
      invariant forall x :: x in Adj(graph, Source) <==> x.At? && x.cell in evens - rest
      invariant graph == graph0[Source := Adj(graph, Source)] || (rest == evens && graph == graph0)
      invariant Source in graph <==> rest != evens
    {
      var e :| e in rest;
      NoDupAppend(Adj(graph, Source), [At(e)]);
      graph := graph[Source := Adj(graph, Source) + [At(e)]];
      rest := rest - {e};
    }
  }

  /** `for odd in odd_cells: graph[odd].append("t")`, in some order of the set. */
  method AddSinkEdges(graph0: Graph, odds: set<Cell>) returns (graph: Graph)
    ensures forall c :: Adj(graph, At(c)) == Adj(graph0, At(c)) + (if c in odds then [Sink] else [])
    ensures forall c :: At(c) in graph <==> At(c) in graph0 || c in odds
    ensures Adj(graph, Source) == Adj(graph0, Source) && (Source in graph <==> Source in graph0)
    ensures Sink in graph <==> Sink in graph0
  {
    graph := graph0;
    var rest := odds;
    while rest != {}
      invariant rest <= odds
      invariant forall c :: Adj(graph, At(c)) == Adj(graph0, At(c)) + (if c in odds - rest then [Sink] else [])
      invariant forall c :: At(c) in graph <==> At(c) in graph0 || c in odds - rest
      invariant Adj(graph, Source) == Adj(graph0, Source) && (Source in graph <==> Source in graph0)
      invariant Sink in graph <==> Sink in graph0
    {
      var o :| o in rest;
      graph := graph[At(o) := Adj(graph, At(o)) + [Sink]];
      rest := rest - {o};
    }
  }

  /** The pairs `[(u, odd) for odd in odd_cells for u in graph[odd] if u in even_cells]` can hold:
      exactly the (even, odd) pairs of cells of the two sides such that the odd cell has an edge back
      to the even one. */
  predicate ReadFrom(graph: Graph, evens: set<Cell>, odds: set<Cell>, pairs: seq<Pair>) {
    (forall k :: 0 <= k < |pairs| ==>
      pairs[k].0 in evens && pairs[k].1 in odds && At(pairs[k].0) in Adj(graph, At(pairs[k].1))) &&
    forall e, o :: e in evens && o in odds && At(e) in Adj(graph, At(o)) ==> (e, o) in pairs
  }

  /** Every adjacency list is free of repeats. */
  predicate AllNoDup(r: Graph) {
    forall u :: u in r ==> NoDup(r[u])
  }

  /** The pairs one odd cell o contributes: its successors that are even cells, in list order. */
  function ReadOdd(evens: set<Cell>, succ: seq<Node>, o: Cell): seq<Pair> {
    if succ == [] then []
    else
      var u := succ[|succ| - 1];
      ReadOdd(evens, succ[..|succ| - 1], o) + (if u.At? && u.cell in evens then [(u.cell, o)] else [])
  }

  /** The comprehension with the odd cells taken in the given order. */
  function ReadAll(graph: Graph, evens: set<Cell>, order: seq<Cell>): seq<Pair> {
    if order == [] then []
    else
      var o := order[|order| - 1];
      ReadAll(graph, evens, order[..|order| - 1]) + ReadOdd(evens, Adj(graph, At(o)), o)
  }

  /** The pairs of one odd cell are its even successors, each paired with it. */
  lemma {:induction false} ReadOddMembers(evens: set<Cell>, succ: seq<Node>, o: Cell, p: Pair)
    ensures p in ReadOdd(evens, succ, o) <==> p.1 == o && p.0 in evens && At(p.0) in succ
    decreases |succ|
  {
    if succ != [] {
      var pre, u := succ[..|succ| - 1], succ[|succ| - 1];
      ReadOddMembers(evens, pre, o, p);
      assert succ == pre + [u];
    }
  }

  /** A list without repeats gives pairs without repeats. */
  lemma {:induction false} ReadOddNoDup(evens: set<Cell>, succ: seq<Node>, o: Cell)
    requires NoDup(succ)
    ensures NoDup(ReadOdd(evens, succ, o))
    decreases |succ|
  {
    if succ != [] {
      var pre, u := succ[..|succ| - 1], succ[|succ| - 1];
      ReadOddNoDup(evens, pre, o);
      if u.At? && u.cell in evens {
        ReadOddMembers(evens, pre, o, (u.cell, o));
        assert u !in pre;
        NoDupAppend(ReadOdd(evens, pre, o), [(u.cell, o)]);
      }
    }
  }

  /** The comprehension holds exactly the (even, odd) pairs of an odd cell of the order with an edge
      back to the even cell. */
  lemma {:induction false} ReadAllMembers(graph: Graph, evens: set<Cell>, order: seq<Cell>, p: Pair)
    ensures p in ReadAll(graph, evens, order) <==>
      p.1 in order && p.0 in evens && At(p.0) in Adj(graph, At(p.1))
    decreases |order|
  {
    if order != [] {
      var pre, o := order[..|order| - 1], order[|order| - 1];
      ReadAllMembers(graph, evens, pre, p);
      ReadOddMembers(evens, Adj(graph, At(o)), o, p);
      assert order == pre + [o];
    }
  }

  /** Distinct odd cells whose lists have no repeats give pairs without repeats. */
  lemma {:induction false} ReadAllNoDup(graph: Graph, evens: set<Cell>, order: seq<Cell>)
    requires NoDup(order) && forall o :: o in order ==> NoDup(Adj(graph, At(o)))
    ensures NoDup(ReadAll(graph, evens, order))
    decreases |order|
  {
    if order != [] {
      var pre, o := order[..|order| - 1], order[|order| - 1];
      assert order == pre + [o];
      ReadAllNoDup(graph, evens, pre);
      ReadOddNoDup(evens, Adj(graph, At(o)), o);
      forall p | p in ReadAll(graph, evens, pre) ensures p !in ReadOdd(evens, Adj(graph, At(o)), o) {
        ReadAllMembers(graph, evens, pre, p);
        ReadOddMembers(evens, Adj(graph, At(o)), o, p);
      }
      NoDupAppend(ReadAll(graph, evens, pre), ReadOdd(evens, Adj(graph, At(o)), o));
    }
  }

  /** The inner part of the comprehension for one odd cell: its successors, in list order, that are
      even cells. */
  method ReadOddCell(evens: set<Cell>, succ: seq<Node>, o: Cell) returns (mine: seq<Pair>)
    ensures mine == ReadOdd(evens, succ, o)
  {
    mine := [];
    var j := 0;
    while j < |succ|
      invariant j <= |succ| && mine == ReadOdd(evens, succ[..j], o)
    {
      var u := succ[j];
      TakeOneMore(succ, j);
      assert succ[..j + 1][..j] == succ[..j];
      if u.At? && u.cell in evens {
        mine := mine + [(u.cell, o)];
      }
      j := j + 1;
    }
    assert succ[..j] == succ;
  }

  /** Reading the matching off the graph: for each odd cell, in set order, every successor that is an
      even cell gives a pair (even, odd), in list order. The result is the comprehension over some
      order of the odd cells, holds exactly the (even, odd) edges back, and has no repeated pair when
      the odd cells' lists have no repeated node. */
  method ReadPairs(graph: Graph, evens: set<Cell>, odds: set<Cell>) returns (pairs: seq<Pair>)
    ensures exists order: seq<Cell> ::
      NoDup(order) && (forall o :: o in order <==> o in odds) && pairs == ReadAll(graph, evens, order)
    ensures ReadFrom(graph, evens, odds, pairs)
    ensures (forall o :: o in odds ==> NoDup(Adj(graph, At(o)))) ==> NoDup(pairs)
  {
    pairs := [];
    ghost var order: seq<Cell> := [];
    var rest := odds;
    while rest != {}
      invariant rest <= odds
      invariant NoDup(order) && (forall o :: o in order <==> o in odds - rest)
      invariant pairs == ReadAll(graph, evens, order)
    {
      var o :| o in rest;
      var mine := ReadOddCell(evens, Adj(graph, At(o)), o);
      pairs := pairs + mine;
      assert (order + [o])[..|order|] == order;
      NoDupAppend(order, [o]);
      order := order + [o];
      rest := rest - {o};
    }
    forall k | 0 <= k < |pairs|
      ensures pairs[k].0 in evens && pairs[k].1 in odds && At(pairs[k].0) in Adj(graph, At(pairs[k].1))
    {
      ReadAllMembers(graph, evens, order, pairs[k]);
    }
    forall e, o | e in evens && o in odds && At(e) in Adj(graph, At(o)) ensures (e, o) in pairs {
      ReadAllMembers(graph, evens, order, (e, o));
    }
    if forall o :: o in odds ==> NoDup(Adj(graph, At(o))) {
      ReadAllNoDup(graph, evens, order);
    }
  }

  /** The adjacency dictionary as a mutable object, for the matcher that edits it in place. */
  class FlowGraph {
    var adj: Graph

    constructor (g: Graph)
      ensures adj == g
    {
      adj := g;
    }
  }
}
