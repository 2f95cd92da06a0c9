/** The matching a unit-capacity flow network stands for. The network built from the candidate pairs
    stands for the empty matching. After augmentations, the graph holds exactly the edges one matching
    M of the candidate edges determines: "s" -> e for an unmatched even cell and e -> "s" for a matched
    one, e -> o for an unmatched candidate edge and o -> e for a matched one, o -> "t" for an unmatched
    odd cell and "t" -> o for a matched one. Reversing the edges of a simple path from "s" to "t" keeps
    this shape, with M augmented along the path; the odd cells' lists then name the matched pairs. */
module FlowMatching {
  import opened Lists
  import opened GridModel
  import opened FlowNetwork

  /** A candidate pair as the network edge it gives: (even end, odd end). */
  function Oriented(p: Pair): Pair {
    (EvenEnd(p), OddEnd(p))
  }

  /** Every candidate pair joins an even and an odd cell, as adjacent cells do, and no two candidate
      pairs join the same two cells. */
  predicate Bipartite(pairs: seq<Pair>) {
    (forall k :: 0 <= k < |pairs| ==> IsEven(pairs[k].0) != IsEven(pairs[k].1)) &&
    forall i, j :: 0 <= i < j < |pairs| ==> Oriented(pairs[i]) != Oriented(pairs[j])
  }

  /** The edges between cells of the built network. */
  function Edges(pairs: seq<Pair>): set<Pair> {
    set k | 0 <= k < |pairs| :: Oriented(pairs[k])
  }

  /** The edges go from the even side to the odd side, and no cell is on both sides. */
  ghost predicate Split(E: set<Pair>, evens: set<Cell>, odds: set<Cell>) {
    (forall p :: p in E ==> p.0 in evens && p.1 in odds) && evens !! odds
  }

  /** No cell is in two pairs of M. */
  ghost predicate IsMatching(M: set<Pair>) {
    forall p, q :: p in M && q in M && (p.0 == q.0 || p.1 == q.1) ==> p == q
  }

  /** M is a matching made of edges of E. */
  ghost predicate MatchingOf(E: set<Pair>, M: set<Pair>, evens: set<Cell>, odds: set<Cell>) {
    Split(E, evens, odds) && M <= E && IsMatching(M)
  }

  ghost predicate MatchedEven(M: set<Pair>, e: Cell) {
    exists o :: (e, o) in M
  }

  ghost predicate MatchedOdd(M: set<Pair>, o: Cell) {
    exists e :: (e, o) in M
  }

  /** The edge x -> y that the matching M of the candidate edges E determines. */
  ghost predicate Edge(E: set<Pair>, M: set<Pair>, evens: set<Cell>, odds: set<Cell>, x: Node, y: Node) {
    match (x, y)
    case (Source, At(e)) => e in evens && !MatchedEven(M, e)
    case (At(e), Source) => e in evens && MatchedEven(M, e)
    case (At(a), At(b)) => ((a, b) in E && (a, b) !in M) || (b, a) in M
    case (At(o), Sink) => o in odds && !MatchedOdd(M, o)
    case (Sink, At(o)) => o in odds && MatchedOdd(M, o)
    case _ => false
  }

  /** The graph holds exactly the edges M determines, each once. */
  ghost predicate Represents(g: Graph, E: set<Pair>, M: set<Pair>, evens: set<Cell>, odds: set<Cell>) {
    AllNoDup(g) && forall x, y :: y in Adj(g, x) <==> Edge(E, M, evens, odds, x, y)
  }

  /** A network built from candidate edges E between the two sides, before any augmentation. */
  ghost predicate Network(g: Graph, E: set<Pair>, evens: set<Cell>, odds: set<Cell>) {
    Split(E, evens, odds) && Represents(g, E, {}, evens, odds)
  }

  /** x -> y is an edge taken by the path. */
  ghost predicate Step(P: seq<Node>, x: Node, y: Node) {
    exists k :: 0 <= k < |P| - 1 && P[k] == x && P[k + 1] == y
  }

  /** M augmented along the path: the candidate edges the path takes forwards join M, the matched
      edges it takes backwards leave it. */
  ghost function Augmented(E: set<Pair>, M: set<Pair>, P: seq<Node>): set<Pair> {
    set p | p in E && ((p in M && !Step(P, At(p.1), At(p.0))) || Step(P, At(p.0), At(p.1)))
  }

  /** What an augmentation starts from: a graph standing for a matching, and a simple path in it from
      "s" to "t". */
  ghost predicate Augmenting(g: Graph, E: set<Pair>, M: set<Pair>, evens: set<Cell>, odds: set<Cell>, P: seq<Node>) {
    MatchingOf(E, M, evens, odds) && Represents(g, E, M, evens, odds) &&
    IsPath(g, P) && NoDup(P) && P[0] == Source && P[|P| - 1] == Sink
  }

  /** The built network stands for the empty matching when the candidate pairs are bipartite. */
  lemma BuiltIsNetwork(pairs: seq<Pair>, graph: Graph, evens: set<Cell>, odds: set<Cell>)
    requires Bipartite(pairs) && Built(pairs, graph, evens, odds)
    ensures Network(graph, Edges(pairs), evens, odds)
  {
    SidesSplit(pairs);
    BuiltNoDup(pairs, graph, evens, odds);
    forall x, y ensures y in Adj(graph, x) <==> Edge(Edges(pairs), {}, evens, odds, x, y) {
      BuiltEdge(pairs, graph, evens, odds, x, y);
    }
  }

  /** The candidate edges go from the even ends to the odd ends, which are different cells. */
  lemma SidesSplit(pairs: seq<Pair>)
    requires Bipartite(pairs)
    ensures Split(Edges(pairs), EvenSide(pairs), OddSide(pairs))
  {
    SideMembers(pairs);
    forall c | c in EvenSide(pairs) ensures IsEven(c) {
      var k :| 0 <= k < |pairs| && EvenEnd(pairs[k]) == c;
    }
    forall c | c in OddSide(pairs) ensures !IsEven(c) {
      var k :| 0 <= k < |pairs| && OddEnd(pairs[k]) == c;
    }
    forall p | p in Edges(pairs) ensures p.0 in EvenSide(pairs) && p.1 in OddSide(pairs) {
      var k :| 0 <= k < |pairs| && Oriented(pairs[k]) == p;
    }
  }

  /** Any single candidate edge is a matching, so a maximum matching of a non-empty list of
      candidate pairs is not empty. */
  lemma SingleEdgeMatching(pairs: seq<Pair>, k: nat)
    requires Bipartite(pairs) && k < |pairs|
    ensures MatchingOf(Edges(pairs), {Oriented(pairs[k])}, EvenSide(pairs), OddSide(pairs))
  {
    SidesSplit(pairs);
  }

  /** No list of the built network has a repeat. */
  lemma BuiltNoDup(pairs: seq<Pair>, graph: Graph, evens: set<Cell>, odds: set<Cell>)
    requires Bipartite(pairs) && Built(pairs, graph, evens, odds)
    ensures AllNoDup(graph)
  {
    forall u | u in graph ensures NoDup(graph[u]) {
      if u.At? {
        OddSuccessorsNoDup(pairs, u.cell);
        OddSuccessorsHasNoSink(pairs, u.cell);
        NoDupAppend(OddSuccessors(pairs, u.cell), if u.cell in odds then [Sink] else []);
      }
    }
  }

  /** Each edge of the built network is one the empty matching determines, and the other way round. */
  lemma BuiltEdge(pairs: seq<Pair>, graph: Graph, evens: set<Cell>, odds: set<Cell>, x: Node, y: Node)
    requires Built(pairs, graph, evens, odds) && Split(Edges(pairs), evens, odds)
    ensures y in Adj(graph, x) <==> Edge(Edges(pairs), {}, evens, odds, x, y)
  {
    if x.At? {
      OddSuccessorsMembers(pairs, x.cell, y);
    }
  }

  /** The odd successors of c are the odd ends of the candidate edges out of c. */
  lemma {:induction false} OddSuccessorsMembers(pairs: seq<Pair>, c: Cell, y: Node)
    ensures y in OddSuccessors(pairs, c) <==> y.At? && (c, y.cell) in Edges(pairs)
    decreases |pairs|
  {
    if pairs != [] {
      var pre, p := pairs[..|pairs| - 1], pairs[|pairs| - 1];
      OddSuccessorsMembers(pre, c, y);
      EdgesAppend(pairs);
    }
  }

  lemma OddSuccessorsHasNoSink(pairs: seq<Pair>, c: Cell)
    ensures Sink !in OddSuccessors(pairs, c)
  {
    OddSuccessorsMembers(pairs, c, Sink);
  }

  /** The edges of the candidate pairs are those of all but the last one, and the last one's. */
  lemma EdgesAppend(pairs: seq<Pair>)
    requires pairs != []
    ensures Edges(pairs) == Edges(pairs[..|pairs| - 1]) + {Oriented(pairs[|pairs| - 1])}
  {
    var pre := pairs[..|pairs| - 1];
    forall p | p in Edges(pairs) ensures p in Edges(pre) + {Oriented(pairs[|pairs| - 1])} {
      var k :| 0 <= k < |pairs| && Oriented(pairs[k]) == p;
      if k < |pre| {
        assert pre[k] == pairs[k];
      }
    }
    forall p | p in Edges(pre) ensures p in Edges(pairs) {
      var k :| 0 <= k < |pre| && Oriented(pre[k]) == p;
      assert pairs[k] == pre[k];
    }
  }

  /** Distinct candidate edges give lists without repeats. */
  lemma {:induction false} OddSuccessorsNoDup(pairs: seq<Pair>, c: Cell)
    requires Bipartite(pairs)
    ensures NoDup(OddSuccessors(pairs, c))
    decreases |pairs|
  {
    if pairs != [] {
      var pre, p := pairs[..|pairs| - 1], pairs[|pairs| - 1];
      assert Bipartite(pre) by {
        forall i, j | 0 <= i < j < |pre| ensures Oriented(pre[i]) != Oriented(pre[j]) {
          assert pre[i] == pairs[i] && pre[j] == pairs[j];
        }
      }
      OddSuccessorsNoDup(pre, c);
      if EvenEnd(p) == c {
        OddSuccessorsMembers(pre, c, At(OddEnd(p)));
        forall k | 0 <= k < |pre| ensures Oriented(pre[k]) != Oriented(p) {
          assert pre[k] == pairs[k];
        }
        assert Oriented(p) == (c, OddEnd(p));
        NoDupAppend(OddSuccessors(pre, c), [At(OddEnd(p))]);
      }
    }
  }

  /** The graph never holds an edge both ways. */
  lemma EdgeAntisymmetric(E: set<Pair>, M: set<Pair>, evens: set<Cell>, odds: set<Cell>, x: Node, y: Node)
    requires MatchingOf(E, M, evens, odds) && Edge(E, M, evens, odds, x, y)
    ensures !Edge(E, M, evens, odds, y, x)
  {
    if x.At? && y.At? {
      var a, b := x.cell, y.cell;
      assert (a, b) in E ==> a in evens && b in odds;
      assert (b, a) in E ==> b in evens && a in odds;
    }
  }

  /** So no edge of the path has its reverse in the graph. */
  lemma PathReverseAbsent(g: Graph, E: set<Pair>, M: set<Pair>, evens: set<Cell>, odds: set<Cell>, P: seq<Node>)
    requires MatchingOf(E, M, evens, odds) && Represents(g, E, M, evens, odds) && IsPath(g, P)
    ensures forall k :: 0 <= k < |P| - 1 ==> P[k] !in Adj(g, P[k + 1])
  {
    forall k | 0 <= k < |P| - 1 ensures P[k] !in Adj(g, P[k + 1]) {
      EdgeAntisymmetric(E, M, evens, odds, P[k], P[k + 1]);
    }
  }

  lemma StepIsEdge(g: Graph, E: set<Pair>, M: set<Pair>, evens: set<Cell>, odds: set<Cell>, P: seq<Node>, x: Node, y: Node)
    requires Represents(g, E, M, evens, odds) && IsPath(g, P) && Step(P, x, y)
    ensures Edge(E, M, evens, odds, x, y)
  {
    var k :| 0 <= k < |P| - 1 && P[k] == x && P[k + 1] == y;
    assert P[k + 1] in Adj(g, P[k]);
  }

  /** A path of distinct nodes leaves a node at most once and enters it at most once. */
  lemma StepUnique(P: seq<Node>, x: Node, y: Node, x': Node, y': Node)
    requires NoDup(P) && Step(P, x, y) && Step(P, x', y')
    ensures x == x' <==> y == y'
  {
    var k :| 0 <= k < |P| - 1 && P[k] == x && P[k + 1] == y;
    var l :| 0 <= l < |P| - 1 && P[l] == x' && P[l + 1] == y';
    if x == x' || y == y' {
      assert k == l;
    }
  }

  /** It never takes an edge both ways, never enters its first node and never leaves its last. */
  lemma StepEnds(P: seq<Node>, x: Node, y: Node)
    requires NoDup(P) && Step(P, x, y)
    ensures y != P[0] && x != P[|P| - 1] && !Step(P, y, x)
  {
    var k :| 0 <= k < |P| - 1 && P[k] == x && P[k + 1] == y;
    forall l | 0 <= l < |P| - 1 && P[l] == y ensures P[l + 1] != x {
      assert l == k + 1;
    }
  }

  /** A node entered that is not the last is left again. */
  lemma StepOut(P: seq<Node>, w: Node, x: Node) returns (y: Node)
    requires Step(P, w, x) && x != P[|P| - 1]
    ensures Step(P, x, y)
  {
    var k :| 0 <= k < |P| - 1 && P[k] == w && P[k + 1] == x;
    y := P[k + 2];
  }

  /** A node left that is not the first was entered. */
  lemma StepIn(P: seq<Node>, x: Node, y: Node) returns (w: Node)
    requires Step(P, x, y) && x != P[0]
    ensures Step(P, w, x)
  {
    var k :| 0 <= k < |P| - 1 && P[k] == x && P[k + 1] == y;
    w := P[k - 1];
    assert P[(k - 1) + 1] == x;
  }

  /** The path's edges are its first edge and the edges of the rest of it. */
  lemma StepCons(P: seq<Node>, x: Node, y: Node)
    requires |P| >= 2
    ensures Step(P, x, y) <==> (x == P[0] && y == P[1]) || Step(P[1..], x, y)
  {
    if Step(P, x, y) {
      var k :| 0 <= k < |P| - 1 && P[k] == x && P[k + 1] == y;
      if k > 0 {
        assert P[1..][k - 1] == x && P[1..][k] == y;
      }
    }
    if Step(P[1..], x, y) {
      var k :| 0 <= k < |P[1..]| - 1 && P[1..][k] == x && P[1..][k + 1] == y;
      assert P[k + 1] == x && P[k + 2] == y;
    }
  }

  /** Both ends of an edge the path takes are on the path. */
  lemma StepMembers(P: seq<Node>, x: Node, y: Node)
    requires Step(P, x, y)
    ensures x in P && y in P
  {
  }

  /** Read backwards, a sequence takes each of its edges the other way. */
  lemma StepReverse(C: seq<Node>, x: Node, y: Node)
    ensures Step(Reverse(C), x, y) <==> Step(C, y, x)
  {
    var P, n := Reverse(C), |C|;
    if Step(P, x, y) {
      var k :| 0 <= k < n - 1 && P[k] == x && P[k + 1] == y;
      ReverseAt(C, k);
      ReverseAt(C, k + 1);
      assert C[n - 2 - k] == y && C[n - 2 - k + 1] == x;
    }
    if Step(C, y, x) {
      var k :| 0 <= k < n - 1 && C[k] == y && C[k + 1] == x;
      var j := n - 2 - k;
      ReverseAt(C, j);
      ReverseAt(C, j + 1);
      assert P[j] == x && P[j + 1] == y;
    }
  }

  /** Out of an even cell, the path takes an unmatched candidate edge. */
  lemma LeaveEven(g: Graph, E: set<Pair>, M: set<Pair>, evens: set<Cell>, odds: set<Cell>, P: seq<Node>, e: Cell, y: Node)
    requires Augmenting(g, E, M, evens, odds, P) && e in evens && Step(P, At(e), y)
    ensures y.At? && (e, y.cell) in E && (e, y.cell) !in M
  {
    StepIsEdge(g, E, M, evens, odds, P, At(e), y);
    StepEnds(P, At(e), y);
    if y.At? {
      assert (y.cell, e) in M ==> e in odds;
    }
  }

  /** Into an even cell, the path comes from "s" when the cell is unmatched, and otherwise along its
      matched edge. */
  lemma EnterEven(g: Graph, E: set<Pair>, M: set<Pair>, evens: set<Cell>, odds: set<Cell>, P: seq<Node>, w: Node, e: Cell)
    requires Augmenting(g, E, M, evens, odds, P) && e in evens && Step(P, w, At(e))
    ensures (w == Source && !MatchedEven(M, e)) || (w.At? && (e, w.cell) in M)
  {
    StepIsEdge(g, E, M, evens, odds, P, w, At(e));
    StepEnds(P, w, At(e));
    if w.At? {
      assert (w.cell, e) in E ==> e in odds;
    }
  }

  /** Out of an odd cell, the path goes to "t" when the cell is unmatched, and otherwise back along its
      matched edge. */
  lemma LeaveOdd(g: Graph, E: set<Pair>, M: set<Pair>, evens: set<Cell>, odds: set<Cell>, P: seq<Node>, o: Cell, y: Node)
    requires Augmenting(g, E, M, evens, odds, P) && o in odds && Step(P, At(o), y)
    ensures (y == Sink && !MatchedOdd(M, o)) || (y.At? && (y.cell, o) in M)
  {
    StepIsEdge(g, E, M, evens, odds, P, At(o), y);
    StepEnds(P, At(o), y);
    if y.At? {
      assert (o, y.cell) in E ==> o in evens;
    }
  }

  /** Into an odd cell, the path comes along an unmatched candidate edge. */
  lemma EnterOdd(g: Graph, E: set<Pair>, M: set<Pair>, evens: set<Cell>, odds: set<Cell>, P: seq<Node>, w: Node, o: Cell)
    requires Augmenting(g, E, M, evens, odds, P) && o in odds && Step(P, w, At(o))
    ensures w.At? && (w.cell, o) in E && (w.cell, o) !in M
  {
    StepIsEdge(g, E, M, evens, odds, P, w, At(o));
    StepEnds(P, w, At(o));
    if w.At? {
      assert (o, w.cell) in M ==> o in evens;
    }
  }

  /** An even cell is matched after the augmentation iff it was matched before or the path starts
      with it. */
  lemma MatchedEvenAfter(g: Graph, E: set<Pair>, M: set<Pair>, evens: set<Cell>, odds: set<Cell>, P: seq<Node>, e: Cell)
    requires Augmenting(g, E, M, evens, odds, P)
    ensures MatchedEven(Augmented(E, M, P), e) <==> MatchedEven(M, e) || Step(P, Source, At(e))
  {
    var M' := Augmented(E, M, P);
    if Step(P, Source, At(e)) {
      StepIsEdge(g, E, M, evens, odds, P, Source, At(e));
      var y := StepOut(P, Source, At(e));
      LeaveEven(g, E, M, evens, odds, P, e, y);
      assert (e, y.cell) in M';
    }
    if o :| (e, o) in M {
      if Step(P, At(o), At(e)) {
        var y := StepOut(P, At(o), At(e));
        LeaveEven(g, E, M, evens, odds, P, e, y);
        assert (e, y.cell) in M';
      } else {
        assert (e, o) in M';
      }
    }
    if o :| (e, o) in M' {
      if (e, o) !in M {
        var w := StepIn(P, At(e), At(o));
        EnterEven(g, E, M, evens, odds, P, w, e);
      }
    }
  }

  /** An odd cell is matched after the augmentation iff it was matched before or the path ends with
      it. */
  lemma MatchedOddAfter(g: Graph, E: set<Pair>, M: set<Pair>, evens: set<Cell>, odds: set<Cell>, P: seq<Node>, o: Cell)
    requires Augmenting(g, E, M, evens, odds, P)
    ensures MatchedOdd(Augmented(E, M, P), o) <==> MatchedOdd(M, o) || Step(P, At(o), Sink)
  {
    var M' := Augmented(E, M, P);
    if Step(P, At(o), Sink) {
      StepIsEdge(g, E, M, evens, odds, P, At(o), Sink);
      var w := StepIn(P, At(o), Sink);
      EnterOdd(g, E, M, evens, odds, P, w, o);
      assert (w.cell, o) in M';
    }
    if e :| (e, o) in M {
      if Step(P, At(o), At(e)) {
        var w := StepIn(P, At(o), At(e));
        EnterOdd(g, E, M, evens, odds, P, w, o);
        assert (w.cell, o) in M';
      } else {
        assert (e, o) in M';
      }
    }
    if e :| (e, o) in M' {
      if (e, o) !in M {
        var y := StepOut(P, At(e), At(o));
        LeaveOdd(g, E, M, evens, odds, P, o, y);
      }
    }
  }

  /** A pair kept from M and a pair the path takes forwards never share their even cell. */
  lemma KeptAndTakenEven(g: Graph, E: set<Pair>, M: set<Pair>, evens: set<Cell>, odds: set<Cell>, P: seq<Node>, p: Pair, q: Pair)
    requires Augmenting(g, E, M, evens, odds, P)
    requires p in M && !Step(P, At(p.1), At(p.0)) && q in E && Step(P, At(q.0), At(q.1))
    ensures p.0 != q.0
  {
    var w := StepIn(P, At(q.0), At(q.1));
    EnterEven(g, E, M, evens, odds, P, w, q.0);
    assert MatchedEven(M, p.0) by {
      assert (p.0, p.1) in M;
    }
  }

  /** A pair kept from M and a pair the path takes forwards never share their odd cell. */
  lemma KeptAndTakenOdd(g: Graph, E: set<Pair>, M: set<Pair>, evens: set<Cell>, odds: set<Cell>, P: seq<Node>, p: Pair, q: Pair)
    requires Augmenting(g, E, M, evens, odds, P)
    requires p in M && !Step(P, At(p.1), At(p.0)) && q in E && Step(P, At(q.0), At(q.1))
    ensures p.1 != q.1
  {
    var y := StepOut(P, At(q.0), At(q.1));
    LeaveOdd(g, E, M, evens, odds, P, q.1, y);
    assert MatchedOdd(M, p.1) by {
      assert (p.0, p.1) in M;
    }
  }

  /** The augmented matching is again a matching of candidate edges. */
  lemma AugmentedIsMatching(g: Graph, E: set<Pair>, M: set<Pair>, evens: set<Cell>, odds: set<Cell>, P: seq<Node>)
    requires Augmenting(g, E, M, evens, odds, P)
    ensures MatchingOf(E, Augmented(E, M, P), evens, odds)
  {
    var M' := Augmented(E, M, P);
    forall p, q | p in M' && q in M' && (p.0 == q.0 || p.1 == q.1) ensures p == q {
      var takenP, takenQ := Step(P, At(p.0), At(p.1)), Step(P, At(q.0), At(q.1));
      if takenP && takenQ {
        StepUnique(P, At(p.0), At(p.1), At(q.0), At(q.1));
      } else if takenQ {
        KeptAndTakenEven(g, E, M, evens, odds, P, p, q);
        KeptAndTakenOdd(g, E, M, evens, odds, P, p, q);
      } else if takenP {
        KeptAndTakenEven(g, E, M, evens, odds, P, q, p);
        KeptAndTakenOdd(g, E, M, evens, odds, P, q, p);
      }
    }
  }

  /** An edge between two cells is in the new graph iff it was in the old one and the path did not
      take it, or the path took it the other way. */
  lemma CellEdgeAfter(g: Graph, E: set<Pair>, M: set<Pair>, evens: set<Cell>, odds: set<Cell>, P: seq<Node>, a: Cell, b: Cell)
    requires Augmenting(g, E, M, evens, odds, P)
    ensures Edge(E, Augmented(E, M, P), evens, odds, At(a), At(b)) <==>
      (Edge(E, M, evens, odds, At(a), At(b)) && !Step(P, At(a), At(b))) || Step(P, At(b), At(a))
  {
    if Step(P, At(a), At(b)) {
      StepIsEdge(g, E, M, evens, odds, P, At(a), At(b));
      StepEnds(P, At(a), At(b));
    }
    if Step(P, At(b), At(a)) {
      StepIsEdge(g, E, M, evens, odds, P, At(b), At(a));
      StepEnds(P, At(b), At(a));
    }
    assert (a, b) in E ==> a in evens && b in odds;
    assert (b, a) in E ==> b in evens && a in odds;
  }

  /** Every edge of the new graph is as the augmented matching determines. */
  lemma EdgeAfter(g: Graph, E: set<Pair>, M: set<Pair>, evens: set<Cell>, odds: set<Cell>, P: seq<Node>, x: Node, y: Node)
    requires Augmenting(g, E, M, evens, odds, P)
    ensures Edge(E, Augmented(E, M, P), evens, odds, x, y) <==>
      (Edge(E, M, evens, odds, x, y) && !Step(P, x, y)) || Step(P, y, x)
  {
    if Step(P, x, y) {
      StepIsEdge(g, E, M, evens, odds, P, x, y);
      StepEnds(P, x, y);
    }
    if Step(P, y, x) {
      StepIsEdge(g, E, M, evens, odds, P, y, x);
      StepEnds(P, y, x);
    }
    match (x, y)
    case (Source, At(e)) => MatchedEvenAfter(g, E, M, evens, odds, P, e);
    case (At(e), Source) => MatchedEvenAfter(g, E, M, evens, odds, P, e);
    case (At(a), At(b)) => CellEdgeAfter(g, E, M, evens, odds, P, a, b);
    case (At(o), Sink) => MatchedOddAfter(g, E, M, evens, odds, P, o);
    case (Sink, At(o)) => MatchedOddAfter(g, E, M, evens, odds, P, o);
    case _ =>
  }

  /** Reversing the edges of a simple path from "s" to "t" in a graph standing for M leaves a graph
      standing for M augmented along the path, and that is again a matching of candidate edges. */
  lemma AugmentKeeps(g: Graph, g': Graph, E: set<Pair>, M: set<Pair>, evens: set<Cell>, odds: set<Cell>, P: seq<Node>)
    requires Augmenting(g, E, M, evens, odds, P) && AllNoDup(g')
    requires forall x, y :: y in Adj(g', x) <==> (y in Adj(g, x) && !Step(P, x, y)) || Step(P, y, x)
    ensures MatchingOf(E, Augmented(E, M, P), evens, odds)
    ensures Represents(g', E, Augmented(E, M, P), evens, odds)
  {
    AugmentedIsMatching(g, E, M, evens, odds, P);
    forall x, y ensures y in Adj(g', x) <==> Edge(E, Augmented(E, M, P), evens, odds, x, y) {
      EdgeAfter(g, E, M, evens, odds, P, x, y);
    }
  }

  /** Reading the odd cells' lists of a graph standing for M gives exactly the pairs of M. */
  lemma ReadIsMatching(g: Graph, E: set<Pair>, M: set<Pair>, evens: set<Cell>, odds: set<Cell>, pairs: seq<Pair>)
    requires MatchingOf(E, M, evens, odds) && Represents(g, E, M, evens, odds)
    requires ReadFrom(g, evens, odds, pairs)
    ensures forall p :: p in pairs <==> p in M
  {
    forall p ensures p in pairs <==> p in M {
      assert Edge(E, M, evens, odds, At(p.1), At(p.0)) <==> At(p.0) in Adj(g, At(p.1));
      assert (p.1, p.0) in E ==> p.1 in evens;
      if p in M {
        assert p.0 in evens && p.1 in odds;
      }
    }
  }

  /** The pairs of a matching of candidate edges, listed once each, share no cell. */
  lemma MatchingListDisjoint(E: set<Pair>, M: set<Pair>, evens: set<Cell>, odds: set<Cell>, pairs: seq<Pair>)
    requires MatchingOf(E, M, evens, odds) && NoDup(pairs) && forall p :: p in pairs <==> p in M
    ensures Disjoint(pairs)
  {
    forall k, l | 0 <= k < |pairs| && 0 <= l < |pairs|
      ensures pairs[k].0 != pairs[l].1 && (k != l ==> pairs[k].0 != pairs[l].0 && pairs[k].1 != pairs[l].1)
    {
      assert pairs[k] in M && pairs[l] in M;
    }
  }

  /** A list of lists without repeats, in the sense the network uses. */
  lemma AllNoDupAdj(g: Graph, x: Node)
    requires AllNoDup(g)
    ensures NoDup(Adj(g, x))
  {
  }

  /** Reachability from "s" spreads along every edge. */
  lemma ReachStep(g: Graph, x: Node, y: Node)
    ensures Reachable(g, Source, x) && y in Adj(g, x) ==> Reachable(g, Source, y)
  {
    if Reachable(g, Source, x) && y in Adj(g, x) {
      var path :| IsPath(g, path) && path[0] == Source && path[|path| - 1] == x;
      var longer := path + [y];
      assert forall k :: 0 <= k < |path| ==> longer[k] == path[k];
      assert IsPath(g, longer) && longer[0] == Source && longer[|longer| - 1] == y;
    }
  }

  /** The end of the matched pair p that the cover takes: its odd cell when "s" reaches that cell,
      its even cell otherwise. */
  ghost function CoverEnd(g: Graph, p: Pair): Cell {
    if Reachable(g, Source, At(p.1)) then p.1 else p.0
  }

  /** The cells the minimum cut of a final graph picks out, one per pair of M. */
  ghost function Cover(g: Graph, M: set<Pair>): set<Cell> {
    set p | p in M :: CoverEnd(g, p)
  }

  /** In a graph standing for M with no path from "s" to "t", every candidate edge has an end in the
      cover: this is the cut that no flow can cross. */
  lemma CoverMeets(g: Graph, E: set<Pair>, M: set<Pair>, evens: set<Cell>, odds: set<Cell>, p: Pair)
    requires MatchingOf(E, M, evens, odds) && Represents(g, E, M, evens, odds)
    requires !Reachable(g, Source, Sink) && p in E
    ensures p.0 in Cover(g, M) || p.1 in Cover(g, M)
  {
    var (e, o) := p;
    if p in M {
      assert CoverEnd(g, p) in Cover(g, M);
    } else if MatchedEven(M, e) && !Reachable(g, Source, At(Mate(M, e))) {
      assert CoverEnd(g, (e, Mate(M, e))) in Cover(g, M);
    } else {
      assert Reachable(g, Source, At(e)) by {
        if MatchedEven(M, e) {
          ReachStep(g, At(Mate(M, e)), At(e));
        } else {
          assert Reachable(g, Source, Source) by {
            assert IsPath(g, [Source]);
          }
          ReachStep(g, Source, At(e));
        }
      }
      ReachStep(g, At(e), At(o));
      ReachStep(g, At(o), Sink);
      var e' :| (e', o) in M;
      assert CoverEnd(g, (e', o)) in Cover(g, M);
    }
  }

  /** The odd partner of a matched even cell. */
  ghost function Mate(M: set<Pair>, e: Cell): Cell
    requires MatchedEven(M, e)
  {
    var o :| (e, o) in M; o
  }

  /** The cover has at most one cell per pair of M. */
  lemma {:induction false} CoverSize(g: Graph, M: set<Pair>)
    ensures |Cover(g, M)| <= |M|
    decreases |M|
  {
    if M != {} {
      var p :| p in M;
      CoverSize(g, M - {p});
      assert Cover(g, M) == Cover(g, M - {p}) + {CoverEnd(g, p)};
    }
  }

  /** A set mapped one-to-one into another has at most as many elements. */
  lemma {:induction false} InjectionSize<T, U>(A: set<T>, B: set<U>, f: T -> U)
    requires forall a :: a in A ==> f(a) in B
    requires forall a, b :: a in A && b in A && f(a) == f(b) ==> a == b
    ensures |A| <= |B|
    decreases |A|
  {
    if A != {} {
      var a :| a in A;
      InjectionSize(A - {a}, B - {f(a)}, f);
    }
  }

  /** Max-flow/min-cut for the matching network: a graph standing for M with no path from "s" to
      "t" has M as a maximum matching of the candidate edges. Every other matching sends each of its
      pairs to a different cell of the cover, and the cover has one cell per pair of M. */
  lemma NoPathIsMaximum(g: Graph, E: set<Pair>, M: set<Pair>, evens: set<Cell>, odds: set<Cell>, M': set<Pair>)
    requires MatchingOf(E, M, evens, odds) && Represents(g, E, M, evens, odds)
    requires !Reachable(g, Source, Sink) && MatchingOf(E, M', evens, odds)
    ensures |M'| <= |M|
  {
    var C := Cover(g, M);
    forall p | p in E ensures p.0 in C || p.1 in C {
      CoverMeets(g, E, M, evens, odds, p);
    }
    var f := (p: Pair) => if p.0 in C then p.0 else p.1;
    forall p, q | p in M' && q in M' && f(p) == f(q) ensures p == q {
      assert p in E && q in E;
    }
    InjectionSize(M', C, f);
    CoverSize(g, M);
  }

  /** So the pairs read off such a graph are at least as many as those of any matching of the
      candidate edges. */
  lemma ListedIsMaximum(g: Graph, E: set<Pair>, M: set<Pair>, evens: set<Cell>, odds: set<Cell>, pairs: seq<Pair>)
    requires MatchingOf(E, M, evens, odds) && Represents(g, E, M, evens, odds) && !Reachable(g, Source, Sink)
    requires NoDup(pairs) && forall p :: p in pairs <==> p in M
    ensures forall M' :: MatchingOf(E, M', evens, odds) ==> |M'| <= |pairs|
  {
    NoDupCard(pairs);
    assert (set x | x in pairs) == M;
    forall M' | MatchingOf(E, M', evens, odds) ensures |M'| <= |pairs| {
      NoPathIsMaximum(g, E, M, evens, odds, M');
    }
  }

  /** What a flow solver's run gives on bipartite candidate pairs: if the solver, started on the built
      network, ends on a graph standing for a matching whose pairs it lists once each and which no
      matching of the candidate edges outnumbers, then the list is made of distinct candidate edges
      that share no cell, and it is not empty when there is a candidate pair. */
  lemma Solved(cand: seq<Pair>, start: Graph, final: Graph, M: set<Pair>, pairs: seq<Pair>)
    requires Bipartite(cand) && Built(cand, start, EvenSide(cand), OddSide(cand))
    requires Network(start, Edges(cand), EvenSide(cand), OddSide(cand)) ==>
      MatchingOf(Edges(cand), M, EvenSide(cand), OddSide(cand)) &&
      Represents(final, Edges(cand), M, EvenSide(cand), OddSide(cand)) &&
      NoDup(pairs) && (forall p :: p in pairs <==> p in M) &&
      forall M' :: MatchingOf(Edges(cand), M', EvenSide(cand), OddSide(cand)) ==> |M'| <= |pairs|
    ensures NoDup(pairs) && Disjoint(pairs) && forall k :: 0 <= k < |pairs| ==> pairs[k] in Edges(cand)
    ensures MatchingOf(Edges(cand), M, EvenSide(cand), OddSide(cand))
    ensures Represents(final, Edges(cand), M, EvenSide(cand), OddSide(cand))
    ensures forall p :: p in pairs <==> p in M
    ensures forall M' :: MatchingOf(Edges(cand), M', EvenSide(cand), OddSide(cand)) ==> |M'| <= |pairs|
    ensures cand != [] ==> |pairs| >= 1
  {
    BuiltIsNetwork(cand, start, EvenSide(cand), OddSide(cand));
    MatchingListDisjoint(Edges(cand), M, EvenSide(cand), OddSide(cand), pairs);
    forall k | 0 <= k < |pairs| ensures pairs[k] in Edges(cand) {
      assert pairs[k] in M;
    }
    if cand != [] {
      SingleEdgeMatching(cand, 0);
    }
  }
}
