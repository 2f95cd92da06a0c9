/** What the assertions of `verifyOptimum` guarantee about the matching they accept. When no blossom
    dual is positive and `maxcardinality` is off, they are the complementary-slackness conditions of
    the linear program of maximum-weight matching, so the matching in `mate` weighs at least as much
    as any other matching of the graph. */
module BlossomDuality {
  import opened Lists
  import opened GridModel
  import opened BlossomGraph
  import opened BlossomTree
  import opened BlossomMatcher

  /** The sum of the duals of a list of vertices. */
  function SumDuals(d: map<Cell, int>, s: seq<Cell>): int
    requires forall x :: x in s ==> x in d
  {
    if s == [] then 0 else d[s[0]] + SumDuals(d, s[1..])
  }

  /** The ends of a list of edges, two per edge. */
  function Ends(M: seq<Pair>): (s: seq<Cell>)
    ensures |s| == 2 * |M|
  {
    if M == [] then [] else [M[0].0, M[0].1] + Ends(M[1..])
  }

  /** Twice the weight of a list of edges. */
  function Weight2(G: WGraph, M: seq<Pair>): int {
    if M == [] then 0 else 2 * W(G, M[0].0, M[0].1) + Weight2(G, M[1..])
  }

  /** A matching of G: edges of G in either orientation, no vertex at the end of two of them, none
      a loop. */
  ghost predicate IsMatching(G: WGraph, M: seq<Pair>) {
    (forall k :: 0 <= k < |M| ==> Linked(G, M[k].0, M[k].1)) && NoDup(Ends(M))
  }

  lemma {:induction false} EndsMembers(M: seq<Pair>, x: Cell)
    ensures x in Ends(M) <==> exists k :: 0 <= k < |M| && (M[k].0 == x || M[k].1 == x)
  {
    if M != [] {
      EndsMembers(M[1..], x);
      if x in Ends(M[1..]) {
        var k :| 0 <= k < |M[1..]| && (M[1..][k].0 == x || M[1..][k].1 == x);
        assert M[k + 1] == M[1..][k];
      }
      forall k | 1 <= k < |M| && (M[k].0 == x || M[k].1 == x) ensures x in Ends(M[1..]) {
        assert M[1..][k - 1] == M[k];
      }
    }
  }

  lemma {:induction false} SumAppend(d: map<Cell, int>, a: seq<Cell>, b: seq<Cell>)
    requires forall x :: x in a + b ==> x in d
    ensures SumDuals(d, a + b) == SumDuals(d, a) + SumDuals(d, b)
    decreases |a|
  {
    if a == [] {
      assert a + b == b;
    } else {
      assert (a + b)[1..] == a[1..] + b;
      SumAppend(d, a[1..], b);
    }
  }

  lemma {:induction false} SumNonNegative(d: map<Cell, int>, s: seq<Cell>)
    requires forall x :: x in s ==> x in d && d[x] >= 0
    ensures SumDuals(d, s) >= 0
    ensures (forall x :: x in s ==> d[x] == 0) ==> SumDuals(d, s) == 0
  {
    if s != [] {
      SumNonNegative(d, s[1..]);
    }
  }

  /** Taking one vertex out of a list takes its dual out of the sum. */
  lemma SumRemove(d: map<Cell, int>, s: seq<Cell>, x: Cell)
    requires x in s && forall y :: y in s ==> y in d
    ensures SumDuals(d, s) == d[x] + SumDuals(d, RemoveFirst(s, x))
  {
    var k := IndexOf(s, x);
    var tail := [x] + s[k + 1..];
    assert s == s[..k] + tail;
    SumAppend(d, s[..k], tail);
    SumAppend(d, s[..k], s[k + 1..]);
    assert tail[1..] == s[k + 1..];
  }

  /** The duals of distinct vertices, all among the distinct vertices of a second list, add up to no
      more than the duals of the second list when these are non-negative, and to as much when every
      vertex the first list leaves out has dual 0. */
  lemma {:induction false} SumSub(d: map<Cell, int>, a: seq<Cell>, b: seq<Cell>)
    requires NoDup(a) && NoDup(b) && (forall x :: x in a ==> x in b)
    requires forall x :: x in b ==> x in d && d[x] >= 0
    ensures SumDuals(d, a) <= SumDuals(d, b)
    ensures (forall x :: x in b && x !in a ==> d[x] == 0) ==> SumDuals(d, a) == SumDuals(d, b)
    decreases |a|
  {
    if a == [] {
      SumNonNegative(d, b);
    } else {
      var x, rest := a[0], a[1..];
      RemoveFirstKeepsNoDup(b, x);
      var b' := RemoveFirst(b, x);
      assert NoDup(rest) by {
        forall i, j | 0 <= i < j < |rest| ensures rest[i] != rest[j] {
          assert rest[i] == a[i + 1] && rest[j] == a[j + 1];
        }
      }
      assert x !in rest by {
        forall i | 0 <= i < |rest| ensures rest[i] != x {
          assert rest[i] == a[i + 1];
        }
      }
      SumSub(d, rest, b');
      SumRemove(d, b, x);
    }
  }

  /** When every edge weighs at most half the duals of its ends, a list of edges weighs at most half
      the duals of its ends, and exactly that when every edge is tight. */
  lemma {:induction false} CoverBound(G: WGraph, d: map<Cell, int>, M: seq<Pair>)
    requires forall k :: 0 <= k < |M| ==> M[k].0 in d && M[k].1 in d
    requires forall k :: 0 <= k < |M| ==> 2 * W(G, M[k].0, M[k].1) <= d[M[k].0] + d[M[k].1]
    ensures forall x :: x in Ends(M) ==> x in d
    ensures Weight2(G, M) <= SumDuals(d, Ends(M))
    ensures (forall k :: 0 <= k < |M| ==> 2 * W(G, M[k].0, M[k].1) == d[M[k].0] + d[M[k].1]) ==>
            Weight2(G, M) == SumDuals(d, Ends(M))
  {
    forall x | x in Ends(M) ensures x in d {
      EndsMembers(M, x);
    }
    if M != [] {
      CoverBound(G, d, M[1..]);
      var e := [M[0].0, M[0].1];
      SumAppend(d, e, Ends(M[1..]));
      assert e[1..][1..] == [];
    }
  }

  /** With every blossom dual 0, the blossoms shared by the two ends of an edge add nothing. */
  lemma {:induction false} ZeroShared(ri: seq<Node>, rj: seq<Node>, bd: map<nat, int>)
    requires forall b :: b in bd ==> bd[b] == 0
    ensures SharedDual(ri, rj, bd).Some? ==> SharedDual(ri, rj, bd).value == 0
    decreases |ri|
  {
    if ri != [] && rj != [] && ri[0] == rj[0] {
      ZeroShared(ri[1..], rj[1..], bd);
    }
  }

  /** An edge that passes the check weighs at most half the duals of its ends, and exactly that when
      it is matched. */
  lemma EdgeSlack(m: Matcher, i: Cell, j: Cell)
    requires Ascending(m.blossomparent) && forall b :: b in m.blossomdual ==> m.blossomdual[b] == 0
    requires i != j && m.EdgeOk(i, j)
    ensures i in m.dualvar && j in m.dualvar && 2 * W(m.G, i, j) <= m.dualvar[i] + m.dualvar[j]
    ensures m.Matched(i, j) ==> 2 * W(m.G, i, j) == m.dualvar[i] + m.dualvar[j]
  {
    var ci, cj := ChainUp(m.blossomparent, Leaf(i)), ChainUp(m.blossomparent, Leaf(j));
    ZeroShared(Reverse(ci.value), Reverse(cj.value), m.blossomdual);
  }

  /** Every edge of a matching of the graph passes the check, whichever way round it is listed. */
  lemma MatchingEdges(m: Matcher, M: seq<Pair>)
    requires Simple(m.G) && Ascending(m.blossomparent) && forall b :: b in m.blossomdual ==> m.blossomdual[b] == 0
    requires forall k :: 0 <= k < |m.G.edges| ==> m.EdgeOk(m.G.edges[k].0, m.G.edges[k].1)
    requires IsMatching(m.G, M)
    ensures forall k :: 0 <= k < |M| ==>
      M[k].0 in m.dualvar && M[k].1 in m.dualvar && 2 * W(m.G, M[k].0, M[k].1) <= m.dualvar[M[k].0] + m.dualvar[M[k].1]
    ensures forall k :: 0 <= k < |M| && m.Matched(M[k].0, M[k].1) ==>
      2 * W(m.G, M[k].0, M[k].1) == m.dualvar[M[k].0] + m.dualvar[M[k].1]
  {
    forall k | 0 <= k < |M|
      ensures M[k].0 in m.dualvar && M[k].1 in m.dualvar
      ensures 2 * W(m.G, M[k].0, M[k].1) <= m.dualvar[M[k].0] + m.dualvar[M[k].1]
      ensures m.Matched(M[k].0, M[k].1) ==> 2 * W(m.G, M[k].0, M[k].1) == m.dualvar[M[k].0] + m.dualvar[M[k].1]
    {
      assert M[k].0 != M[k].1 by {
        EndsAt(M, k);
      }
      if M[k] in m.G.edges {
        var l := IndexOf(m.G.edges, M[k]);
        assert m.EdgeOk(m.G.edges[l].0, m.G.edges[l].1);
        EdgeSlack(m, M[k].0, M[k].1);
      } else {
        var l := IndexOf(m.G.edges, (M[k].1, M[k].0));
        assert m.EdgeOk(m.G.edges[l].0, m.G.edges[l].1);
        EdgeSlack(m, M[k].1, M[k].0);
        WSymmetric(m.G, M[k].0, M[k].1);
      }
    }
  }

  /** The two ends of the k-th edge sit at positions 2k and 2k+1 of `Ends`. */
  lemma {:induction false} EndsAt(M: seq<Pair>, k: nat)
    requires k < |M|
    ensures Ends(M)[2 * k] == M[k].0 && Ends(M)[2 * k + 1] == M[k].1
  {
    if k > 0 {
      EndsAt(M[1..], k - 1);
    }
  }

  /** Weak duality: if `verifyOptimum` accepts the state (without `maxcardinality`, no blossom dual
      positive, every vertex with a dual), then no matching of the graph weighs more than the
      matching P that lists the pairs of `mate`. */
  lemma WeakDuality(m: Matcher, M: seq<Pair>, P: seq<Pair>)
    requires Simple(m.G) && forall v :: v in m.G.nodes ==> v in m.dualvar
    requires Ascending(m.blossomparent) && forall b :: b in m.blossomdual ==> b in m.blossomedges
    requires forall b :: b in m.blossomdual ==> m.blossomdual[b] == 0
    requires m.Optimum(false)
    requires IsMatching(m.G, M) && IsMatching(m.G, P)
    requires forall k :: 0 <= k < |P| ==> m.Matched(P[k].0, P[k].1)
    requires forall v :: v in m.G.nodes && v in m.mate ==> v in Ends(P)
    ensures Weight2(m.G, M) <= Weight2(m.G, P)
  {
    var d := m.dualvar;
    var mn :| IsMin(d, mn) && m.OptimalWith(Offset(false, mn));
    assert forall v :: v in m.G.nodes ==> d[v] >= 0;
    MatchingEdges(m, M);
    MatchingEdges(m, P);
    CoverBound(m.G, d, M);
    CoverBound(m.G, d, P);
    EdgesInNodes(m.G, M);
    EdgesInNodes(m.G, P);
    SumSub(d, Ends(M), m.G.nodes);
    forall x | x in m.G.nodes && x !in Ends(P) ensures d[x] == 0 {
      var k := IndexOf(m.G.nodes, x);
    }
    SumSub(d, Ends(P), m.G.nodes);
  }

  lemma EdgesInNodes(G: WGraph, M: seq<Pair>)
    requires Simple(G) && forall k :: 0 <= k < |M| ==> Linked(G, M[k].0, M[k].1)
    ensures forall x :: x in Ends(M) ==> x in G.nodes
  {
    forall x | x in Ends(M) ensures x in G.nodes {
      EndsMembers(M, x);
      var k :| 0 <= k < |M| && (M[k].0 == x || M[k].1 == x);
      if M[k] in G.edges {
        var l := IndexOf(G.edges, M[k]);
      } else {
        var l := IndexOf(G.edges, (M[k].1, M[k].0));
      }
    }
  }

  /** In a simple graph an edge weighs the same read either way round. */
  lemma WSymmetric(G: WGraph, a: Cell, b: Cell)
    requires Simple(G)
    ensures W(G, a, b) == W(G, b, a)
  {
  }
}
