/** The nesting of blossoms: `Blossom.childs` and the explicit-stack traversal `Blossom.leaves`.
    A `Blossom` object is named by a number; every sub-blossom of a blossom has a smaller number than
    it, which is what makes the nesting finite. */
module BlossomTree {
  import opened Lists
  import opened GridModel

  /** A vertex, or a blossom named by its number. */
  datatype Node = Leaf(v: Cell) | Sub(id: nat)

  /** `b.childs` for every blossom b still in use. */
  type Childs = map<nat, seq<Node>>

  /** Every sub-blossom in a list of children has a smaller number than its parent and children of
      its own. */
  ghost predicate Nested(childs: Childs) {
    forall b, k :: b in childs && 0 <= k < |childs[b]| && childs[b][k].Sub? ==>
      childs[b][k].id < b && childs[b][k].id in childs
  }

  predicate Known(childs: Childs, n: Node) {
    n.Sub? ==> n.id in childs
  }

  predicate AllKnown(childs: Childs, s: seq<Node>) {
    forall k :: 0 <= k < |s| ==> Known(childs, s[k])
  }

  /** The number of nodes inside the first k children of blossom b, the children included. */
  ghost function Inner(childs: Childs, b: nat, k: nat): nat
    requires Nested(childs) && b in childs && k <= |childs[b]|
    decreases b, k
  {
    if k == 0 then 0
    else
      Inner(childs, b, k - 1) +
      match childs[b][k - 1]
      case Leaf(_) => 1
      case Sub(c) => 1 + Inner(childs, c, |childs[c]|)
  }

  /** The number of nodes in a node, itself included. */
  ghost function Size(childs: Childs, n: Node): nat
    requires Nested(childs) && Known(childs, n)
  {
    match n
    case Leaf(_) => 1
    case Sub(b) => 1 + Inner(childs, b, |childs[b]|)
  }

  /** The number of nodes in a list of nodes. */
  ghost function Total(childs: Childs, s: seq<Node>): nat
    requires Nested(childs) && AllKnown(childs, s)
  {
    if s == [] then 0 else Total(childs, s[..|s| - 1]) + Size(childs, s[|s| - 1])
  }

  lemma {:induction false} InnerIsTotal(childs: Childs, b: nat, k: nat)
    requires Nested(childs) && b in childs && k <= |childs[b]|
    ensures AllKnown(childs, childs[b][..k]) && Inner(childs, b, k) == Total(childs, childs[b][..k])
  {
    if k > 0 {
      InnerIsTotal(childs, b, k - 1);
      assert childs[b][..k][..k - 1] == childs[b][..k - 1];
    }
  }

  lemma {:induction false} TotalAppend(childs: Childs, s: seq<Node>, t: seq<Node>)
    requires Nested(childs) && AllKnown(childs, s) && AllKnown(childs, t)
    ensures AllKnown(childs, s + t) && Total(childs, s + t) == Total(childs, s) + Total(childs, t)
    decreases |t|
  {
    if t != [] {
      TotalAppend(childs, s, t[..|t| - 1]);
      DropLastOfAppend(s, t);
    } else {
      assert s + t == s;
    }
  }

  /** Popping a blossom and pushing its children shrinks the stack by one node. */
  lemma Unfold(childs: Childs, stack: seq<Node>)
    requires Nested(childs) && AllKnown(childs, stack) && stack != [] && stack[|stack| - 1].Sub?
    ensures var b := stack[|stack| - 1].id;
      AllKnown(childs, stack[..|stack| - 1] + childs[b]) &&
      Total(childs, stack[..|stack| - 1] + childs[b]) < Total(childs, stack)
  {
    var b := stack[|stack| - 1].id;
    InnerIsTotal(childs, b, |childs[b]|);
    assert childs[b][..|childs[b]|] == childs[b];
    TotalAppend(childs, stack[..|stack| - 1], childs[b]);
  }

  /** The vertices a stack of nodes yields: pop the last node; a blossom pushes its children, a
      vertex is yielded. */
  ghost function Drain(childs: Childs, stack: seq<Node>): seq<Cell>
    requires Nested(childs) && AllKnown(childs, stack)
    decreases Total(childs, stack)
  {
    if stack == [] then []
    else
      var rest := stack[..|stack| - 1];
      match stack[|stack| - 1]
      case Leaf(v) => [v] + Drain(childs, rest)
      case Sub(b) =>
        Unfold(childs, stack);
        Drain(childs, rest + childs[b])
  }

  /** `Blossom.leaves`: `stack = [*self.childs]`, then pop; a blossom extends the stack with its
      children, a vertex is yielded. */
  method Leaves(childs: Childs, b: nat) returns (out: seq<Cell>)
    requires Nested(childs) && b in childs
    ensures out == Drain(childs, childs[b])
  {
    var stack := childs[b];
    out := [];
    while stack != []
      invariant AllKnown(childs, stack)
      invariant out + Drain(childs, stack) == Drain(childs, childs[b])
      decreases Total(childs, stack)
    {
      var t := stack[|stack| - 1];
      ghost var before := stack;
      stack := stack[..|stack| - 1];
      if t.Sub? {
        Unfold(childs, before);
        stack := stack + childs[t.id];
      } else {
        out := out + [t.v];
      }
    }
  }

  /** The vertices inside the first k children of blossom b, each as often as it occurs. */
  ghost function InnerLeaves(childs: Childs, b: nat, k: nat): multiset<Cell>
    requires Nested(childs) && b in childs && k <= |childs[b]|
    decreases b, k
  {
    if k == 0 then multiset{}
    else
      InnerLeaves(childs, b, k - 1) +
      match childs[b][k - 1]
      case Leaf(v) => multiset{v}
      case Sub(c) => InnerLeaves(childs, c, |childs[c]|)
  }

  ghost function LeavesOf(childs: Childs, n: Node): multiset<Cell>
    requires Nested(childs) && Known(childs, n)
  {
    match n
    case Leaf(v) => multiset{v}
    case Sub(b) => InnerLeaves(childs, b, |childs[b]|)
  }

  ghost function AllLeaves(childs: Childs, s: seq<Node>): multiset<Cell>
    requires Nested(childs) && AllKnown(childs, s)
  {
    if s == [] then multiset{} else AllLeaves(childs, s[..|s| - 1]) + LeavesOf(childs, s[|s| - 1])
  }

  lemma {:induction false} InnerIsAll(childs: Childs, b: nat, k: nat)
    requires Nested(childs) && b in childs && k <= |childs[b]|
    ensures AllKnown(childs, childs[b][..k]) && InnerLeaves(childs, b, k) == AllLeaves(childs, childs[b][..k])
  {
    if k > 0 {
      InnerIsAll(childs, b, k - 1);
      assert childs[b][..k][..k - 1] == childs[b][..k - 1];
    }
  }

  lemma {:induction false} AllLeavesAppend(childs: Childs, s: seq<Node>, t: seq<Node>)
    requires Nested(childs) && AllKnown(childs, s) && AllKnown(childs, t)
    ensures AllKnown(childs, s + t) && AllLeaves(childs, s + t) == AllLeaves(childs, s) + AllLeaves(childs, t)
    decreases |t|
  {
    if t != [] {
      AllLeavesAppend(childs, s, t[..|t| - 1]);
      DropLastOfAppend(s, t);
    } else {
      assert s + t == s;
    }
  }

  /** A stack yields exactly the vertices nested in its nodes, each as often as it occurs there. */
  lemma {:induction false} DrainYieldsLeaves(childs: Childs, stack: seq<Node>)
    requires Nested(childs) && AllKnown(childs, stack)
    ensures multiset(Drain(childs, stack)) == AllLeaves(childs, stack)
    decreases Total(childs, stack)
  {
    if stack != [] {
      var rest := stack[..|stack| - 1];
      match stack[|stack| - 1]
      case Leaf(v) =>
        DrainYieldsLeaves(childs, rest);
      case Sub(b) =>
        Unfold(childs, stack);
        DrainYieldsLeaves(childs, rest + childs[b]);
        AllLeavesAppend(childs, rest, childs[b]);
        InnerIsAll(childs, b, |childs[b]|);
        assert childs[b][..|childs[b]|] == childs[b];
    }
  }

  /** What `leaves()` yields is exactly the vertices nested in the blossom, each as often as it occurs
      in the nested lists of children: once each when no vertex is in two places. */
  lemma LeavesAreNestedVertices(childs: Childs, b: nat)
    requires Nested(childs) && b in childs
    ensures multiset(Drain(childs, childs[b])) == LeavesOf(childs, Sub(b))
  {
    DrainYieldsLeaves(childs, childs[b]);
    InnerIsAll(childs, b, |childs[b]|);
    assert childs[b][..|childs[b]|] == childs[b];
  }

  /** Reordering the children of one blossom keeps the nesting. */
  lemma NestedPermuted(before: Childs, after: Childs, b: nat)
    requires Nested(before) && b in before
    requires b in after && after == before[b := after[b]] && multiset(after[b]) == multiset(before[b])
    ensures Nested(after)
  {
    forall c, k | c in after && 0 <= k < |after[c]| && after[c][k].Sub?
      ensures after[c][k].id < c && after[c][k].id in after
    {
      if c == b {
        assert after[c][k] in multiset(before[b]);
        var l :| 0 <= l < |before[b]| && before[b][l] == after[c][k];
      }
    }
  }
}
