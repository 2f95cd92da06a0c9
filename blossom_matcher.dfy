/** The shared state of `max_weight_matching` and the closures that change it: `assignLabel`,
    `scanBlossom`, the dual adjustment at the end of a stage and the symmetry check of `mate` after a
    stage. A `Blossom` object is named by its number, as in `BlossomTree`; a label, label edge or
    best edge set to `None` is an absent key, which is what `dict.get` reports for it. */
module BlossomMatcher {
  import opened Lists
  import opened Options
  import opened GridModel
  import opened BlossomGraph
  import opened BlossomTree

  /** What `scanBlossom` returns: the base of the blossom it found, `NoNode`, or that it raised (a
      failed `assert`, a missing key, or `None[0]` on a missing label edge). */
  datatype Scan = Base(base: Cell) | NoBase | Raised

  /** `labels.get(n) == 1`, `== 2`, or neither: 1 for outer, 2 for inner, 0 for free. */
  function Side(labels: map<Node, int>, n: Node): (side: int)
    ensures side == 1 <==> n in labels && labels[n] == 1
    ensures side == 2 <==> n in labels && labels[n] == 2
    ensures 0 <= side <= 2
  {
    if n in labels && labels[n] == 1 then 1
    else if n in labels && labels[n] == 2 then 2
    else 0
  }

  /** The label edge `(v, w)`, or `None` when v is `None`. */
  function Edge(v: Option<Cell>, w: Cell): (e: Option<Pair>)
    ensures e.None? <==> v.None?
    ensures e.Some? ==> e.value.0 == v.value && e.value.1 == w
  {
    if v.Some? then Some((v.value, w)) else None
  }

  /** The nodes whose label is 1. */
  function Ones(labels: map<Node, int>): set<Node> {
    set n | n in labels && labels[n] == 1
  }

  /** The walk of `scanBlossom` has set the labels of the blossoms of `path`, each once and each
      formerly 1, to 5, and changed nothing else. */
  ghost predicate Marked(before: map<Node, int>, after: map<Node, int>, path: seq<Node>) {
    NoDup(path) &&
    (forall n :: n in after <==> n in before) &&
    (forall k :: 0 <= k < |path| ==> path[k] in before && before[path[k]] == 1) &&
    (forall n :: n in after ==> after[n] == if n in path then 5 else before[n])
  }

  /** `mate[mate[v]] == v` for every matched vertex v, the mate being matched too. */
  predicate MateSymmetric(mate: map<Cell, Cell>) {
    forall v :: v in mate ==> mate[v] in mate && mate[mate[v]] == v
  }

  /** The dual of a vertex after the step: lowered by delta in an outer blossom, raised in an inner
      one. */
  function VertexDual(dual: int, side: int, delta: int): (d: int)
    ensures side == 1 ==> d == dual - delta
    ensures side == 2 ==> d == dual + delta
    ensures side != 1 && side != 2 ==> d == dual
  {
    if side == 1 then dual - delta else if side == 2 then dual + delta else dual
  }

  /** The dual of a blossom after the step: raised when it is a top-level outer blossom, lowered when
      it is a top-level inner one. */
  function BlossomDual(dual: int, top: bool, side: int, delta: int): (d: int)
    ensures top && side == 1 ==> d == dual + delta
    ensures top && side == 2 ==> d == dual - delta
    ensures !top || (side != 1 && side != 2) ==> d == dual
  {
    if top && side == 1 then dual + delta else if top && side == 2 then dual - delta else dual
  }

  /** How much of delta the slack of an edge loses at each end: 1 at an outer vertex, -1 at an inner
      one, 0 at a free one. */
  function Pull(side: int): int {
    if side == 1 then 1 else if side == 2 then -1 else 0
  }

  /** The dual step moves the slack of an edge by delta times the pull of its ends: an edge between
      an outer and an inner vertex keeps its slack, an edge with one outer and one free end loses
      delta, an edge between two outer vertices loses twice delta. So a delta no larger than the
      slack of the first kind of edge and half the slack of the second keeps every slack
      non-negative. */
  lemma DualStepSlack(G: WGraph, d: map<Cell, int>, d': map<Cell, int>, sv: int, sw: int, delta: int,
                      v: Cell, w: Cell)
    requires v in d && w in d && v in d' && w in d' && Linked(G, v, w)
    requires d'[v] == VertexDual(d[v], sv, delta) && d'[w] == VertexDual(d[w], sw, delta)
    ensures Slack(G, d', v, w) == Slack(G, d, v, w) - delta * (Pull(sv) + Pull(sw))
    ensures Pull(sv) + Pull(sw) == 0 ==> Slack(G, d', v, w) == Slack(G, d, v, w)
    ensures Pull(sv) + Pull(sw) == 1 && delta <= Slack(G, d, v, w) ==> Slack(G, d', v, w) >= 0
    ensures Pull(sv) + Pull(sw) == 2 && 2 * delta <= Slack(G, d, v, w) ==> Slack(G, d', v, w) >= 0
  {
    assert VertexDual(d[v], sv, delta) == d[v] - delta * Pull(sv);
    assert VertexDual(d[w], sw, delta) == d[w] - delta * Pull(sw);
  }

  /** Every blossom is numbered below its parent blossom, so that walking up `blossomparent` ends. */
  ghost predicate Ascending(parent: map<Node, Option<nat>>) {
    forall n :: n in parent && n.Sub? && parent[n].Some? ==> parent[n].value > n.id
  }

  /** The blossoms in `parent` that a walk up from n can still reach, one more for a vertex. */
  function Height(parent: map<Node, Option<nat>>, n: Node): nat {
    |Above(parent, n)| + (if n.Leaf? then 1 else 0)
  }

  function Above(parent: map<Node, Option<nat>>, n: Node): set<Node> {
    set k | k in parent && k.Sub? && (n.Leaf? || k.id >= n.id)
  }

  lemma SubsetCard<T>(a: set<T>, b: set<T>)
    requires a <= b
    ensures |a| <= |b|
    ensures a < b ==> |a| < |b|
  {
    assert b == a + (b - a);
    assert a * (b - a) == {};
  }

  /** Each step up from a node to its parent blossom lowers the height. */
  lemma HeightDrops(parent: map<Node, Option<nat>>, n: Node)
    requires Ascending(parent) && n in parent && parent[n].Some?
    ensures Height(parent, Sub(parent[n].value)) < Height(parent, n)
  {
    var p := parent[n].value;
    var above, here := Above(parent, Sub(p)), Above(parent, n);
    assert above <= here;
    SubsetCard(above, here);
    if n.Sub? {
      assert n in here && n !in above;
    }
  }

  lemma PrependEmpty<T>(o: Option<seq<T>>)
    ensures Prepend([], o) == o
  {
    if o.Some? {
      assert [] + o.value == o.value;
    }
  }

  lemma PrependTwice<T>(a: seq<T>, b: seq<T>, o: Option<seq<T>>)
    ensures Prepend(a, Prepend(b, o)) == Prepend(a + b, o)
  {
    if o.Some? {
      assert a + (b + o.value) == (a + b) + o.value;
    }
  }

  /** `[n, its parent, the parent's parent, ...]` up to a top-level blossom, as the loops of
      `verifyOptimum` build `iblossoms`, or `None` when a node on the way has no entry in
      `blossomparent` (a `KeyError`). */
  function ChainUp(parent: map<Node, Option<nat>>, n: Node): (c: Option<seq<Node>>)
    requires Ascending(parent)
    ensures c.Some? ==> |c.value| > 0 && c.value[0] == n
    decreases Height(parent, n)
  {
    if n !in parent then None
    else
      match parent[n]
      case None => Some([n])
      case Some(p) =>
        HeightDrops(parent, n);
        Prepend([n], ChainUp(parent, Sub(p)))
  }

  function Prepend<T>(s: seq<T>, o: Option<seq<T>>): Option<seq<T>> {
    match o
    case None => None
    case Some(t) => Some(s + t)
  }

  /** The loop over `zip(iblossoms, jblossoms)` of the two reversed chains: twice the dual of every
      blossom the two chains share from the top down; `None` when such a shared node has no dual (a
      `KeyError`). */
  function SharedDual(ri: seq<Node>, rj: seq<Node>, bd: map<nat, int>): Option<int>
    decreases |ri|
  {
    if ri == [] || rj == [] || ri[0] != rj[0] then Some(0)
    else if ri[0].Leaf? || ri[0].id !in bd then None
    else AddTo(2 * bd[ri[0].id], SharedDual(ri[1..], rj[1..], bd))
  }

  function AddTo(x: int, o: Option<int>): Option<int> {
    match o
    case None => None
    case Some(y) => Some(x + y)
  }

  /** mn is the smallest value of the map. */
  ghost predicate IsMin(d: map<Cell, int>, mn: int) {
    (forall v :: v in d ==> mn <= d[v]) && exists v :: v in d && d[v] == mn
  }

  lemma MinUnique(d: map<Cell, int>, a: int, b: int)
    requires IsMin(d, a) && IsMin(d, b)
    ensures a == b
  {
  }

  /** `vdualoffset`: with `maxcardinality` the amount that lifts the smallest vertex dual to 0 when
      it is negative, otherwise 0. */
  function Offset(maxcardinality: bool, mn: int): (off: int)
    ensures off >= 0 && (maxcardinality ==> mn + off >= 0)
  {
    if maxcardinality && mn < 0 then -mn else 0
  }

  /** Python's `s[j]` for an index that may count from the end. */
  function PyAt<T>(s: seq<T>, j: int): T
    requires -|s| <= j < |s|
  {
    if j < 0 then s[j + |s|] else s[j]
  }

  /** The edge crossed by a step of `augmentBlossom` that has moved to position j, its ends named
      `(w, x)`: `b.edges[j]` going forward, `b.edges[j - 1]` reversed going backward; `None` where
      the index is out of range. */
  function StepEdge(es: seq<Pair>, j: int, jstep: int): (r: Option<Pair>)
    ensures r.Some? <==> (jstep == 1 && -|es| <= j < |es|) || (jstep != 1 && -|es| <= j - 1 < |es|)
    ensures r.Some? && jstep == 1 ==> r.value == PyAt(es, j)
    ensures r.Some? && jstep != 1 ==> r.value == (PyAt(es, j - 1).1, PyAt(es, j - 1).0)
  {
    if jstep == 1 then
      if -|es| <= j < |es| then Some(PyAt(es, j)) else None
    else if -|es| <= j - 1 < |es| then Some((PyAt(es, j - 1).1, PyAt(es, j - 1).0))
    else None
  }

  /** Python's `s[i:] + s[:i]` for `0 <= i`: the list turned so that position i comes first (a
      slice past the end is empty). */
  function Rotated<T>(s: seq<T>, i: nat): (r: seq<T>)
    ensures multiset(r) == multiset(s)
  {
    if i <= |s| then
      assert s == s[..i] + s[i..];
      s[i..] + s[..i]
    else s
  }

  /** The parts of the state `augmentBlossom` changes. */
  datatype Snap = Snap(mate: map<Cell, Cell>, childs: Childs, edges: map<nat, seq<Pair>>, base: map<Node, Cell>)

  /** From s0 to s1 only blossoms numbered b or less had their children, edges and base changed, no
      blossom appeared or vanished, and no matched vertex became unmatched. */
  ghost predicate Within(s0: Snap, mate: map<Cell, Cell>, childs: Childs, edges: map<nat, seq<Pair>>,
                         base: map<Node, Cell>, b: nat) {
    (forall c :: c in childs <==> c in s0.childs) &&
    (forall c :: c in childs && c > b ==> childs[c] == s0.childs[c]) &&
    (forall c :: c in edges <==> c in s0.edges) &&
    (forall c :: c in edges && c > b ==> edges[c] == s0.edges[c]) &&
    (forall n :: n in s0.base ==> n in base) &&
    (forall n :: n in base && (n.Leaf? || n.id > b) ==> n in s0.base && base[n] == s0.base[n]) &&
    (forall x :: x in s0.mate ==> x in mate)
  }

  /** The blossom structure the augmenting walks rely on: blossoms nest, each has its lists of
      children and edges, every blossom holding a vertex is known, and parents are numbered above
      their children. */
  ghost predicate Structured(childs: Childs, edges: map<nat, seq<Pair>>, inblossom: map<Cell, Node>,
                             parent: map<Node, Option<nat>>) {
    Nested(childs) && (forall c :: c in childs ==> c in edges) &&
    (forall v :: v in inblossom && inblossom[v].Sub? ==> inblossom[v].id in childs) &&
    Ascending(parent)
  }

  /** Turning the children and edges of a blossom keeps the structure and stays within it. */
  lemma TurnKeeps(s0: Snap, mate: map<Cell, Cell>, childs: Childs, edges: map<nat, seq<Pair>>,
                  base: map<Node, Cell>, inblossom: map<Cell, Node>, parent: map<Node, Option<nat>>,
                  b: nat, i: nat, childs': Childs, edges': map<nat, seq<Pair>>)
    requires Within(s0, mate, childs, edges, base, b) && Structured(childs, edges, inblossom, parent)
    requires b in childs && b in edges
    requires childs' == childs[b := Rotated(childs[b], i)] && edges' == edges[b := Rotated(edges[b], i)]
    ensures Within(s0, mate, childs', edges', base, b) && Structured(childs', edges', inblossom, parent)
  {
    NestedPermuted(childs, childs', b);
  }

  /** Setting the base of blossom b stays within b. */
  lemma WithinBase(s0: Snap, mate: map<Cell, Cell>, childs: Childs, edges: map<nat, seq<Pair>>,
                   base: map<Node, Cell>, b: nat, x: Cell)
    requires Within(s0, mate, childs, edges, base, b)
    ensures Within(s0, mate, childs, edges, base[Sub(b) := x], b)
  {
  }

  /** Matching w and x both ways unmatches nobody. */
  lemma WithinMate(s0: Snap, mate: map<Cell, Cell>, childs: Childs, edges: map<nat, seq<Pair>>,
                   base: map<Node, Cell>, b: nat, w: Cell, x: Cell)
    requires Within(s0, mate, childs, edges, base, b)
    ensures Within(s0, mate[w := x][x := w], childs, edges, base, b)
  {
  }

  /** A change within a blossom numbered c after a change within b, c no larger, is a change within b. */
  lemma WithinTrans(s0: Snap, s1: Snap, mate: map<Cell, Cell>, childs: Childs, edges: map<nat, seq<Pair>>,
                    base: map<Node, Cell>, b: nat, c: nat)
    requires Within(s0, s1.mate, s1.childs, s1.edges, s1.base, b)
    requires Within(s1, mate, childs, edges, base, c) && c <= b
    ensures Within(s0, mate, childs, edges, base, b)
  {
  }

  /** Where the walk of `augmentMatching` goes after the outer vertex s: up the label edge of its
      blossom to an inner blossom, then up the label edge of that one to the next outer vertex;
      `None` where the walk stops or would raise. */
  function Next(inblossom: map<Cell, Node>, labeledge: map<Node, Option<Pair>>, s: Cell): Option<Cell> {
    if s in inblossom && inblossom[s] in labeledge && labeledge[inblossom[s]].Some? then
      var t := labeledge[inblossom[s]].value.0;
      if t in inblossom && inblossom[t] in labeledge && labeledge[inblossom[t]].Some? then
        Some(labeledge[inblossom[t]].value.0)
      else None
    else None
  }

  /** The label edges lead up alternating trees: a rank on blossoms falls at every step of the walk
      from an outer vertex to the next. */
  ghost predicate Ranked(inblossom: map<Cell, Node>, labeledge: map<Node, Option<Pair>>, rank: map<Node, nat>) {
    forall s :: Next(inblossom, labeledge, s).Some? && Next(inblossom, labeledge, s).value in inblossom ==>
      inblossom[s] in rank && inblossom[Next(inblossom, labeledge, s).value] in rank &&
      rank[inblossom[Next(inblossom, labeledge, s).value]] < rank[inblossom[s]]
  }

  class Matcher {
    const G: WGraph
    var mate: map<Cell, Cell>
    /** `label`. */
    var labels: map<Node, int>
    var labeledge: map<Node, Option<Pair>>
    var inblossom: map<Cell, Node>
    var blossomparent: map<Node, Option<nat>>
    var blossombase: map<Node, Cell>
    var bestedge: map<Node, Option<Pair>>
    var dualvar: map<Cell, int>
    var blossomdual: map<nat, int>
    var queue: seq<Cell>
    /** `b.childs` and `b.edges` of every blossom b. */
    var childs: Childs
    var blossomedges: map<nat, seq<Pair>>

    /** The state before the first stage: nothing matched or labelled, every vertex its own
        top-level blossom and base, every vertex dual `maxweight`, no blossom. */
    constructor (G: WGraph, maxweight: int)
      ensures this.G == G
      ensures mate == map[] && labels == map[] && labeledge == map[] && bestedge == map[] && queue == []
      ensures inblossom == (map v | v in G.nodes :: Leaf(v))
      ensures blossomparent == (map v | v in G.nodes :: Leaf(v) := None)
      ensures blossombase == (map v | v in G.nodes :: Leaf(v) := v)
      ensures dualvar == InitialDuals(G, maxweight)
      ensures blossomdual == map[] && childs == map[] && blossomedges == map[]
    {
      this.G := G;
      mate, labels, labeledge, bestedge, queue := map[], map[], map[], map[], [];
      inblossom := map v | v in G.nodes :: Leaf(v);
      blossomparent := map v | v in G.nodes :: Leaf(v) := None;
      blossombase := map v | v in G.nodes :: Leaf(v) := v;
      dualvar := InitialDuals(G, maxweight);
      blossomdual, childs, blossomedges := map[], map[], map[];
    }

    /** The vertices `b.leaves()` yields for a blossom, or the vertex itself. */
    ghost function LeafList(b: Node): seq<Cell>
      reads this
      requires Nested(childs) && Known(childs, b)
    {
      match b
      case Leaf(v) => [v]
      case Sub(id) => Drain(childs, childs[id])
    }

    /** The blossom of w can be labelled inner: the base of the blossom of w is matched, and its mate
        and the mate's blossom are unlabelled and differ from w and its blossom. */
    ghost predicate InnerReady(w: Cell)
      reads this
    {
      w in inblossom && inblossom[w] in blossombase &&
      var b := inblossom[w];
      blossombase[b] in mate && mate[blossombase[b]] in inblossom &&
      var m := mate[blossombase[b]];
      var bm := inblossom[m];
      Leaf(m) !in labels && bm !in labels &&
      Leaf(m) != Leaf(w) && Leaf(m) != b && bm != Leaf(w) && bm != b &&
      Nested(childs) && Known(childs, bm)
    }

    /** `assignLabel(w, t, v)`: w and its blossom b get label t and label edge `(v, w)` and lose
        their best edge. An outer blossom queues its vertices; an inner blossom labels the mate of
        its base outer at once, through the edge from the base. The `assert` that w and b are
        unlabelled is the precondition. */
    method AssignLabel(w: Cell, t: int, v: Option<Cell>)
      requires w in inblossom && Leaf(w) !in labels && inblossom[w] !in labels
      requires t == 1 ==> Nested(childs) && Known(childs, inblossom[w])
      requires t == 2 ==> InnerReady(w)
      modifies `labels, `labeledge, `bestedge, `queue
      ensures var b, e := inblossom[w], Edge(v, w);
        t != 2 ==>
          labels == old(labels)[Leaf(w) := t][b := t] &&
          labeledge == old(labeledge)[Leaf(w) := e][b := e] &&
          bestedge == old(bestedge)[Leaf(w) := None][b := None]
      ensures t == 1 ==> queue == old(queue) + LeafList(inblossom[w])
      ensures t != 1 && t != 2 ==> queue == old(queue)
      ensures t == 2 ==>
        var b, e := inblossom[w], Edge(v, w);
        var base := blossombase[b];
        var m := mate[base];
        var bm, e2 := inblossom[m], Some((base, m));
        labels == old(labels)[Leaf(w) := 2][b := 2][Leaf(m) := 1][bm := 1] &&
        labeledge == old(labeledge)[Leaf(w) := e][b := e][Leaf(m) := e2][bm := e2] &&
        bestedge == old(bestedge)[Leaf(w) := None][b := None][Leaf(m) := None][bm := None] &&
        queue == old(queue) + LeafList(bm)
      decreases if t == 2 then 1 else 0
    {
      var b := inblossom[w];
      labels := labels[Leaf(w) := t][b := t];
      var e := Edge(v, w);
      labeledge := labeledge[Leaf(w) := e][b := e];
      bestedge := bestedge[Leaf(w) := None][b := None];
      if t == 1 {
        if b.Sub? {
          var out := Leaves(childs, b.id);
          queue := queue + out;
        } else {
          queue := queue + [b.v];
        }
      } else if t == 2 {
        var base := blossombase[b];
        AssignLabel(mate[base], 1, Some(base));
      }
    }

    /** `scanBlossom(v, w)`: walk up the alternating trees from v and from w in turn, marking each
        outer blossom met with label 5, until a marked blossom is met again (its base is returned)
        or both walks have reached a root (`NoNode`); then the marks are undone. Whatever blossom
        the walk meets where it expects an outer or an inner one has that label, or the call
        raises. */
    method ScanBlossom(v: Cell, w: Cell) returns (r: Scan, ghost path: seq<Node>)
      modifies `labels
      ensures r != Raised ==> labels == old(labels)
      ensures r == Raised ==> Marked(old(labels), labels, path)
      ensures forall k :: 0 <= k < |path| ==> path[k] in old(labels) && old(labels)[path[k]] == 1
      ensures NoDup(path)
      ensures r.Base? ==> exists n :: n in blossombase && blossombase[n] == r.base && n in old(labels) &&
                                      (n in path || old(labels)[n] % 8 >= 4)
    {
      var walked: seq<Node> := [];
      var cur: Option<Cell> := Some(v);
      var other: Option<Cell> := Some(w);
      r := NoBase;
      while cur.Some?
        invariant Marked(old(labels), labels, walked)
        invariant r == NoBase
        decreases |Ones(labels)|
      {
        var x := cur.value;
        if x !in inblossom {
          return Raised, walked;
        }
        var b := inblossom[x];
        if b !in labels {
          return Raised, walked;
        }
        if labels[b] % 8 >= 4 {
          if b !in blossombase {
            return Raised, walked;
          }
          r := Base(blossombase[b]);
          assert old(labels)[b] % 8 >= 4 || b in walked;
          break;
        }
        if labels[b] != 1 {
          return Raised, walked;
        }
        OnesShrink(labels, b);
        NoDupAppend(walked, [b]);
        walked := walked + [b];
        labels := labels[b := 5];
        if b !in labeledge {
          return Raised, walked;
        }
        if labeledge[b].None? {
          cur := None;
        } else {
          var y := labeledge[b].value.0;
          if y !in inblossom {
            return Raised, walked;
          }
          var bt := inblossom[y];
          if bt !in labels || labels[bt] != 2 || bt !in labeledge || labeledge[bt].None? {
            return Raised, walked;
          }
          cur := Some(labeledge[bt].value.0);
        }
        if other.Some? {
          cur, other := other, cur;
        }
      }
      for k := 0 to |walked|
        invariant forall n :: n in labels <==> n in old(labels)
        invariant forall n :: n in labels ==> labels[n] == if n in walked[k..] then 5 else old(labels)[n]
      {
        labels := labels[walked[k] := 1];
        forall n | n in labels
          ensures labels[n] == if n in walked[k + 1..] then 5 else old(labels)[n]
        {
          if n == walked[k] {
            assert n !in walked[k + 1..] by { NoDupSuffix(walked, k); }
          } else {
            assert n in walked[k..] <==> n in walked[k + 1..] by {
              assert walked[k..] == [walked[k]] + walked[k + 1..];
            }
          }
        }
      }
      path := walked;
    }

    function Snapshot(): Snap
      reads this
    {
      Snap(mate, childs, blossomedges, blossombase)
    }

    /** Since the state s0, only blossoms numbered b or less changed. */
    ghost predicate From(s0: Snap, b: nat)
      reads this
    {
      Within(s0, mate, childs, blossomedges, blossombase, b)
    }

    /** The blossom structure the augmenting walks rely on: blossoms nest, each has its lists of
        children and edges, every blossom holding a vertex is known, and parents are numbered above
        their children. */
    ghost predicate Shaped()
      reads this
    {
      Structured(childs, blossomedges, inblossom, blossomparent)
    }

    /** `augmentBlossom(b, v)`: swap matched and unmatched edges along the even-length path through
        blossom b from the child holding v to the base, recursing into sub-blossoms on the way, then
        turn the children and edges of b so that the child holding v comes first and make v the
        base. Only b and the blossoms nested in it change, and no vertex becomes unmatched. */
    method AugmentBlossom(b: nat, v: Cell) returns (ok: bool)
      requires Shaped() && b in childs
      modifies `mate, `childs, `blossomedges, `blossombase
      ensures Shaped() && From(old(Snapshot()), b)
      ensures ok ==> Sub(b) in blossombase && blossombase[Sub(b)] == v
      ensures ok ==> exists i :: (0 <= i < |old(childs)[b]| &&
        old(childs)[b][i] in blossomparent && blossomparent[old(childs)[b][i]] == Some(b) &&
        childs[b] == Rotated(old(childs)[b], i) && blossomedges[b] == Rotated(old(blossomedges)[b], i))
      decreases b, 3
    {
      ghost var start := Snapshot();
      var t := ChildHolding(b, v);
      if t.None? || t.value !in childs[b] {
        return false;
      }
      var cs, es := childs[b], blossomedges[b];
      var i := IndexOf(cs, t.value);
      var j: int := i;
      var jstep: int;
      if i % 2 == 1 {
        j := j - |cs|;
        jstep := 1;
      } else {
        jstep := -1;
      }
      while j != 0
        invariant Shaped() && From(start, b)
        invariant b in childs && childs[b] == cs && b in blossomedges && blossomedges[b] == es
        invariant -|cs| <= j < |cs| && (jstep == 1 || jstep == -1)
        decreases if jstep == 1 then |cs| - j else |cs| + j
      {
        var next;
        ok, next := SwapStep(b, j, jstep, start);
        if !ok {
          return false;
        }
        j := next;
      }
      ok := Turn(b, i, v, start);
    }

    /** The walk `t = v; while blossomparent[t] != b: t = blossomparent[t]`: the child of b holding
        v, or `None` where the walk would raise. */
    method ChildHolding(b: nat, v: Cell) returns (t: Option<Node>)
      requires Ascending(blossomparent)
      ensures t.Some? ==> t.value in blossomparent && blossomparent[t.value] == Some(b)
    {
      var n := Leaf(v);
      while n in blossomparent && blossomparent[n].Some? && blossomparent[n].value != b
        decreases Height(blossomparent, n)
      {
        HeightDrops(blossomparent, n);
        n := Sub(blossomparent[n].value);
      }
      if n !in blossomparent || blossomparent[n].None? {
        return None;
      }
      return Some(n);
    }

    /** One turn of the loop `while j != 0` of `augmentBlossom`: two steps along the children of b,
        recursing into each sub-blossom met, then the edge between them is matched both ways. */
    method SwapStep(b: nat, j: int, jstep: int, ghost start: Snap) returns (ok: bool, next: int)
      requires Shaped() && b in childs && From(start, b)
      requires jstep == 1 || jstep == -1
      modifies `mate, `childs, `blossomedges, `blossombase
      ensures Shaped() && From(start, b)
      ensures b in childs && childs[b] == old(childs[b]) && b in blossomedges && blossomedges[b] == old(blossomedges[b])
      ensures ok ==> next == j + 2 * jstep && -|childs[b]| <= next < |childs[b]|
      ensures ok ==> (StepEdge(blossomedges[b], j + jstep, jstep).Some? &&
                      var e := StepEdge(blossomedges[b], j + jstep, jstep).value;
                      e.0 in mate && e.1 in mate && mate[e.0] == e.1 && mate[e.1] == e.0)
      decreases b, 2
    {
      var cs, es := childs[b], blossomedges[b];
      next := j + jstep;
      var ends := StepEdge(es, next, jstep);
      if !(-|cs| <= next < |cs|) || ends.None? {
        return false, next;
      }
      var (w, x) := ends.value;
      ok := Enter(b, next, w, start);
      next := next + jstep;
      if !ok || !(-|cs| <= next < |cs|) {
        return false, next;
      }
      ok := Enter(b, next, x, start);
      if !ok {
        return false, next;
      }
      WithinMate(start, mate, childs, blossomedges, blossombase, b, w, x);
      mate := mate[w := x][x := w];
      ok := true;
    }

    /** `t = b.childs[j]`, then `if isinstance(t, Blossom): augmentBlossom(t, w)`. */
    method Enter(b: nat, j: int, w: Cell, ghost start: Snap) returns (ok: bool)
      requires Shaped() && b in childs && From(start, b)
      requires -|childs[b]| <= j < |childs[b]|
      modifies `mate, `childs, `blossomedges, `blossombase
      ensures Shaped() && From(start, b)
      ensures b in childs && childs[b] == old(childs[b])
      ensures b in blossomedges <==> b in old(blossomedges)
      ensures b in blossomedges ==> blossomedges[b] == old(blossomedges)[b]
      decreases b, 1
    {
      var t := PyAt(childs[b], j);
      ok := true;
      if t.Sub? {
        ok := Recurse(b, t.id, w, start);
      }
    }

    /** The end of `augmentBlossom`: the children and edges of b turned to start at position i, and
        the base of b taken from its new first child, which must be v. */
    method Turn(b: nat, i: nat, v: Cell, ghost start: Snap) returns (ok: bool)
      requires Shaped() && b in childs && From(start, b)
      requires i < |childs[b]|
      modifies `childs, `blossomedges, `blossombase
      ensures Shaped() && From(start, b)
      ensures childs == old(childs)[b := Rotated(old(childs)[b], i)]
      ensures blossomedges == old(blossomedges)[b := Rotated(old(blossomedges)[b], i)]
      ensures ok ==> Sub(b) in blossombase && blossombase[Sub(b)] == v
    {
      var cs, es := childs[b], blossomedges[b];
      var childs0, edges0 := childs, blossomedges;
      childs := childs[b := Rotated(cs, i)];
      blossomedges := blossomedges[b := Rotated(es, i)];
      TurnKeeps(start, mate, childs0, edges0, blossombase, inblossom, blossomparent, b, i, childs, blossomedges);
      var first := Rotated(cs, i)[0];
      if first !in blossombase {
        return false;
      }
      WithinBase(start, mate, childs, blossomedges, blossombase, b, blossombase[first]);
      blossombase := blossombase[Sub(b) := blossombase[first]];
      ok := blossombase[Sub(b)] == v;
    }

    /** The recursion of `augmentBlossom` into the sub-blossom c of b, seen from the state at the
        start of the call on b. */
    method Recurse(b: nat, c: nat, w: Cell, ghost start: Snap) returns (ok: bool)
      requires Shaped() && c < b && c in childs && From(start, b)
      modifies `mate, `childs, `blossomedges, `blossombase
      ensures Shaped() && From(start, b)
      ensures b in childs <==> b in old(childs)
      ensures b in childs ==> childs[b] == old(childs)[b]
      ensures b in blossomedges <==> b in old(blossomedges)
      ensures b in blossomedges ==> blossomedges[b] == old(blossomedges)[b]
      decreases b, 0
    {
      ghost var before := Snapshot();
      ok := AugmentBlossom(c, w);
      WithinTrans(start, before, mate, childs, blossomedges, blossombase, b, c);
    }

    /** `augmentMatching(v, w)`: match v with w, then walk from each of them up its alternating tree
        to the root, swapping matched and unmatched edges (and augmenting the blossoms passed). `ok`
        is false where one of the assertions fails or a lookup raises. No vertex becomes unmatched
        and both v and w end up matched. */
    method AugmentMatching(v: Cell, w: Cell, ghost rank: map<Node, nat>) returns (ok: bool)
      requires Shaped() && Ranked(inblossom, labeledge, rank)
      modifies `mate, `childs, `blossomedges, `blossombase
      ensures Shaped()
      ensures forall x :: x in old(mate) ==> x in mate
      ensures ok ==> v in mate && w in mate
    {
      ok := AugmentPath(v, w, rank);
      if ok {
        ok := AugmentPath(w, v, rank);
      }
    }

    /** One turn of the outer loop of `augmentMatching`: from the outer vertex s, to be matched with
        j, up to the root of its tree. */
    method AugmentPath(s0: Cell, j0: Cell, ghost rank: map<Node, nat>) returns (ok: bool)
      requires Shaped() && Ranked(inblossom, labeledge, rank)
      modifies `mate, `childs, `blossomedges, `blossombase
      ensures Shaped()
      ensures forall x :: x in old(mate) ==> x in mate
      ensures ok ==> s0 in mate
    {
      var s, j := s0, j0;
      ghost var started := false;
      while true
        invariant Shaped() && Ranked(inblossom, labeledge, rank)
        invariant forall x :: x in old(mate) ==> x in mate
        invariant started ==> s0 in mate
        invariant !started ==> s == s0
        decreases if s in inblossom && inblossom[s] in rank then rank[inblossom[s]] + 1 else 0
      {
        var bs;
        ok, bs := MatchOuter(s, j);
        if !ok {
          return false;
        }
        started := true;
        if labeledge[bs].None? {
          return true;
        }
        ghost var here := s;
        ok, s, j := MatchInner(s);
        if !ok {
          return false;
        }
        assert inblossom[here] in rank && rank[inblossom[s]] < rank[inblossom[here]];
      }
    }

    /** The first half of a step of `augmentMatching`: the outer blossom bs of s must be labelled
        outer and either be a root with an unmatched base or have its label edge leaving from the
        mate of its base; bs is augmented when a blossom, and s is matched with j. */
    method MatchOuter(s: Cell, j: Cell) returns (ok: bool, bs: Node)
      requires Shaped()
      modifies `mate, `childs, `blossomedges, `blossombase
      ensures Shaped()
      ensures forall x :: x in old(mate) ==> x in mate
      ensures ok ==> s in mate && mate[s] == j && s in inblossom && bs == inblossom[s] && bs in labeledge
    {
      if s !in inblossom {
        return false, Leaf(s);
      }
      bs := inblossom[s];
      if bs !in labels || labels[bs] != 1 || bs !in labeledge || bs !in blossombase {
        return false, bs;
      }
      if labeledge[bs].None? && blossombase[bs] in mate {
        return false, bs;
      }
      if labeledge[bs].Some? && (blossombase[bs] !in mate || labeledge[bs].value.0 != mate[blossombase[bs]]) {
        return false, bs;
      }
      if bs.Sub? {
        ok := Augment(bs.id, s);
        if !ok {
          return false, bs;
        }
      }
      mate := mate[s := j];
      ok := true;
    }

    /** The second half: from the outer blossom of s along its label edge to the inner blossom bt,
        which must be labelled inner and based at the end t of that edge; the label edge of bt gives
        the next outer vertex and the vertex it is matched with, bt is augmented when a blossom, and
        the two are matched. A next vertex outside every blossom raises where the next step would. */
    method MatchInner(s: Cell) returns (ok: bool, s': Cell, j': Cell)
      requires Shaped() && s in inblossom && inblossom[s] in labeledge && labeledge[inblossom[s]].Some?
      modifies `mate, `childs, `blossomedges, `blossombase
      ensures Shaped()
      ensures forall x :: x in old(mate) ==> x in mate
      ensures ok ==> Next(inblossom, labeledge, s) == Some(s') && s' in inblossom
      ensures ok ==> j' in mate && mate[j'] == s'
    {
      var t := labeledge[inblossom[s]].value.0;
      if t !in inblossom {
        return false, s, s;
      }
      var bt := inblossom[t];
      if bt !in labels || labels[bt] != 2 || bt !in labeledge || labeledge[bt].None? {
        return false, s, s;
      }
      s', j' := labeledge[bt].value.0, labeledge[bt].value.1;
      if bt !in blossombase || blossombase[bt] != t {
        return false, s', j';
      }
      if bt.Sub? {
        ok := Augment(bt.id, j');
        if !ok {
          return false, s', j';
        }
      }
      mate := mate[j' := s'];
      ok := s' in inblossom;
    }

    /** `augmentBlossom(b, v)` seen from a caller outside every blossom: no vertex becomes unmatched. */
    method Augment(b: nat, v: Cell) returns (ok: bool)
      requires Shaped() && b in childs
      modifies `mate, `childs, `blossomedges, `blossombase
      ensures Shaped()
      ensures forall x :: x in old(mate) ==> x in mate
    {
      ok := AugmentBlossom(b, v);
    }

    /** The dual adjustment at the end of a stage: every vertex in an outer blossom has its dual
        lowered by delta and every vertex in an inner blossom raised; every top-level outer blossom
        has its dual raised and every top-level inner one lowered; all other duals stay. */
    method DualStep(delta: int)
      requires NoDup(G.nodes)
      requires forall v :: v in G.nodes ==> v in inblossom && v in dualvar
      requires forall b :: b in blossomdual ==> Sub(b) in blossomparent
      modifies `dualvar, `blossomdual
      ensures forall v :: v in dualvar <==> v in old(dualvar)
      ensures forall v :: v in dualvar ==>
        dualvar[v] == if v in G.nodes then VertexDual(old(dualvar)[v], Side(labels, inblossom[v]), delta)
                      else old(dualvar)[v]
      ensures forall b :: b in blossomdual <==> b in old(blossomdual)
      ensures forall b :: b in blossomdual ==>
        blossomdual[b] == BlossomDual(old(blossomdual)[b], blossomparent[Sub(b)].None?, Side(labels, Sub(b)), delta)
    {
      var nodes := G.nodes;
      for k := 0 to |nodes|
        invariant blossomdual == old(blossomdual)
        invariant forall v :: v in dualvar <==> v in old(dualvar)
        invariant forall v :: v in dualvar ==>
          dualvar[v] == if v in nodes[..k] then VertexDual(old(dualvar)[v], Side(labels, inblossom[v]), delta)
                        else old(dualvar)[v]
      {
        var v := nodes[k];
        var side := Side(labels, inblossom[v]);
        if side == 1 {
          dualvar := dualvar[v := dualvar[v] - delta];
        } else if side == 2 {
          dualvar := dualvar[v := dualvar[v] + delta];
        }
        assert v !in nodes[..k] by { LaterFresh(nodes, k); }
        assert nodes[..k + 1] == nodes[..k] + [v];
      }
      assert nodes[..|nodes|] == nodes;
      var todo := blossomdual.Keys;
      ghost var stepped := dualvar;
      while todo != {}
        invariant dualvar == stepped
        invariant todo <= blossomdual.Keys
        invariant forall b :: b in blossomdual <==> b in old(blossomdual)
        invariant forall b :: b in blossomdual ==>
          blossomdual[b] == if b in todo then old(blossomdual)[b]
                            else BlossomDual(old(blossomdual)[b], blossomparent[Sub(b)].None?, Side(labels, Sub(b)), delta)
        decreases |todo|
      {
        var b :| b in todo;
        if blossomparent[Sub(b)].None? {
          var side := Side(labels, Sub(b));
          if side == 1 {
            blossomdual := blossomdual[b := blossomdual[b] + delta];
          } else if side == 2 {
            blossomdual := blossomdual[b := blossomdual[b] - delta];
          }
        }
        todo := todo - {b};
      }
    }

    /** i and j are each other's mate. */
    ghost predicate Matched(i: Cell, j: Cell)
      reads this
    {
      i in mate && mate[i] == j && j in mate && mate[j] == i
    }

    /** What `verifyOptimum` demands of the edge (i, j): nothing of a loop; otherwise its slack plus
        twice the dual of every blossom holding both ends is non-negative, and it is zero when the
        edge is matched in either direction, which it must then be in both. A missing key fails. */
    ghost predicate EdgeOk(i: Cell, j: Cell)
      reads this
      requires Ascending(blossomparent)
    {
      i == j ||
      (i in dualvar && j in dualvar &&
       var ci, cj := ChainUp(blossomparent, Leaf(i)), ChainUp(blossomparent, Leaf(j));
       ci.Some? && cj.Some? &&
       var shared := SharedDual(Reverse(ci.value), Reverse(cj.value), blossomdual);
       shared.Some? &&
       var s := dualvar[i] + dualvar[j] - 2 * W(G, i, j) + shared.value;
       s >= 0 &&
       ((i in mate && mate[i] == j) || (j in mate && mate[j] == i) ==> Matched(i, j) && s == 0))
    }

    /** What `verifyOptimum` demands of a blossom with a positive dual: an odd number of edges, and
        every second one of them, from the second on, matched. */
    ghost predicate OddMatched(b: nat)
      reads this
      requires b in blossomedges
    {
      var E := blossomedges[b];
      |E| % 2 == 1 && forall k :: 0 <= k < |E| && k % 2 == 1 ==> Matched(E[k].0, E[k].1)
    }

    /** The assertions of `verifyOptimum` with the vertex dual offset `off`: vertex duals (lifted by
        the offset) and blossom duals non-negative, every edge as `EdgeOk` says, every unmatched
        vertex of dual (lifted by the offset) 0, every blossom of positive dual as `OddMatched`
        says. */
    ghost predicate OptimalWith(off: int)
      reads this
      requires Ascending(blossomparent)
      requires forall b :: b in blossomdual ==> b in blossomedges
    {
      (forall v :: v in dualvar ==> dualvar[v] + off >= 0) &&
      (forall b :: b in blossomdual ==> blossomdual[b] >= 0) &&
      (forall k :: 0 <= k < |G.edges| ==> EdgeOk(G.edges[k].0, G.edges[k].1)) &&
      (forall k :: 0 <= k < |G.nodes| ==>
         G.nodes[k] in mate || (G.nodes[k] in dualvar && dualvar[G.nodes[k]] + off == 0)) &&
      (forall b :: b in blossomdual && blossomdual[b] > 0 ==> OddMatched(b))
    }

    /** `verifyOptimum()` returns without raising: there is a vertex dual (`min` of an empty
        sequence raises) and the assertions hold with the offset taken from the smallest one. */
    ghost predicate Optimum(maxcardinality: bool)
      reads this
      requires Ascending(blossomparent)
      requires forall b :: b in blossomdual ==> b in blossomedges
    {
      exists mn :: IsMin(dualvar, mn) && OptimalWith(Offset(maxcardinality, mn))
    }

    /** `verifyOptimum`: `ok` is false exactly when one of its assertions would fail or a lookup
        would raise. */
    method VerifyOptimum(maxcardinality: bool) returns (ok: bool)
      requires Ascending(blossomparent)
      requires forall b :: b in blossomdual ==> b in blossomedges
      ensures ok <==> Optimum(maxcardinality)
    {
      if dualvar == map[] {
        return false;
      }
      var mn := MinDual();
      var vdualoffset := Offset(maxcardinality, mn);
      assert Optimum(maxcardinality) <==> OptimalWith(vdualoffset) by {
        if Optimum(maxcardinality) {
          var mn' :| IsMin(dualvar, mn') && OptimalWith(Offset(maxcardinality, mn'));
          MinUnique(dualvar, mn, mn');
        }
      }
      if mn + vdualoffset < 0 {
        return false;
      }
      var blossomDualsOk := BlossomDualsNonNegative();
      if !blossomDualsOk {
        return false;
      }
      var edgesOk := CheckEdges();
      if !edgesOk {
        return false;
      }
      var freeOk := CheckUnmatched(vdualoffset);
      if !freeOk {
        return false;
      }
      var blossomsOk := CheckBlossoms();
      if !blossomsOk {
        return false;
      }
      return true;
    }

    /** `len(blossomdual) == 0 or min(blossomdual.values()) >= 0`. */
    method BlossomDualsNonNegative() returns (ok: bool)
      ensures ok <==> forall b :: b in blossomdual ==> blossomdual[b] >= 0
    {
      var todo := blossomdual.Keys;
      while todo != {}
        invariant todo <= blossomdual.Keys
        invariant forall b :: b in blossomdual && b !in todo ==> blossomdual[b] >= 0
        decreases |todo|
      {
        var b :| b in todo;
        if blossomdual[b] < 0 {
          return false;
        }
        todo := todo - {b};
      }
      return true;
    }

    /** The loop over `G.edges(data=True)`. */
    method CheckEdges() returns (ok: bool)
      requires Ascending(blossomparent)
      ensures ok <==> forall k :: 0 <= k < |G.edges| ==> EdgeOk(G.edges[k].0, G.edges[k].1)
    {
      for k := 0 to |G.edges|
        invariant forall l :: 0 <= l < k ==> EdgeOk(G.edges[l].0, G.edges[l].1)
      {
        var (i, j) := G.edges[k];
        var edgeOk := CheckEdge(i, j);
        if !edgeOk {
          return false;
        }
      }
      return true;
    }

    /** The loop over `gnodes`: each vertex is matched or has dual 0 once lifted by the offset. */
    method CheckUnmatched(vdualoffset: int) returns (ok: bool)
      ensures ok <==> forall k :: 0 <= k < |G.nodes| ==>
        G.nodes[k] in mate || (G.nodes[k] in dualvar && dualvar[G.nodes[k]] + vdualoffset == 0)
    {
      for k := 0 to |G.nodes|
        invariant forall l :: 0 <= l < k ==>
          G.nodes[l] in mate || (G.nodes[l] in dualvar && dualvar[G.nodes[l]] + vdualoffset == 0)
      {
        var v := G.nodes[k];
        if v !in mate && (v !in dualvar || dualvar[v] + vdualoffset != 0) {
          return false;
        }
      }
      return true;
    }

    /** The loop over `blossomdual` checking every blossom of positive dual. */
    method CheckBlossoms() returns (ok: bool)
      requires forall b :: b in blossomdual ==> b in blossomedges
      ensures ok <==> forall b :: b in blossomdual && blossomdual[b] > 0 ==> OddMatched(b)
    {
      var todo := blossomdual.Keys;
      while todo != {}
        invariant todo <= blossomdual.Keys
        invariant forall b :: b in blossomdual && b !in todo && blossomdual[b] > 0 ==> OddMatched(b)
        decreases |todo|
      {
        var b :| b in todo;
        if blossomdual[b] > 0 {
          var oddOk := CheckBlossom(b);
          if !oddOk {
            return false;
          }
        }
        todo := todo - {b};
      }
      return true;
    }

    /** `min(dualvar.values())`. */
    method MinDual() returns (mn: int)
      requires dualvar != map[]
      ensures IsMin(dualvar, mn)
    {
      var todo := dualvar.Keys;
      assert todo != {} by {
        var v0 :| v0 in dualvar;
      }
      var v0 :| v0 in todo;
      mn := dualvar[v0];
      todo := todo - {v0};
      while todo != {}
        invariant todo <= dualvar.Keys
        invariant forall v :: v in dualvar && v !in todo ==> mn <= dualvar[v]
        invariant exists v :: v in dualvar && dualvar[v] == mn
        decreases |todo|
      {
        var v :| v in todo;
        if dualvar[v] < mn {
          mn := dualvar[v];
        }
        todo := todo - {v};
      }
    }

    /** The body of the edge loop of `verifyOptimum` for the edge (i, j). */
    method CheckEdge(i: Cell, j: Cell) returns (ok: bool)
      requires Ascending(blossomparent)
      ensures ok <==> EdgeOk(i, j)
    {
      if i == j {
        return true;
      }
      if i !in dualvar || j !in dualvar {
        return false;
      }
      var s := dualvar[i] + dualvar[j] - 2 * W(G, i, j);
      var iblossoms := AncestorsOf(Leaf(i));
      var jblossoms := AncestorsOf(Leaf(j));
      if iblossoms.None? || jblossoms.None? {
        return false;
      }
      var shared := SumShared(Reverse(iblossoms.value), Reverse(jblossoms.value));
      if shared.None? {
        return false;
      }
      s := s + shared.value;
      if s < 0 {
        return false;
      }
      if (i in mate && mate[i] == j) || (j in mate && mate[j] == i) {
        if !(i in mate && mate[i] == j && j in mate && mate[j] == i) || s != 0 {
          return false;
        }
      }
      return true;
    }

    /** The walk up `blossomparent` from n, collecting every node met. */
    method AncestorsOf(n: Node) returns (c: Option<seq<Node>>)
      requires Ascending(blossomparent)
      ensures c == ChainUp(blossomparent, n)
    {
      var acc := [n];
      var cur := n;
      PrependEmpty(ChainUp(blossomparent, n));
      assert acc[..|acc| - 1] == [];
      while cur in blossomparent && blossomparent[cur].Some?
        invariant |acc| > 0 && acc[|acc| - 1] == cur
        invariant ChainUp(blossomparent, n) == Prepend(acc[..|acc| - 1], ChainUp(blossomparent, cur))
        decreases Height(blossomparent, cur)
      {
        HeightDrops(blossomparent, cur);
        var p := Sub(blossomparent[cur].value);
        assert ChainUp(blossomparent, cur) == Prepend([cur], ChainUp(blossomparent, p));
        PrependTwice(acc[..|acc| - 1], [cur], ChainUp(blossomparent, p));
        assert (acc + [p])[..|acc|] == acc[..|acc| - 1] + [cur];
        cur := p;
        acc := acc + [p];
      }
      if cur !in blossomparent {
        return None;
      }
      assert acc[..|acc| - 1] + [cur] == acc;
      return Some(acc);
    }

    /** The loop over `zip(iblossoms, jblossoms)`: twice the dual of each blossom the two reversed
        chains share from the top. */
    method SumShared(ri: seq<Node>, rj: seq<Node>) returns (r: Option<int>)
      ensures r == SharedDual(ri, rj, blossomdual)
    {
      var s := 0;
      var k := 0;
      while k < |ri| && k < |rj|
        invariant 0 <= k <= |ri| && k <= |rj|
        invariant SharedDual(ri, rj, blossomdual) == AddTo(s, SharedDual(ri[k..], rj[k..], blossomdual))
      {
        if ri[k] != rj[k] {
          break;
        }
        assert ri[k..][1..] == ri[k + 1..] && rj[k..][1..] == rj[k + 1..];
        if ri[k].Leaf? || ri[k].id !in blossomdual {
          return None;
        }
        s := s + 2 * blossomdual[ri[k].id];
        k := k + 1;
      }
      return Some(s);
    }

    /** The loop over `b.edges[1::2]` for a blossom of positive dual, after the parity check. */
    method CheckBlossom(b: nat) returns (ok: bool)
      requires b in blossomedges
      ensures ok <==> OddMatched(b)
    {
      var E := blossomedges[b];
      if |E| % 2 != 1 {
        return false;
      }
      var k := 1;
      while k < |E|
        invariant 1 <= k <= |E| && k % 2 == 1
        invariant forall l :: 0 <= l < k && l % 2 == 1 ==> Matched(E[l].0, E[l].1)
        decreases |E| - k
      {
        var (i, j) := E[k];
        if !(i in mate && mate[i] == j && j in mate && mate[j] == i) {
          return false;
        }
        k := k + 2;
      }
      return true;
    }

    /** The check after each stage: every matched vertex is the mate of its own mate. */
    method CheckMates() returns (ok: bool)
      ensures ok <==> MateSymmetric(mate)
    {
      var todo := mate.Keys;
      while todo != {}
        invariant todo <= mate.Keys
        invariant forall v :: v in mate && v !in todo ==> mate[v] in mate && mate[mate[v]] == v
        decreases |todo|
      {
        var v :| v in todo;
        if mate[v] !in mate || mate[mate[v]] != v {
          return false;
        }
        todo := todo - {v};
      }
      return true;
    }
  }

  /** Marking a blossom labelled 1 takes it out of the blossoms labelled 1. */
  lemma OnesShrink(labels: map<Node, int>, b: Node)
    requires b in labels && labels[b] == 1
    ensures Ones(labels[b := 5]) == Ones(labels) - {b}
    ensures |Ones(labels[b := 5])| < |Ones(labels)|
  {
    assert Ones(labels[b := 5]) == Ones(labels) - {b};
  }

  lemma NoDupSuffix<T>(s: seq<T>, k: nat)
    requires NoDup(s) && k < |s|
    ensures s[k] !in s[k + 1..]
  {
  }

  lemma LaterFresh<T>(s: seq<T>, k: nat)
    requires NoDup(s) && k < |s|
    ensures s[k] !in s[..k]
  {
  }
}
