/** The greedy heuristics (`SolverGreedy.run`, `SolverGreedy2.run`): scan cells in some order and
    pair each still unused cell with the cheapest candidate partner that is also unused. */
module Greedy {
  import opened Lists
  import opened GridModel
  import opened Scoring

  /** `pair_dict[c]`: the candidate pairs that contain c, in `all_pairs` order. */
  function Incident(pairs: seq<Pair>, c: Cell): seq<Pair> {
    if pairs == [] then []
    else
      var p := pairs[|pairs| - 1];
      Incident(pairs[..|pairs| - 1], c) + (if p.0 == c then [p] else []) + (if p.1 == c then [p] else [])
  }

  /** The keys of `pair_dict` in insertion order: every endpoint of a candidate pair, by first
      appearance. */
  function KeyOrder(pairs: seq<Pair>): seq<Cell> {
    if pairs == [] then []
    else
      var p := pairs[|pairs| - 1];
      AddKey(AddKey(KeyOrder(pairs[..|pairs| - 1]), p.0), p.1)
  }

  /** The candidate pairs of c are exactly the pairs that contain c. */
  lemma {:induction false} IncidentMembers(pairs: seq<Pair>, c: Cell)
    ensures forall p :: p in Incident(pairs, c) <==> p in pairs && InPair(c, p)
  {
    if pairs != [] {
      var pre := pairs[..|pairs| - 1];
      IncidentMembers(pre, c);
      assert pairs == pre + [pairs[|pairs| - 1]];
    }
  }

  /** The keys of `pair_dict` are the cells of the candidate pairs, each listed once. */
  lemma {:induction false} KeyOrderMembers(pairs: seq<Pair>)
    ensures NoDup(KeyOrder(pairs))
    ensures forall c :: c in KeyOrder(pairs) <==> c in CellsOf(pairs)
  {
    if pairs != [] {
      var pre, p := pairs[..|pairs| - 1], pairs[|pairs| - 1];
      KeyOrderMembers(pre);
      var keys := KeyOrder(pre);
      var keys' := AddKey(keys, p.0);
      if p.0 !in keys {
        NoDupAppend(keys, [p.0]);
      }
      if p.1 !in keys' {
        NoDupAppend(keys', [p.1]);
      }
      assert pairs == pre + [p];
      CellsOfAppend(pre, [p]);
      assert CellsOf([p]) == {p.0, p.1};
    }
  }

  /** Python's dictionary insertion: a key not yet present goes to the end. */
  function AddKey(keys: seq<Cell>, c: Cell): seq<Cell> {
    if c in keys then keys else keys + [c]
  }

  /** Reading a defaultdict of lists: a missing key reads as the empty list. */
  function Lookup(dict: map<Cell, seq<Pair>>, c: Cell): seq<Pair> {
    if c in dict then dict[c] else []
  }

  /** `pair_dict[c].append(p)` on a defaultdict. */
  function Append(dict: map<Cell, seq<Pair>>, c: Cell, p: Pair): map<Cell, seq<Pair>> {
    dict[c := Lookup(dict, c) + [p]]
  }

  lemma LookupAppend(dict: map<Cell, seq<Pair>>, c: Cell, p: Pair, d: Cell)
    ensures Lookup(Append(dict, c, p), d) == Lookup(dict, d) + (if c == d then [p] else [])
  {
  }

  /** The invariant of the dictionary-building loop after the first k candidate pairs. */
  ghost predicate DictBuilt(pairs: seq<Pair>, k: nat, dict: map<Cell, seq<Pair>>, keys: seq<Cell>)
    requires k <= |pairs|
  {
    keys == KeyOrder(pairs[..k]) &&
    (forall c :: c in dict <==> c in keys) &&
    forall c :: Lookup(dict, c) == Incident(pairs[..k], c)
  }

  lemma KeyOrderExtend(pairs: seq<Pair>, k: nat)
    requires k < |pairs|
    ensures KeyOrder(pairs[..k + 1]) == AddKey(AddKey(KeyOrder(pairs[..k]), pairs[k].0), pairs[k].1)
  {
    assert pairs[..k + 1][..k] == pairs[..k];
  }

  lemma IncidentExtend(pairs: seq<Pair>, k: nat, c: Cell)
    requires k < |pairs|
    ensures Incident(pairs[..k + 1], c) ==
      Incident(pairs[..k], c) + (if pairs[k].0 == c then [pairs[k]] else []) +
      (if pairs[k].1 == c then [pairs[k]] else [])
  {
    assert pairs[..k + 1][..k] == pairs[..k];
  }

  lemma DictStep(pairs: seq<Pair>, k: nat, dict: map<Cell, seq<Pair>>, keys: seq<Cell>)
    requires k < |pairs| && DictBuilt(pairs, k, dict, keys)
    ensures var p := pairs[k];
      DictBuilt(pairs, k + 1, Append(Append(dict, p.0, p), p.1, p), AddKey(AddKey(keys, p.0), p.1))
  {
    var p := pairs[k];
    var d2 := Append(Append(dict, p.0, p), p.1, p);
    KeyOrderExtend(pairs, k);
    forall c ensures Lookup(d2, c) == Incident(pairs[..k + 1], c) {
      IncidentExtend(pairs, k, c);
      LookupAppend(dict, p.0, p, c);
      LookupAppend(Append(dict, p.0, p), p.1, p, c);
    }
  }

  /** Building `pair_dict` by appending every candidate pair to the lists of both its cells. The
      dictionary is returned with its keys in insertion order. */
  method BuildPairDict(pairs: seq<Pair>) returns (dict: map<Cell, seq<Pair>>, keys: seq<Cell>)
    ensures keys == KeyOrder(pairs)
    ensures forall c :: c in dict <==> c in keys
    ensures forall c :: Lookup(dict, c) == Incident(pairs, c)
  {
    dict, keys := map[], [];
    var k := 0;
    while k < |pairs|
      invariant 0 <= k <= |pairs|
      invariant DictBuilt(pairs, k, dict, keys)
    {
      var p := pairs[k];
      DictStep(pairs, k, dict, keys);
      keys, dict := AddKey(keys, p.0), Append(dict, p.0, p);
      keys, dict := AddKey(keys, p.1), Append(dict, p.1, p);
      k := k + 1;
    }
    assert pairs[..k] == pairs;
  }

  /** The candidates the generator inside `min` yields: pairs with at least one unused cell. */
  function Available(ps: seq<Pair>, used: set<Cell>): seq<Pair> {
    if ps == [] then []
    else
      var p := ps[|ps| - 1];
      Available(ps[..|ps| - 1], used) + (if p.0 !in used || p.1 !in used then [p] else [])
  }

  /** The filter keeps exactly the pairs with an unused cell. */
  lemma {:induction false} AvailableMembers(ps: seq<Pair>, used: set<Cell>)
    ensures forall p :: p in Available(ps, used) <==> p in ps && (p.0 !in used || p.1 !in used)
  {
    if ps != [] {
      var pre := ps[..|ps| - 1];
      AvailableMembers(pre, used);
      assert ps == pre + [ps[|ps| - 1]];
    }
  }

  /** Python's `min(candidates, key=cost)`: the first candidate of least cost. */
  function FirstMin(g: Grid, cands: seq<Pair>): (k: nat)
    requires cands != [] && Shaped(g) && AllInBounds(g, cands)
    ensures k < |cands|
    ensures forall j :: 0 <= j < |cands| ==> Cost(g, cands[k]) <= Cost(g, cands[j])
    ensures forall j :: 0 <= j < k ==> Cost(g, cands[j]) > Cost(g, cands[k])
  {
    if |cands| == 1 then 0
    else
      var last := |cands| - 1;
      var k := FirstMin(g, cands[..last]);
      if Cost(g, cands[last]) < Cost(g, cands[k]) then last else k
  }

  /** The cell of a pair other than c. */
  function Partner(p: Pair, c: Cell): Cell {
    if p.0 == c then p.1 else p.0
  }

  /** Every candidate of c that the filter keeps is a candidate pair of the grid containing c. */
  lemma CandidatesOfCell(g: Grid, c: Cell, used: set<Cell>)
    requires AllInBounds(g, g.allPairs)
    ensures forall p :: p in Available(Incident(g.allPairs, c), used) ==>
      p in g.allPairs && InPair(c, p) && (p.0 !in used || p.1 !in used)
    ensures AllInBounds(g, Available(Incident(g.allPairs, c), used))
  {
    IncidentMembers(g.allPairs, c);
    AvailableMembers(Incident(g.allPairs, c), used);
    var cands := Available(Incident(g.allPairs, c), used);
    forall k | 0 <= k < |cands| ensures PairInBounds(g, cands[k]) {
      assert cands[k] in g.allPairs;
    }
  }

  datatype GreedyState = GreedyState(used: set<Cell>, res: seq<Pair>)

  /** One iteration of the scanning loop, for the cell c. */
  function Step(g: Grid, st: GreedyState, c: Cell): GreedyState
    requires Shaped(g) && AllInBounds(g, g.allPairs)
  {
    if c in st.used then st
    else
      var used := st.used + {c};
      var cands := Available(Incident(g.allPairs, c), used);
      if cands == [] then GreedyState(used, st.res)
      else
        CandidatesOfCell(g, c, used);
        var partner := Partner(cands[FirstMin(g, cands)], c);
        GreedyState(used + {partner}, st.res + [(c, partner)])
  }

  /** The scanning loop over the cells of `order`, from no used cell and no pair. */
  function Scan(g: Grid, order: seq<Cell>): GreedyState
    requires Shaped(g) && AllInBounds(g, g.allPairs)
  {
    if order == [] then GreedyState({}, [])
    else Step(g, Scan(g, order[..|order| - 1]), order[|order| - 1])
  }

  lemma ScanAppend(g: Grid, order: seq<Cell>, c: Cell, st: GreedyState, st': GreedyState)
    requires Shaped(g) && AllInBounds(g, g.allPairs)
    requires st == Scan(g, order) && st' == Step(g, st, c)
    ensures st' == Scan(g, order + [c])
  {
    assert (order + [c])[..|order|] == order;
  }

  /** The scan is the fold of Step over the order: any run of states linked by Step ends in it. */
  lemma {:induction false} ScanFold(g: Grid, order: seq<Cell>, states: seq<GreedyState>)
    requires Shaped(g) && AllInBounds(g, g.allPairs)
    requires |states| == |order| + 1 && states[0] == GreedyState({}, [])
    requires forall k :: 0 <= k < |order| ==> states[k + 1] == Step(g, states[k], order[k])
    ensures Scan(g, order) == states[|order|]
  {
    if order != [] {
      var n := |order| - 1;
      ScanFold(g, order[..n], states[..n + 1]);
    }
  }

  /** A pair that is a candidate of the grid, written in either order. */
  predicate IsCandidate(g: Grid, p: Pair) {
    p in g.allPairs || (p.1, p.0) in g.allPairs
  }

  /** What the greedy state keeps: the pairs are disjoint candidate pairs, and all their cells are
      used. */
  predicate GreedyInv(g: Grid, st: GreedyState) {
    Disjoint(st.res) && CellsOf(st.res) <= st.used &&
    forall k :: 0 <= k < |st.res| ==> IsCandidate(g, st.res[k])
  }

  /** One step for an unused cell c: c becomes used. If no candidate pair of c has an unused other
      cell, nothing else changes. Otherwise the pair appended is (c, q) for the first cheapest such
      candidate: q is unused, the pair is a candidate of the grid, and no candidate pair of c with an
      unused other cell costs less. */
  lemma StepChoosesCheapest(g: Grid, st: GreedyState, c: Cell)
    requires WellFormed(g) && AllInBounds(g, g.allPairs) && c !in st.used
    ensures var cands := Available(Incident(g.allPairs, c), st.used + {c});
      cands == [] ==> Step(g, st, c) == GreedyState(st.used + {c}, st.res)
    ensures var cands := Available(Incident(g.allPairs, c), st.used + {c});
      cands != [] ==>
        AllInBounds(g, cands) &&
        var best := cands[FirstMin(g, cands)];
        var q := Partner(best, c);
        Step(g, st, c) == GreedyState(st.used + {c, q}, st.res + [(c, q)]) &&
        q != c && q !in st.used && IsCandidate(g, (c, q)) &&
        forall p :: p in g.allPairs && InPair(c, p) && Partner(p, c) !in st.used + {c} ==>
          Cost(g, best) <= Cost(g, p)
  {
    var used := st.used + {c};
    var cands := Available(Incident(g.allPairs, c), used);
    CandidatesOfCell(g, c, used);
    if cands != [] {
      var best := cands[FirstMin(g, cands)];
      var q := Partner(best, c);
      assert Step(g, st, c) == GreedyState(used + {q}, st.res + [(c, q)]);
      assert best in cands;
      AdjacentCrossesParity(best.0, best.1);
      CheapestAvailable(g, c, used);
    }
  }

  lemma CheapestAvailable(g: Grid, c: Cell, used: set<Cell>)
    requires AllInBounds(g, g.allPairs) && Shaped(g)
    requires Available(Incident(g.allPairs, c), used) != []
    ensures var cands := Available(Incident(g.allPairs, c), used);
      AllInBounds(g, cands) &&
      forall p :: p in g.allPairs && InPair(c, p) && (p.0 !in used || p.1 !in used) ==>
        Cost(g, cands[FirstMin(g, cands)]) <= Cost(g, p)
  {
    var cands := Available(Incident(g.allPairs, c), used);
    CandidatesOfCell(g, c, used);
    IncidentMembers(g.allPairs, c);
    AvailableMembers(Incident(g.allPairs, c), used);
    forall p | p in g.allPairs && InPair(c, p) && (p.0 !in used || p.1 !in used)
      ensures Cost(g, cands[FirstMin(g, cands)]) <= Cost(g, p)
    {
      var j :| 0 <= j < |cands| && cands[j] == p;
    }
  }

  /** When one candidate pair of an unused cell c, with unused other cell q, is strictly cheaper than
      every other candidate of c with an unused other cell, the step pairs c with q. */
  lemma StepPicksStrictMinimum(g: Grid, st: GreedyState, c: Cell, q: Cell)
    requires WellFormed(g) && AllInBounds(g, g.allPairs) && c !in st.used
    requires q != c && q !in st.used && (c, q) in g.allPairs
    requires forall p :: (p in g.allPairs && InPair(c, p) && Partner(p, c) !in st.used + {c} &&
      Partner(p, c) != q) ==> Cost(g, (c, q)) < Cost(g, p)
    ensures Step(g, st, c) == GreedyState(st.used + {c, q}, st.res + [(c, q)])
  {
    var used := st.used + {c};
    var cands := Available(Incident(g.allPairs, c), used);
    IncidentMembers(g.allPairs, c);
    AvailableMembers(Incident(g.allPairs, c), used);
    assert (c, q) in cands;
    StepChoosesCheapest(g, st, c);
    CandidatesOfCell(g, c, used);
    var best := cands[FirstMin(g, cands)];
    assert best in cands;
  }

  lemma AppendKeepsInv(g: Grid, st: GreedyState, c: Cell, q: Cell)
    requires GreedyInv(g, st) && c !in st.used && q !in st.used && c != q && IsCandidate(g, (c, q))
    ensures GreedyInv(g, GreedyState(st.used + {c, q}, st.res + [(c, q)]))
  {
    DisjointAppend(st.res, (c, q));
    CellsOfAppend(st.res, [(c, q)]);
    CellsOfSingle((c, q));
    var res := st.res + [(c, q)];
    assert forall k :: 0 <= k < |st.res| ==> res[k] == st.res[k];
  }

  /** Each step keeps the pairs disjoint, made of candidate pairs, and covered by `used`. */
  lemma StepKeepsInv(g: Grid, st: GreedyState, c: Cell)
    requires WellFormed(g) && AllInBounds(g, g.allPairs) && GreedyInv(g, st)
    ensures GreedyInv(g, Step(g, st, c))
    ensures st.used <= Step(g, st, c).used && c in Step(g, st, c).used
  {
    if c !in st.used {
      StepChoosesCheapest(g, st, c);
      var cands := Available(Incident(g.allPairs, c), st.used + {c});
      if cands != [] {
        AppendKeepsInv(g, st, c, Partner(cands[FirstMin(g, cands)], c));
      }
    }
  }

  /** Whatever the scanning order, the greedy result is a list of disjoint candidate pairs, each
      written with the scanned cell first, and every scanned cell ends up used. */
  lemma {:induction false} ScanKeepsInv(g: Grid, order: seq<Cell>)
    requires WellFormed(g) && AllInBounds(g, g.allPairs)
    ensures GreedyInv(g, Scan(g, order))
    ensures forall c :: c in order ==> c in Scan(g, order).used
  {
    if order != [] {
      var pre := order[..|order| - 1];
      ScanKeepsInv(g, pre);
      StepKeepsInv(g, Scan(g, pre), order[|order| - 1]);
      assert forall c :: c in order ==> c in pre || c == order[|order| - 1];
    }
  }

  /** The body of the scanning loop for the cell c, given c's list in `pair_dict`: skip c if it is
      used; otherwise mark it used and pair it with the other cell of its first cheapest candidate
      whose other cell is unused, if there is one. */
  method Visit(g: Grid, incident: seq<Pair>, c: Cell, used: set<Cell>, res: seq<Pair>)
    returns (used': set<Cell>, res': seq<Pair>)
    requires Shaped(g) && AllInBounds(g, g.allPairs) && incident == Incident(g.allPairs, c)
    ensures GreedyState(used', res') == Step(g, GreedyState(used, res), c)
  {
    used', res' := used, res;
    if c !in used {
      used' := used' + {c};
      var cands := Available(incident, used');
      if cands != [] {
        CandidatesOfCell(g, c, used');
        var best := cands[FirstMin(g, cands)];
        if best.0 == c {
          res' := res' + [(c, best.1)];
          used' := used' + {best.1};
        } else {
          res' := res' + [(c, best.0)];
          used' := used' + {best.0};
        }
      }
    }
  }

  lemma RowStep(done: seq<Cell>, i: nat, j: nat)
    ensures done + Row(i, j + 1) == (done + Row(i, j)) + [Cell(i, j)]
  {
  }

  /** The inner `for j in range(m)` loop of `SolverGreedy.run` over row i. */
  method ScanRow(g: Grid, pairDict: map<Cell, seq<Pair>>, i: nat, ghost done: seq<Cell>,
                 used: set<Cell>, res: seq<Pair>)
    returns (used': set<Cell>, res': seq<Pair>)
    requires Shaped(g) && AllInBounds(g, g.allPairs)
    requires forall c :: Lookup(pairDict, c) == Incident(g.allPairs, c)
    requires GreedyState(used, res) == Scan(g, done)
    ensures GreedyState(used', res') == Scan(g, done + Row(i, g.m))
  {
    used', res' := used, res;
    var j := 0;
    assert done + Row(i, 0) == done;
    while j < g.m
      invariant 0 <= j <= g.m
      invariant GreedyState(used', res') == Scan(g, done + Row(i, j))
    {
      var c := Cell(i, j);
      ghost var before := GreedyState(used', res');
      used', res' := Visit(g, Lookup(pairDict, c), c, used', res');
      ScanAppend(g, done + Row(i, j), c, before, GreedyState(used', res'));
      RowStep(done, i, j);
      j := j + 1;
    }
  }

  /** `SolverGreedy.run`: scan the cells row by row. */
  method RunGreedy(g: Grid) returns (res: seq<Pair>)
    requires Shaped(g) && AllInBounds(g, g.allPairs)
    ensures res == Scan(g, RowMajor(g.n, g.m)).res
  {
    var used: set<Cell> := {};
    res := [];
    var pairDict, _ := BuildPairDict(g.allPairs);
    var i := 0;
    while i < g.n
      invariant 0 <= i <= g.n
      invariant GreedyState(used, res) == Scan(g, RowMajor(i, g.m))
    {
      ghost var next := RowMajor(i + 1, g.m);
      assert next == RowMajor(i, g.m) + Row(i, g.m);
      used, res := ScanRow(g, pairDict, i, RowMajor(i, g.m), used, res);
      i := i + 1;
    }
  }

  /** `SolverGreedy2.run`: scan the keys of `pair_dict` in insertion order. */
  method RunGreedy2(g: Grid) returns (res: seq<Pair>)
    requires Shaped(g) && AllInBounds(g, g.allPairs)
    ensures res == Scan(g, KeyOrder(g.allPairs)).res
  {
    var used: set<Cell> := {};
    res := [];
    var pairDict, keys := BuildPairDict(g.allPairs);
    var k := 0;
    ghost var done: seq<Cell> := [];
    while k < |keys|
      invariant 0 <= k <= |keys| && done == keys[..k]
      invariant GreedyState(used, res) == Scan(g, done)
    {
      var c := keys[k];
      assert c in keys;
      ghost var before := GreedyState(used, res);
      used, res := Visit(g, pairDict[c], c, used, res);
      ScanAppend(g, done, c, before, GreedyState(used, res));
      TakeOneMore(keys, k);
      done := done + [c];
      k := k + 1;
    }
    assert keys[..k] == keys;
  }

  /** Both greedy solvers return disjoint candidate pairs; the row-major one leaves no cell of the
      grid unvisited. */
  lemma GreedyResultsAreMatchings(g: Grid)
    requires WellFormed(g) && AllInBounds(g, g.allPairs)
    ensures GreedyInv(g, Scan(g, RowMajor(g.n, g.m)))
    ensures GreedyInv(g, Scan(g, KeyOrder(g.allPairs)))
    ensures forall c :: InBounds(g, c) ==> c in Scan(g, RowMajor(g.n, g.m)).used
  {
    ScanKeepsInv(g, RowMajor(g.n, g.m));
    ScanKeepsInv(g, KeyOrder(g.allPairs));
    RowMajorCells(g.n, g.m);
  }
}
