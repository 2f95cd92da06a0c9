/** Cells, pairs and the grid the solvers work on.

    The grid's colour and value tables are concrete. The parts of the grid object whose code is not
    part of this model (`is_forbidden`, `vois` and `all_pairs`) are fields of the grid value and are
    constrained only by what the game's rule text says about them: black cells are forbidden,
    neighbours are adjacent cells, candidate pairs are pairs of adjacent cells. */
module GridModel {
  import opened Lists

  datatype Cell = Cell(row: int, col: int)

  /** A pair of cells, in the order the producing code wrote them. */
  type Pair = (Cell, Cell)

  const White := 0
  const Red := 1
  const Blue := 2
  const Green := 3
  const Black := 4

  datatype Grid = Grid(
    n: nat,
    m: nat,
    color: seq<seq<int>>,
    value: seq<seq<int>>,
    isForbidden: Cell -> bool,
    vois: Cell -> seq<Cell>,
    allPairs: seq<Pair>)

  predicate InBounds(g: Grid, c: Cell) {
    0 <= c.row < g.n && 0 <= c.col < g.m
  }

  /** The colour and value tables are both n rows of m entries. */
  predicate Shaped(g: Grid) {
    |g.color| == g.n && |g.value| == g.n &&
    forall i :: 0 <= i < g.n ==> |g.color[i]| == g.m && |g.value[i]| == g.m
  }

  function ColorAt(g: Grid, c: Cell): int
    requires Shaped(g) && InBounds(g, c)
  {
    g.color[c.row][c.col]
  }

  function ValueAt(g: Grid, c: Cell): int
    requires Shaped(g) && InBounds(g, c)
  {
    g.value[c.row][c.col]
  }

  /** Horizontal or vertical neighbours. */
  predicate Adjacent(a: Cell, b: Cell) {
    (a.row == b.row && (a.col == b.col + 1 || b.col == a.col + 1)) ||
    (a.col == b.col && (a.row == b.row + 1 || b.row == a.row + 1))
  }

  predicate PairInBounds(g: Grid, p: Pair) {
    InBounds(g, p.0) && InBounds(g, p.1)
  }

  predicate AllInBounds(g: Grid, ps: seq<Pair>) {
    forall k :: 0 <= k < |ps| ==> PairInBounds(g, ps[k])
  }

  /** What the game's rule text says about a grid: colours in 0..4, positive values,
      black cells are forbidden, candidate pairs and neighbours are adjacent cells of the grid. */
  ghost predicate WellFormed(g: Grid) {
    Shaped(g) &&
    (forall c :: InBounds(g, c) ==> 0 <= ColorAt(g, c) <= Black && ValueAt(g, c) >= 1) &&
    (forall c :: InBounds(g, c) && ColorAt(g, c) == Black ==> g.isForbidden(c)) &&
    (forall k :: 0 <= k < |g.allPairs| ==>
       PairInBounds(g, g.allPairs[k]) && Adjacent(g.allPairs[k].0, g.allPairs[k].1)) &&
    (forall c, d :: InBounds(g, c) && d in g.vois(c) ==> InBounds(g, d) && Adjacent(c, d))
  }

  function Abs(x: int): int {
    if x < 0 then -x else x
  }

  /** `grid.cost(pair)`: the absolute difference of the two values. */
  function Cost(g: Grid, p: Pair): int
    requires Shaped(g) && PairInBounds(g, p)
  {
    Abs(ValueAt(g, p.0) - ValueAt(g, p.1))
  }

  /** Parity of row + col, which splits the cells into the two sides of the bipartite solvers. */
  predicate IsEven(c: Cell) {
    (c.row + c.col) % 2 == 0
  }

  lemma AdjacentCrossesParity(a: Cell, b: Cell)
    requires Adjacent(a, b)
    ensures IsEven(a) != IsEven(b) && a != b
  {
  }

  /** The cells of row i, left to right. */
  function Row(i: int, m: nat): (r: seq<Cell>)
    ensures |r| == m
    ensures forall k :: 0 <= k < m ==> r[k] == Cell(i, k)
  {
    if m == 0 then [] else Row(i, m - 1) + [Cell(i, m - 1)]
  }

  /** All cells in row-major order, as the nested `for i in range(n): for j in range(m)` loops visit them. */
  function RowMajor(n: nat, m: nat): seq<Cell> {
    if n == 0 then [] else RowMajor(n - 1, m) + Row(n - 1, m)
  }

  /** The row-major order visits exactly the cells of the n × m grid, each once. */
  lemma RowMajorCells(n: nat, m: nat)
    ensures forall c :: c in RowMajor(n, m) <==> 0 <= c.row < n && 0 <= c.col < m
    ensures NoDup(RowMajor(n, m))
  {
    RowMajorMembers(n, m);
    RowMajorNoDup(n, m);
  }

  lemma RowHas(i: int, m: nat, c: Cell)
    ensures c in Row(i, m) <==> c.row == i && 0 <= c.col < m
  {
    var row := Row(i, m);
    if c in row {
      var k :| 0 <= k < m && row[k] == c;
    }
    if c.row == i && 0 <= c.col < m {
      assert row[c.col] == c;
    }
  }

  lemma RowMembers(i: int, m: nat)
    ensures forall c :: c in Row(i, m) <==> c.row == i && 0 <= c.col < m
  {
    forall c ensures c in Row(i, m) <==> c.row == i && 0 <= c.col < m {
      RowHas(i, m, c);
    }
  }

  lemma {:induction false} RowMajorHas(n: nat, m: nat, c: Cell)
    ensures c in RowMajor(n, m) <==> 0 <= c.row < n && 0 <= c.col < m
  {
    if n > 0 {
      RowMajorHas(n - 1, m, c);
      RowHas(n - 1, m, c);
      assert RowMajor(n, m) == RowMajor(n - 1, m) + Row(n - 1, m);
    }
  }

  lemma RowMajorMembers(n: nat, m: nat)
    ensures forall c :: c in RowMajor(n, m) <==> 0 <= c.row < n && 0 <= c.col < m
  {
    forall c ensures c in RowMajor(n, m) <==> 0 <= c.row < n && 0 <= c.col < m {
      RowMajorHas(n, m, c);
    }
  }

  lemma {:induction false} RowMajorNoDup(n: nat, m: nat)
    ensures NoDup(RowMajor(n, m))
  {
    if n > 0 {
      RowMajorNoDup(n - 1, m);
      var pre, row := RowMajor(n - 1, m), Row(n - 1, m);
      forall x | x in pre ensures x !in row {
        RowMajorHas(n - 1, m, x);
        RowHas(n - 1, m, x);
      }
      NoDupAppend(pre, row);
    }
  }

  /** Every cell occurring in a list of pairs (the `taken` set of `score`). */
  function CellsOf(ps: seq<Pair>): (r: set<Cell>)
    ensures forall c :: c in r <==> exists k :: 0 <= k < |ps| && InPair(c, ps[k])
  {
    (set k | 0 <= k < |ps| :: ps[k].0) + (set k | 0 <= k < |ps| :: ps[k].1)
  }

  lemma CellsOfAppend(ps: seq<Pair>, qs: seq<Pair>)
    ensures CellsOf(ps + qs) == CellsOf(ps) + CellsOf(qs)
  {
    var all := ps + qs;
    forall c | c in CellsOf(all) ensures c in CellsOf(ps) + CellsOf(qs) {
      var k :| 0 <= k < |all| && (all[k].0 == c || all[k].1 == c);
      if k < |ps| {
        assert all[k] == ps[k];
      } else {
        assert all[k] == qs[k - |ps|];
      }
    }
    forall c | c in CellsOf(ps) ensures c in CellsOf(all) {
      var k :| 0 <= k < |ps| && (ps[k].0 == c || ps[k].1 == c);
      assert all[k] == ps[k];
    }
    forall c | c in CellsOf(qs) ensures c in CellsOf(all) {
      var k :| 0 <= k < |qs| && (qs[k].0 == c || qs[k].1 == c);
      assert all[|ps| + k] == qs[k];
    }
  }

  /** Whether cell c occurs in pair p (`c in pair`). */
  predicate InPair(c: Cell, p: Pair) {
    p.0 == c || p.1 == c
  }

  lemma RemoveAtCells(ps: seq<Pair>, k: nat)
    requires Disjoint(ps) && k < |ps|
    ensures CellsOf(ps[..k] + ps[k + 1..]) == CellsOf(ps) - {ps[k].0, ps[k].1}
  {
    CellsOfAppend(ps[..k], ps[k + 1..]);
    SplitCells(ps, k);
    PairNotBefore(ps, k);
    PairNotAfter(ps, k);
  }

  lemma CellsOfSingle(p: Pair)
    ensures CellsOf([p]) == {p.0, p.1}
  {
    assert [p][0] == p;
  }

  lemma SplitCells(ps: seq<Pair>, k: nat)
    requires k < |ps|
    ensures CellsOf(ps) == CellsOf(ps[..k]) + {ps[k].0, ps[k].1} + CellsOf(ps[k + 1..])
  {
    var pre, post := ps[..k], ps[k + 1..];
    forall c | c in CellsOf(ps) ensures c in CellsOf(pre) + {ps[k].0, ps[k].1} + CellsOf(post) {
      var l :| 0 <= l < |ps| && InPair(c, ps[l]);
      if l < k {
        assert ps[l] == pre[l];
      } else if l > k {
        assert ps[l] == post[l - k - 1];
      }
    }
    forall c | c in CellsOf(pre) ensures c in CellsOf(ps) {
      var l :| 0 <= l < |pre| && InPair(c, pre[l]);
      assert pre[l] == ps[l];
    }
    forall c | c in CellsOf(post) ensures c in CellsOf(ps) {
      var l :| 0 <= l < |post| && InPair(c, post[l]);
      assert post[l] == ps[k + 1 + l];
    }
  }

  lemma PairNotBefore(ps: seq<Pair>, k: nat)
    requires Disjoint(ps) && k < |ps|
    ensures ps[k].0 !in CellsOf(ps[..k]) && ps[k].1 !in CellsOf(ps[..k])
  {
  }

  lemma PairNotAfter(ps: seq<Pair>, k: nat)
    requires Disjoint(ps) && k < |ps|
    ensures ps[k].0 !in CellsOf(ps[k + 1..]) && ps[k].1 !in CellsOf(ps[k + 1..])
  {
  }

  /** No cell occurs twice in a list of pairs, and no pair joins a cell to itself. */
  predicate Disjoint(ps: seq<Pair>) {
    forall k, l :: 0 <= k < |ps| && 0 <= l < |ps| ==>
      ps[k].0 != ps[l].1 && (k != l ==> ps[k].0 != ps[l].0 && ps[k].1 != ps[l].1)
  }

  lemma DisjointAppend(ps: seq<Pair>, p: Pair)
    requires Disjoint(ps) && p.0 != p.1 && p.0 !in CellsOf(ps) && p.1 !in CellsOf(ps)
    ensures Disjoint(ps + [p])
  {
  }
}
