/** The score of a list of pairs (`Solver.score`) and how it decomposes into pair weights. */
module Scoring {
  import opened Lists
  import opened GridModel

  /** Sum of `grid.cost` over the listed pairs. */
  function SumCosts(g: Grid, ps: seq<Pair>): int
    requires Shaped(g) && AllInBounds(g, ps)
  {
    if ps == [] then 0 else SumCosts(g, ps[..|ps| - 1]) + Cost(g, ps[|ps| - 1])
  }

  predicate CellsInBounds(g: Grid, cells: seq<Cell>) {
    forall k :: 0 <= k < |cells| ==> InBounds(g, cells[k])
  }

  /** Sum of the values of the listed cells that are neither taken nor forbidden. */
  function UnpairedValue(g: Grid, cells: seq<Cell>, taken: set<Cell>): int
    requires Shaped(g) && CellsInBounds(g, cells)
  {
    if cells == [] then 0
    else
      var c := cells[|cells| - 1];
      UnpairedValue(g, cells[..|cells| - 1], taken) +
      (if c !in taken && !g.isForbidden(c) then ValueAt(g, c) else 0)
  }

  lemma AllCellsInBounds(g: Grid)
    ensures CellsInBounds(g, RowMajor(g.n, g.m)) && NoDup(RowMajor(g.n, g.m))
  {
    RowMajorCells(g.n, g.m);
  }

  /** `Solver.score`: the cost of every pair plus the value of every cell of the grid that is in
      no pair and is not forbidden. */
  function Score(g: Grid, ps: seq<Pair>): int
    requires Shaped(g) && AllInBounds(g, ps)
  {
    AllCellsInBounds(g);
    SumCosts(g, ps) + UnpairedValue(g, RowMajor(g.n, g.m), CellsOf(ps))
  }

  /** Reference definition: the values of the non-forbidden cells, summed row by row. */
  function RowTotal(g: Grid, i: int, j: nat): int
    requires Shaped(g) && 0 <= i < g.n && j <= g.m
  {
    if j == 0 then 0
    else RowTotal(g, i, j - 1) + (if g.isForbidden(Cell(i, j - 1)) then 0 else g.value[i][j - 1])
  }

  function FreeTotal(g: Grid, rows: nat): int
    requires Shaped(g) && rows <= g.n
  {
    if rows == 0 then 0 else FreeTotal(g, rows - 1) + RowTotal(g, rows - 1, g.m)
  }

  lemma {:induction false} UnpairedValueAppend(g: Grid, s: seq<Cell>, t: seq<Cell>, taken: set<Cell>)
    requires Shaped(g) && CellsInBounds(g, s) && CellsInBounds(g, t)
    ensures CellsInBounds(g, s + t)
    ensures UnpairedValue(g, s + t, taken) == UnpairedValue(g, s, taken) + UnpairedValue(g, t, taken)
  {
    if t != [] {
      var t' := t[..|t| - 1];
      DropLastOfAppend(s, t);
      UnpairedValueAppend(g, s, t', taken);
    } else {
      assert s + t == s;
    }
  }

  lemma {:induction false} UnpairedRow(g: Grid, i: int, j: nat)
    requires Shaped(g) && 0 <= i < g.n && j <= g.m
    ensures CellsInBounds(g, Row(i, j))
    ensures UnpairedValue(g, Row(i, j), {}) == RowTotal(g, i, j)
  {
    if j > 0 {
      UnpairedRow(g, i, j - 1);
      assert Row(i, j)[..j - 1] == Row(i, j - 1);
    }
  }

  /** With no pairs (the state a solver starts in) the score is the sum of every non-forbidden value. */
  lemma {:induction false} ScoreOfNoPairs(g: Grid)
    requires Shaped(g)
    ensures Score(g, []) == FreeTotal(g, g.n)
  {
    AllCellsInBounds(g);
    RowsSum(g, g.n);
    assert CellsOf([]) == {};
  }

  lemma {:induction false} RowsSum(g: Grid, rows: nat)
    requires Shaped(g) && rows <= g.n
    ensures CellsInBounds(g, RowMajor(rows, g.m))
    ensures UnpairedValue(g, RowMajor(rows, g.m), {}) == FreeTotal(g, rows)
  {
    if rows > 0 {
      RowsSum(g, rows - 1);
      UnpairedRow(g, rows - 1, g.m);
      UnpairedValueAppend(g, RowMajor(rows - 1, g.m), Row(rows - 1, g.m), {});
    }
  }

  function Min(a: int, b: int): int {
    if a <= b then a else b
  }

  /** The edge weight used by the weighted matchers: `-(cost - v_u - v_v)`, which is twice the
      smaller of the two values. */
  function Weight(g: Grid, p: Pair): (w: int)
    requires Shaped(g) && PairInBounds(g, p)
    ensures w == 2 * Min(ValueAt(g, p.0), ValueAt(g, p.1))
  {
    -(Cost(g, p) - ValueAt(g, p.0) - ValueAt(g, p.1))
  }

  function SumWeights(g: Grid, ps: seq<Pair>): int
    requires Shaped(g) && AllInBounds(g, ps)
  {
    if ps == [] then 0 else SumWeights(g, ps[..|ps| - 1]) + Weight(g, ps[|ps| - 1])
  }

  /** Taking one more unforbidden, untaken cell out of the unpaired sum subtracts its value. */
  lemma {:induction false} TakeCell(g: Grid, cells: seq<Cell>, taken: set<Cell>, c: Cell)
    requires Shaped(g) && CellsInBounds(g, cells) && NoDup(cells)
    requires c in cells && c !in taken && !g.isForbidden(c)
    ensures InBounds(g, c)
    ensures UnpairedValue(g, cells, taken + {c}) == UnpairedValue(g, cells, taken) - ValueAt(g, c)
  {
    var pre, last := cells[..|cells| - 1], cells[|cells| - 1];
    if last == c {
      assert c !in pre;
      UnpairedUnaffected(g, pre, taken, c);
    } else {
      TakeCell(g, pre, taken, c);
    }
  }

  lemma {:induction false} UnpairedUnaffected(g: Grid, cells: seq<Cell>, taken: set<Cell>, c: Cell)
    requires Shaped(g) && CellsInBounds(g, cells) && c !in cells
    ensures UnpairedValue(g, cells, taken + {c}) == UnpairedValue(g, cells, taken)
  {
    if cells != [] {
      UnpairedUnaffected(g, cells[..|cells| - 1], taken, c);
    }
  }

  /** For a list of disjoint pairs of unforbidden cells, the score is the no-pair score minus the
      pairs' weights: a maximum-weight matching is a minimum-score matching, and every pair lowers
      the score by at least 2 on a well-formed grid. */
  lemma ScoreByWeights(g: Grid, ps: seq<Pair>)
    requires Shaped(g) && AllInBounds(g, ps) && Disjoint(ps)
    requires forall k :: 0 <= k < |ps| ==> !g.isForbidden(ps[k].0) && !g.isForbidden(ps[k].1)
    ensures Score(g, ps) == FreeTotal(g, g.n) - SumWeights(g, ps)
    ensures WellFormed(g) ==> Score(g, ps) <= FreeTotal(g, g.n) - 2 * |ps|
  {
    ScoreIsFreeMinusWeights(g, ps);
    if WellFormed(g) {
      WeightsAtLeastTwo(g, ps);
    }
  }

  lemma {:induction false} ScoreIsFreeMinusWeights(g: Grid, ps: seq<Pair>)
    requires Shaped(g) && AllInBounds(g, ps) && Disjoint(ps)
    requires forall k :: 0 <= k < |ps| ==> !g.isForbidden(ps[k].0) && !g.isForbidden(ps[k].1)
    ensures Score(g, ps) == FreeTotal(g, g.n) - SumWeights(g, ps)
  {
    AllCellsInBounds(g);
    RowMajorCells(g.n, g.m);
    if ps == [] {
      ScoreOfNoPairs(g);
    } else {
      var pre, p := ps[..|ps| - 1], ps[|ps| - 1];
      assert Disjoint(pre);
      ScoreIsFreeMinusWeights(g, pre);
      var cells := RowMajor(g.n, g.m);
      var taken := CellsOf(pre);
      PairNotBefore(ps, |ps| - 1);
      CellsOfAppend(pre, [p]);
      assert ps == pre + [p];
      CellsOfSingle(p);
      TakeCell(g, cells, taken, p.0);
      TakeCell(g, cells, taken + {p.0}, p.1);
      assert CellsOf(ps) == taken + {p.0} + {p.1};
    }
  }

  /** On a well-formed grid every value is at least 1, so every pair weighs at least 2. */
  lemma {:induction false} WeightsAtLeastTwo(g: Grid, ps: seq<Pair>)
    requires WellFormed(g) && AllInBounds(g, ps)
    ensures SumWeights(g, ps) >= 2 * |ps|
  {
    if ps != [] {
      WeightsAtLeastTwo(g, ps[..|ps| - 1]);
      var p := ps[|ps| - 1];
      assert ValueAt(g, p.0) >= 1 && ValueAt(g, p.1) >= 1;
    }
  }
}
