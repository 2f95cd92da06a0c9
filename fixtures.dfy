/** The 2 x 3 all-white grid of the greedy solver's documentation (values 5 8 4 / 11 1 3), on which
    the greedy scan is not optimal. */
module Fixtures {
  import opened GridModel
  import opened GameRules
  import opened Scoring
  import opened Greedy

  const C00 := Cell(0, 0)
  const C01 := Cell(0, 1)
  const C02 := Cell(0, 2)
  const C10 := Cell(1, 0)
  const C11 := Cell(1, 1)
  const C12 := Cell(1, 2)

  /** Every pair of horizontally or vertically adjacent cells, row by row. */
  const Grid00Pairs: seq<Pair> :=
    [(C00, C01), (C00, C10), (C01, C02), (C01, C11), (C02, C12), (C10, C11), (C11, C12)]

  function Grid00Vois(c: Cell): seq<Cell> {
    if c == C00 then [C01, C10]
    else if c == C01 then [C00, C02, C11]
    else if c == C02 then [C01, C12]
    else if c == C10 then [C00, C11]
    else if c == C11 then [C01, C10, C12]
    else if c == C12 then [C02, C11]
    else []
  }

  const Grid00 := Grid(2, 3, [[0, 0, 0], [0, 0, 0]], [[5, 8, 4], [11, 1, 3]],
                       c => false, Grid00Vois, Grid00Pairs)

  /** The greedy result and a cheaper matching of the same grid. */
  const GreedyPairs00: seq<Pair> := [(C00, C01), (C02, C12), (C10, C11)]
  const BestPairs00: seq<Pair> := [(C00, C10), (C01, C02), (C11, C12)]

  lemma Grid00WellFormed()
    ensures WellFormed(Grid00) && AllInBounds(Grid00, Grid00.allPairs)
  {
    Grid00Cells();
    Grid00PairsAdjacent();
    Grid00VoisAdjacent();
  }

  /** Every cell of the grid is white and has a positive value. */
  lemma Grid00Cells()
    ensures Shaped(Grid00)
    ensures forall c :: InBounds(Grid00, c) ==> ColorAt(Grid00, c) == 0 && ValueAt(Grid00, c) >= 1
  {
    forall c | InBounds(Grid00, c)
      ensures ColorAt(Grid00, c) == 0 && ValueAt(Grid00, c) >= 1
    {
      assert c.row == 0 || c.row == 1;
    }
  }

  /** The candidate pairs are adjacent cells of the grid. */
  lemma Grid00PairsAdjacent()
    ensures forall k :: 0 <= k < |Grid00.allPairs| ==>
      PairInBounds(Grid00, Grid00.allPairs[k]) && Adjacent(Grid00.allPairs[k].0, Grid00.allPairs[k].1)
  {
  }

  /** The neighbours of a cell of the grid are cells of the grid adjacent to it. */
  lemma Grid00VoisAdjacent()
    ensures forall c, d :: InBounds(Grid00, c) && d in Grid00.vois(c) ==> InBounds(Grid00, d) && Adjacent(c, d)
  {
  }

  lemma Grid00Values()
    ensures Shaped(Grid00)
    ensures ValueAt(Grid00, C00) == 5 && ValueAt(Grid00, C01) == 8 && ValueAt(Grid00, C02) == 4
    ensures ValueAt(Grid00, C10) == 11 && ValueAt(Grid00, C11) == 1 && ValueAt(Grid00, C12) == 3
  {
  }

  lemma GreedyStep1()
    ensures Grid00.allPairs == Grid00Pairs
    ensures Step(Grid00, GreedyState({}, []), C00) == GreedyState({C00, C01}, [(C00, C01)])
  {
    Grid00WellFormed();
    Grid00Values();
    StepPicksStrictMinimum(Grid00, GreedyState({}, []), C00, C01);
  }

  lemma GreedyStep3()
    ensures Step(Grid00, GreedyState({C00, C01}, [(C00, C01)]), C02) ==
      GreedyState({C00, C01, C02, C12}, [(C00, C01), (C02, C12)])
  {
    Grid00WellFormed();
    Grid00Values();
    StepPicksStrictMinimum(Grid00, GreedyState({C00, C01}, [(C00, C01)]), C02, C12);
  }

  lemma GreedyStep4()
    ensures Step(Grid00, GreedyState({C00, C01, C02, C12}, [(C00, C01), (C02, C12)]), C10) ==
      GreedyState({C00, C01, C02, C12, C10, C11}, GreedyPairs00)
  {
    Grid00WellFormed();
    Grid00Values();
    StepPicksStrictMinimum(Grid00, GreedyState({C00, C01, C02, C12}, [(C00, C01), (C02, C12)]), C10, C11);
  }

  lemma RowMajor00()
    ensures RowMajor(2, 3) == [C00, C01, C02, C10, C11, C12]
  {
    assert Row(0, 3) == [C00, C01, C02];
    assert Row(1, 3) == [C10, C11, C12];
  }

  /** Scanning the cells row by row pairs (0,0)-(0,1), then (0,2)-(1,2), then (1,0)-(1,1); the
      other cells are already used when their turn comes. */
  lemma GreedyOnGrid00()
    ensures WellFormed(Grid00) && AllInBounds(Grid00, Grid00.allPairs)
    ensures Scan(Grid00, RowMajor(2, 3)).res == GreedyPairs00
  {
    Grid00WellFormed();
    RowMajor00();
    var s1 := GreedyState({C00, C01}, [(C00, C01)]);
    var s3 := GreedyState({C00, C01, C02, C12}, [(C00, C01), (C02, C12)]);
    var s4 := GreedyState({C00, C01, C02, C12, C10, C11}, GreedyPairs00);
    GreedyStep1();
    GreedyStep3();
    GreedyStep4();
    ScanFold(Grid00, [C00, C01, C02, C10, C11, C12], [GreedyState({}, []), s1, s1, s3, s4, s4, s4]);
  }

  lemma FreeTotal00()
    ensures Shaped(Grid00) && FreeTotal(Grid00, 2) == 32
  {
    assert RowTotal(Grid00, 0, 3) == 17 by {
      assert RowTotal(Grid00, 0, 1) == 5;
      assert RowTotal(Grid00, 0, 2) == 13;
    }
    assert RowTotal(Grid00, 1, 3) == 15 by {
      assert RowTotal(Grid00, 1, 1) == 11;
      assert RowTotal(Grid00, 1, 2) == 12;
    }
    assert FreeTotal(Grid00, 1) == 17;
  }

  /** The greedy pairs weigh 10 + 6 + 2 out of a free total of 32: a score of 14. */
  lemma GreedyScore00()
    ensures AllInBounds(Grid00, GreedyPairs00) && Score(Grid00, GreedyPairs00) == 14
  {
    Grid00Values();
    FreeTotal00();
    assert Disjoint(GreedyPairs00);
    assert SumWeights(Grid00, GreedyPairs00) == 18 by {
      assert GreedyPairs00[..2][..1] == [(C00, C01)];
      assert GreedyPairs00[..2] == [(C00, C01), (C02, C12)];
      assert SumWeights(Grid00, [(C00, C01)]) == 10;
    }
    ScoreByWeights(Grid00, GreedyPairs00);
  }

  /** A matching of weight 10 + 8 + 2, so of score 12, beats the greedy one on this grid. */
  lemma GreedyIsNotOptimal00()
    ensures WellFormed(Grid00) && ValidMatching(Grid00, BestPairs00)
    ensures AllInBounds(Grid00, GreedyPairs00)
    ensures Score(Grid00, BestPairs00) == 12 < Score(Grid00, GreedyPairs00)
  {
    Grid00Values();
    Grid00WellFormed();
    FreeTotal00();
    GreedyScore00();
    assert Disjoint(BestPairs00);
    assert SumWeights(Grid00, BestPairs00) == 20 by {
      assert BestPairs00[..2][..1] == [(C00, C10)];
      assert BestPairs00[..2] == [(C00, C10), (C01, C02)];
      assert SumWeights(Grid00, [(C00, C10)]) == 10;
    }
    ScoreByWeights(Grid00, BestPairs00);
  }
}
