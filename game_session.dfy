/** The player's side of the game: clicking cells to build pairs by hand, and the end-of-game test
    that compares the player's score with the solver's. */
module GameSession {
  import opened Lists
  import opened Options
  import opened GridModel
  import opened GameRules
  import opened Scoring

  /** Index of the first pair that contains c. */
  function FirstPairWith(ps: seq<Pair>, c: Cell): (k: nat)
    requires c in CellsOf(ps)
    ensures k < |ps| && InPair(c, ps[k])
    ensures forall l :: 0 <= l < k ==> !InPair(c, ps[l])
  {
    if InPair(c, ps[0]) then 0
    else
      assert c in CellsOf(ps[1..]) by {
        var k :| 0 <= k < |ps| && InPair(c, ps[k]);
        assert ps[1..][k - 1] == ps[k];
      }
      1 + FirstPairWith(ps[1..], c)
  }

  /** The pairs after clicking an already paired cell: only the first pair containing it is gone, and
      the others keep their order. */
  function WithoutFirstPairWith(ps: seq<Pair>, c: Cell): (r: seq<Pair>)
    requires c in CellsOf(ps)
    ensures |r| == |ps| - 1
    ensures multiset(r) == multiset(ps) - multiset{ps[FirstPairWith(ps, c)]}
    ensures forall l :: 0 <= l < FirstPairWith(ps, c) ==> r[l] == ps[l]
    ensures forall l :: FirstPairWith(ps, c) <= l < |r| ==> r[l] == ps[l + 1]
  {
    var k := FirstPairWith(ps, c);
    assert IndexOf(ps, ps[k]) == k by {
      var i := IndexOf(ps, ps[k]);
      assert i <= k;
      assert InPair(c, ps[i]);
    }
    RemoveFirst(ps, ps[k])
  }

  /** Removing a pair keeps a matching valid and frees exactly the cells of that pair. */
  lemma WithoutFirstPairKeepsValid(g: Grid, ps: seq<Pair>, c: Cell)
    requires ValidMatching(g, ps) && c in CellsOf(ps)
    ensures ValidMatching(g, WithoutFirstPairWith(ps, c))
    ensures var p := ps[FirstPairWith(ps, c)];
      CellsOf(WithoutFirstPairWith(ps, c)) == CellsOf(ps) - {p.0, p.1}
  {
    var k := FirstPairWith(ps, c);
    var r := WithoutFirstPairWith(ps, c);
    RemoveAtKeepsValid(g, ps, k, r);
    assert r == ps[..k] + ps[k + 1..];
    RemoveAtCells(ps, k);
  }

  lemma RemoveAtKeepsValid(g: Grid, ps: seq<Pair>, k: nat, r: seq<Pair>)
    requires ValidMatching(g, ps) && k < |ps| && |r| == |ps| - 1
    requires forall l :: 0 <= l < |r| ==> r[l] == ps[if l < k then l else l + 1]
    ensures ValidMatching(g, r)
  {
    forall a, b | 0 <= a < |r| && 0 <= b < |r|
      ensures r[a].0 != r[b].1 && (a != b ==> r[a].0 != r[b].0 && r[a].1 != r[b].1)
    {
      var a', b' := if a < k then a else a + 1, if b < k then b else b + 1;
      assert r[a] == ps[a'] && r[b] == ps[b'];
    }
  }

  /** No candidate pair of the grid is valid against the current pairs (the `not any(...)` test). */
  predicate NoValidMove(g: Grid, ps: seq<Pair>)
    requires Shaped(g) && AllInBounds(g, g.allPairs)
  {
    forall k :: 0 <= k < |g.allPairs| ==> !PairIsValid(g, g.allPairs[k], ps)
  }

  /** When the game is over, the player's pairs are a maximal valid matching over the candidate pairs:
      no candidate can be added to them. */
  lemma GameOverIsMaximal(g: Grid, ps: seq<Pair>)
    requires WellFormed(g) && ValidMatching(g, ps) && NoValidMove(g, ps)
    ensures forall k :: 0 <= k < |g.allPairs| ==> !ValidMatching(g, ps + [g.allPairs[k]])
  {
    forall k | 0 <= k < |g.allPairs| ensures !ValidMatching(g, ps + [g.allPairs[k]]) {
      PairIsValidExtends(g, g.allPairs[k], ps);
    }
  }

  /** The game screen's state: the player's pairs (`solver.pairs`) and the cells selected so far. */
  class Session {
    const grid: Grid
    var pairs: seq<Pair>
    var selected: seq<Cell>

    /** The player's pairs form a valid matching and at most one free, unforbidden cell is selected. */
    ghost predicate Valid()
      reads this
    {
      WellFormed(grid) && ValidMatching(grid, pairs) && |selected| <= 1 &&
      forall c :: c in selected ==>
        InBounds(grid, c) && !grid.isForbidden(c) && c !in CellsOf(pairs)
    }

    constructor (g: Grid)
      requires WellFormed(g)
      ensures Valid() && grid == g && pairs == [] && selected == []
    {
      grid := g;
      pairs := [];
      selected := [];
    }

    /** A click on cell c of the grid. A forbidden cell clears the selection; a paired cell loses its
        first pair; a free cell is selected, and a second selected cell makes a pair with the first
        when it is one of its neighbours and their colours match, after which the selection is cleared. */
    method Click(c: Cell)
      requires Valid() && InBounds(grid, c)
      modifies this
      ensures Valid()
      ensures grid.isForbidden(c) ==> pairs == old(pairs) && selected == []
      ensures !grid.isForbidden(c) && c in old(CellsOf(pairs)) ==>
        pairs == WithoutFirstPairWith(old(pairs), c) && selected == old(selected)
      ensures !grid.isForbidden(c) && c !in old(CellsOf(pairs)) && old(selected) == [] ==>
        pairs == old(pairs) && selected == [c]
      ensures !grid.isForbidden(c) && c !in old(CellsOf(pairs)) && old(selected) != [] ==>
        selected == [] &&
        var first := old(selected)[0];
        pairs == if c in grid.vois(first) && CanPair(ColorAt(grid, first), ColorAt(grid, c))
                 then old(pairs) + [(first, c)] else old(pairs)
    {
      if grid.isForbidden(c) {
        selected := [];
      } else if c in CellsOf(pairs) {
        WithoutFirstPairKeepsValid(grid, pairs, c);
        var i := 0;
        while i < |pairs| && !InPair(c, pairs[i])
          invariant 0 <= i <= FirstPairWith(pairs, c)
        {
          i := i + 1;
        }
        pairs := RemoveFirst(pairs, pairs[i]);
      } else {
        selected := selected + [c];
        if |selected| == 2 {
          var first, second := selected[0], selected[1];
          if second in grid.vois(first) && CanPair(ColorAt(grid, first), ColorAt(grid, second)) {
            AdjacentCrossesParity(first, second);
            PairIsValidExtends(grid, (first, second), pairs);
            pairs := pairs + [(first, second)];
          }
          selected := [];
        }
      }
    }

    /** The end-of-game test run after each frame. While the solution is not shown and no candidate
        pair is valid any more, the player wins when their score is at most the solver's, and the
        board is reset; the result is None while the game goes on. */
    method EndOfGame(showSolution: bool, generalScore: int) returns (outcome: Option<bool>)
      requires Valid()
      modifies this
      ensures Valid()
      ensures outcome.Some? <==> !showSolution && old(NoValidMove(grid, pairs))
      ensures outcome.Some? ==> outcome.value == (old(Score(grid, pairs)) <= generalScore)
      ensures outcome.Some? ==> pairs == [] && selected == []
      ensures outcome.None? ==> pairs == old(pairs) && selected == old(selected)
    {
      outcome := None;
      if !showSolution {
        var anyValid := false;
        var k := 0;
        while k < |grid.allPairs| && !anyValid
          invariant 0 <= k <= |grid.allPairs|
          invariant anyValid <==> exists l :: 0 <= l < k && PairIsValid(grid, grid.allPairs[l], pairs)
        {
          anyValid := PairIsValid(grid, grid.allPairs[k], pairs);
          k := k + 1;
        }
        if !anyValid {
          outcome := Some(Score(grid, pairs) <= generalScore);
          pairs := [];
          selected := [];
        }
      }
    }
  }
}
