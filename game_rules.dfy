/** The colour-compatibility table and the check of a manually chosen pair (`SolverManager.can_pair`,
    `SolverManager.pair_is_valid`). */
module GameRules {
  import opened GridModel

  /** The `allowed` dictionary of `can_pair`; a colour outside it gets the empty set. */
  function Allowed(c: int): set<int> {
    if c == White then {White, Red, Blue, Green}
    else if c == Red || c == Blue then {White, Red, Blue}
    else if c == Green then {White, Green}
    else {}
  }

  /** The pairing rules of the game's rule text: black pairs with nothing, white with any colour but
      black, red and blue with white, red or blue, green only with white or green. */
  predicate RuleCompatible(c1: int, c2: int) {
    White <= c1 <= Green && White <= c2 <= Green &&
    (c1 == White || c2 == White ||
     ((c1 == Red || c1 == Blue) && (c2 == Red || c2 == Blue)) ||
     (c1 == Green && c2 == Green))
  }

  /** `can_pair`: each colour must be in the other's allowed set. */
  function CanPair(c1: int, c2: int): (r: bool)
    ensures r <==> RuleCompatible(c1, c2)
    ensures r ==> c1 != Black && c2 != Black
  {
    c2 in Allowed(c1) && c1 in Allowed(c2)
  }

  lemma CanPairSymmetric(c1: int, c2: int)
    ensures CanPair(c1, c2) == CanPair(c2, c1)
    ensures c1 !in {White, Red, Blue, Green} ==> !CanPair(c1, c2) && !CanPair(c2, c1)
  {
  }

  /** A valid matching: disjoint pairs of adjacent, unforbidden, colour-compatible cells of the grid. */
  predicate ValidMatching(g: Grid, ps: seq<Pair>) {
    Shaped(g) && Disjoint(ps) &&
    forall k :: 0 <= k < |ps| ==>
      PairInBounds(g, ps[k]) && Adjacent(ps[k].0, ps[k].1) &&
      !g.isForbidden(ps[k].0) && !g.isForbidden(ps[k].1) &&
      CanPair(ColorAt(g, ps[k].0), ColorAt(g, ps[k].1))
  }

  /** `pair_is_valid`: neither cell forbidden, neither cell already in an existing pair, and the two
      colours compatible. Adjacency is not checked. */
  function PairIsValid(g: Grid, p: Pair, existing: seq<Pair>): bool
    requires Shaped(g) && PairInBounds(g, p)
  {
    if g.isForbidden(p.0) || g.isForbidden(p.1) then false
    else if p.0 in CellsOf(existing) then false
    else if p.1 in CellsOf(existing) then false
    else CanPair(ColorAt(g, p.0), ColorAt(g, p.1))
  }

  /** For a pair of adjacent cells, `pair_is_valid` holds exactly when appending the pair to a valid
      matching yields a valid matching. */
  lemma {:induction false} PairIsValidExtends(g: Grid, p: Pair, existing: seq<Pair>)
    requires ValidMatching(g, existing) && PairInBounds(g, p) && Adjacent(p.0, p.1)
    ensures PairIsValid(g, p, existing) <==> ValidMatching(g, existing + [p])
  {
    var ps := existing + [p];
    if PairIsValid(g, p, existing) {
      DisjointAppend(existing, p);
    }
    if ValidMatching(g, ps) {
      var last := |existing|;
      assert ps[last] == p;
      forall k | 0 <= k < |existing|
        ensures existing[k].0 != p.0 && existing[k].1 != p.0 && existing[k].0 != p.1 && existing[k].1 != p.1
      {
        assert ps[k] == existing[k];
      }
    }
  }

  /** More existing pairs can only make a pair invalid, never valid. */
  lemma PairIsValidAntitone(g: Grid, p: Pair, existing: seq<Pair>, more: seq<Pair>)
    requires Shaped(g) && PairInBounds(g, p)
    ensures PairIsValid(g, p, existing + more) ==> PairIsValid(g, p, existing)
  {
    if p.0 in CellsOf(existing) {
      var k :| 0 <= k < |existing| && (existing[k].0 == p.0 || existing[k].1 == p.0);
      assert (existing + more)[k] == existing[k];
    }
    if p.1 in CellsOf(existing) {
      var k :| 0 <= k < |existing| && (existing[k].0 == p.1 || existing[k].1 == p.1);
      assert (existing + more)[k] == existing[k];
    }
  }
}
