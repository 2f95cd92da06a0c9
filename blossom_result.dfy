/** `Solver_Blossom.matching_dict_to_set`: the `mate` dictionary of the blossom algorithm turned into a
    set of edges, each matched pair once. */
module BlossomResult {
  import opened Options
  import opened GridModel

  const SelfLoop := "Self-loops cannot appear in matchings"

  /** The set the loop has built after the first items of `matching.items()`, or the error it raised. */
  function Collect(items: seq<Pair>): Result<set<Pair>> {
    if items == [] then Ok({})
    else
      match Collect(items[..|items| - 1])
      case Err(msg) => Err(msg)
      case Ok(edges) =>
        var (u, v) := items[|items| - 1];
        if (v, u) in edges || (u, v) in edges then Ok(edges)
        else if u == v then Err(SelfLoop)
        else Ok(edges + {(u, v)})
  }

  /** The loop itself: an item whose edge is already in the set, in either orientation, is skipped; a
      vertex mated to itself raises `ValueError`. */
  method MatchingToSet(items: seq<Pair>) returns (r: Result<set<Pair>>)
    ensures r == Collect(items)
  {
    var edges: set<Pair> := {};
    for k := 0 to |items|
      invariant Collect(items[..k]) == Ok(edges)
    {
      var (u, v) := items[k];
      assert items[..k + 1][..k] == items[..k] && items[..k + 1][k] == items[k];
      if (v, u) in edges || (u, v) in edges {
        continue;
      }
      if u == v {
        ErrorStays(items, k + 1);
        return Err(SelfLoop);
      }
      edges := edges + {(u, v)};
    }
    assert items[..|items|] == items;
    r := Ok(edges);
  }

  /** Once the loop has raised, the whole call raises. */
  lemma {:induction false} ErrorStays(items: seq<Pair>, k: nat)
    requires k <= |items| && Collect(items[..k]) == Err(SelfLoop)
    ensures Collect(items) == Err(SelfLoop)
    decreases |items| - k
  {
    if k < |items| {
      assert items[..k + 1][..k] == items[..k];
      ErrorStays(items, k + 1);
    } else {
      assert items[..k] == items;
    }
  }

  /** The call raises exactly when some vertex is mated to itself. Otherwise every edge of the set is
      an item and not a loop, every item is in the set in one orientation or the other, and no edge is
      in the set in both orientations. */
  lemma {:induction false} CollectFacts(items: seq<Pair>)
    ensures Collect(items).Err? <==> exists k :: 0 <= k < |items| && items[k].0 == items[k].1
    ensures Collect(items).Ok? ==> OnceEach(items, Collect(items).value)
  {
    if items != [] {
      var pre, last := items[..|items| - 1], items[|items| - 1];
      CollectFacts(pre);
      assert forall k :: 0 <= k < |pre| ==> pre[k] == items[k];
      if Collect(pre).Err? {
        var k :| 0 <= k < |pre| && pre[k].0 == pre[k].1;
        assert items[k].0 == items[k].1;
      } else if last.0 == last.1 {
        assert items[|items| - 1].0 == items[|items| - 1].1;
      } else {
        forall k | 0 <= k < |items| ensures items[k].0 != items[k].1 {
          if k < |pre| {
            assert pre[k] == items[k];
          }
        }
      }
    }
  }

  /** Each matched pair exactly once: edges of `edges` are items and not loops, every item is there in
      one orientation, never in both. */
  ghost predicate OnceEach(items: seq<Pair>, edges: set<Pair>) {
    (forall e :: e in edges ==> e in items && e.0 != e.1) &&
    (forall k :: 0 <= k < |items| ==> items[k] in edges || (items[k].1, items[k].0) in edges) &&
    (forall u, v :: (u, v) in edges ==> (v, u) !in edges)
  }
}
