/** `SolverGeneral`, continued: reading the `matches` dictionary off the final column assignment. */
module HungarianExtract {
  import opened Lists
  import opened GridModel
  import opened HungarianRotation

  /** The `matches` dictionary: its entries and the order in which its keys were first inserted,
      which is the order of `matches.items()`. */
  datatype Matches = Matches(entries: map<Cell, Cell>, order: seq<Cell>)

  /** `matches[e] = o`: a new key goes to the end of the order, an old one keeps its place. */
  function Put(d: Matches, e: Cell, o: Cell): Matches {
    Matches(d.entries[e := o], if e in d.entries then d.order else d.order + [e])
  }

  /** The column entries of `p` are row numbers 0..n. */
  predicate RowsInRange(ps: seq<int>, n: int) {
    forall c :: 1 <= c < |ps| ==> 0 <= ps[c] <= n
  }

  /** One pass of the extraction loop: an assigned column j sets its row's even node to its own odd
      node, an unassigned one changes nothing. */
  function Column(ps: seq<int>, evenNodes: seq<Cell>, oddNodes: seq<Cell>, j: nat, d: Matches): Matches
    requires |ps| == |oddNodes| + 1 && 1 <= j < |ps| && RowsInRange(ps, |evenNodes|)
  {
    if ps[j] == 0 then d else Put(d, evenNodes[ps[j] - 1], oddNodes[j - 1])
  }

  /** The insertion order lists each key once and nothing else. */
  ghost predicate Ordered(d: Matches) {
    NoDup(d.order) && forall e :: e in d.order <==> e in d.entries
  }

  /** A pass keeps the insertion order a list of the keys, each once. */
  lemma ColumnKeepsOrder(ps: seq<int>, evenNodes: seq<Cell>, oddNodes: seq<Cell>, j: nat, d: Matches)
    requires |ps| == |oddNodes| + 1 && 1 <= j < |ps| && RowsInRange(ps, |evenNodes|)
    requires Ordered(d)
    ensures Ordered(Column(ps, evenNodes, oddNodes, j, d))
  {
    if ps[j] != 0 && evenNodes[ps[j] - 1] !in d.entries {
      NoDupAppend(d.order, [evenNodes[ps[j] - 1]]);
    }
  }

  /** `matches` after the extraction loop has seen columns 1..j. */
  function MatchesUpTo(ps: seq<int>, evenNodes: seq<Cell>, oddNodes: seq<Cell>, j: nat): Matches
    requires |ps| == |oddNodes| + 1 && j < |ps| && RowsInRange(ps, |evenNodes|)
  {
    if j == 0 then Matches(map[], [])
    else Column(ps, evenNodes, oddNodes, j, MatchesUpTo(ps, evenNodes, oddNodes, j - 1))
  }

  /** Its insertion order lists each key once and nothing else. */
  lemma {:induction false} MatchesOrdered(ps: seq<int>, evenNodes: seq<Cell>, oddNodes: seq<Cell>, j: nat)
    requires |ps| == |oddNodes| + 1 && j < |ps| && RowsInRange(ps, |evenNodes|)
    ensures Ordered(MatchesUpTo(ps, evenNodes, oddNodes, j))
  {
    if j > 0 {
      MatchesOrdered(ps, evenNodes, oddNodes, j - 1);
      ColumnKeepsOrder(ps, evenNodes, oddNodes, j, MatchesUpTo(ps, evenNodes, oddNodes, j - 1));
    }
  }

  /** The number of assigned columns among 1..j. */
  function Assigned(ps: seq<int>, j: nat): nat
    requires j < |ps|
  {
    if j == 0 then 0 else Assigned(ps, j - 1) + (if ps[j] != 0 then 1 else 0)
  }

  /** Every assigned column among 1..j has its row's even node mapped to its own odd node. */
  ghost predicate HasColumns(ps: seq<int>, evenNodes: seq<Cell>, oddNodes: seq<Cell>, j: nat, d: Matches)
    requires |ps| == |oddNodes| + 1 && j < |ps| && RowsInRange(ps, |evenNodes|)
  {
    forall c :: 1 <= c <= j && ps[c] != 0 ==>
      evenNodes[ps[c] - 1] in d.entries && d.entries[evenNodes[ps[c] - 1]] == oddNodes[c - 1]
  }

  /** The even nodes of the rows assigned to columns 1..j. */
  function RowsUpTo(ps: seq<int>, evenNodes: seq<Cell>, j: nat): set<Cell>
    requires j < |ps| && RowsInRange(ps, |evenNodes|)
  {
    if j == 0 then {}
    else RowsUpTo(ps, evenNodes, j - 1) + (if ps[j] != 0 then {evenNodes[ps[j] - 1]} else {})
  }

  /** Keys are rows of columns 1..j, values are odd nodes of columns 1..j, and no two keys share a
      value. */
  ghost predicate FromColumns(ps: seq<int>, evenNodes: seq<Cell>, oddNodes: seq<Cell>, j: nat, d: Matches)
    requires |ps| == |oddNodes| + 1 && j < |ps| && RowsInRange(ps, |evenNodes|)
  {
    (forall e :: e in d.entries ==> e in RowsUpTo(ps, evenNodes, j) && d.entries[e] in oddNodes[..j]) &&
    forall e1, e2 :: e1 in d.entries && e2 in d.entries && e1 != e2 ==> d.entries[e1] != d.entries[e2]
  }

  /** With a one-to-one assignment, the row of column j is the row of no column among 1..k < j. */
  lemma {:induction false} RowsDiffer(ps: seq<int>, evenNodes: seq<Cell>, j: nat, k: nat)
    requires RowsInRange(ps, |evenNodes|) && OneToOne(ps) && NoDup(evenNodes)
    requires 1 <= j < |ps| && ps[j] != 0 && k < j
    ensures evenNodes[ps[j] - 1] !in RowsUpTo(ps, evenNodes, k)
  {
    if k > 0 {
      RowsDiffer(ps, evenNodes, j, k - 1);
      if ps[k] != 0 {
        assert ps[k] != ps[j];
      }
    }
  }

  /** One column of the extraction: an assigned column adds a new key for its row, with a new value. */
  lemma ColumnStep(ps: seq<int>, evenNodes: seq<Cell>, oddNodes: seq<Cell>, j: nat, d: Matches, d': Matches)
    requires |ps| == |oddNodes| + 1 && 1 <= j < |ps| && RowsInRange(ps, |evenNodes|)
    requires OneToOne(ps) && NoDup(evenNodes) && NoDup(oddNodes)
    requires HasColumns(ps, evenNodes, oddNodes, j - 1, d) && FromColumns(ps, evenNodes, oddNodes, j - 1, d)
    requires d' == Column(ps, evenNodes, oddNodes, j, d)
    ensures HasColumns(ps, evenNodes, oddNodes, j, d') && FromColumns(ps, evenNodes, oddNodes, j, d')
    ensures |d'.entries| == |d.entries| + (if ps[j] != 0 then 1 else 0)
  {
    if ps[j] != 0 {
      AssignedColumn(ps, evenNodes, oddNodes, j, d, d');
    } else {
      assert d' == d;
      SkipColumn(ps, evenNodes, oddNodes, j, d);
    }
  }

  lemma AssignedColumn(ps: seq<int>, evenNodes: seq<Cell>, oddNodes: seq<Cell>, j: nat, d: Matches, d': Matches)
    requires |ps| == |oddNodes| + 1 && 1 <= j < |ps| && RowsInRange(ps, |evenNodes|) && ps[j] != 0
    requires OneToOne(ps) && NoDup(evenNodes) && NoDup(oddNodes)
    requires HasColumns(ps, evenNodes, oddNodes, j - 1, d) && FromColumns(ps, evenNodes, oddNodes, j - 1, d)
    requires d' == Column(ps, evenNodes, oddNodes, j, d)
    ensures HasColumns(ps, evenNodes, oddNodes, j, d') && FromColumns(ps, evenNodes, oddNodes, j, d')
    ensures |d'.entries| == |d.entries| + 1
  {
    assert d' == Put(d, evenNodes[ps[j] - 1], oddNodes[j - 1]);
    RowsDiffer(ps, evenNodes, j, j - 1);
    LaterNode(oddNodes, j - 1);
    NewEntry(ps, evenNodes, oddNodes, j, d, d');
  }

  /** In a list without repetitions, an element is not among those before it. */
  lemma LaterNode(nodes: seq<Cell>, i: nat)
    requires NoDup(nodes) && i < |nodes|
    ensures nodes[i] !in nodes[..i]
  {
    forall l | 0 <= l < i ensures nodes[l] != nodes[i] {
      assert l < i;
    }
  }

  /** An unassigned column leaves the dictionary as it was. */
  lemma SkipColumn(ps: seq<int>, evenNodes: seq<Cell>, oddNodes: seq<Cell>, j: nat, d: Matches)
    requires |ps| == |oddNodes| + 1 && 1 <= j < |ps| && RowsInRange(ps, |evenNodes|) && ps[j] == 0
    requires HasColumns(ps, evenNodes, oddNodes, j - 1, d) && FromColumns(ps, evenNodes, oddNodes, j - 1, d)
    ensures HasColumns(ps, evenNodes, oddNodes, j, d) && FromColumns(ps, evenNodes, oddNodes, j, d)
  {
    assert oddNodes[..j] == oddNodes[..j - 1] + [oddNodes[j - 1]];
    assert RowsUpTo(ps, evenNodes, j) == RowsUpTo(ps, evenNodes, j - 1);
  }

  /** An assigned column j adds a key that is not there yet (its row is the row of no earlier column),
      with a value that is not there yet (its odd node is no earlier column's). */
  lemma NewEntry(ps: seq<int>, evenNodes: seq<Cell>, oddNodes: seq<Cell>, j: nat, d: Matches, d': Matches)
    requires |ps| == |oddNodes| + 1 && 1 <= j < |ps| && RowsInRange(ps, |evenNodes|) && ps[j] != 0
    requires HasColumns(ps, evenNodes, oddNodes, j - 1, d) && FromColumns(ps, evenNodes, oddNodes, j - 1, d)
    requires evenNodes[ps[j] - 1] !in RowsUpTo(ps, evenNodes, j - 1)
    requires oddNodes[j - 1] !in oddNodes[..j - 1]
    requires d' == Put(d, evenNodes[ps[j] - 1], oddNodes[j - 1])
    ensures HasColumns(ps, evenNodes, oddNodes, j, d') && FromColumns(ps, evenNodes, oddNodes, j, d')
    ensures |d'.entries| == |d.entries| + 1
  {
    var e := evenNodes[ps[j] - 1];
    assert e !in d.entries;
    NewEntryHas(ps, evenNodes, oddNodes, j, d, d');
    NewEntryFrom(ps, evenNodes, oddNodes, j, d, d');
  }

  lemma NewEntryHas(ps: seq<int>, evenNodes: seq<Cell>, oddNodes: seq<Cell>, j: nat, d: Matches, d': Matches)
    requires |ps| == |oddNodes| + 1 && 1 <= j < |ps| && RowsInRange(ps, |evenNodes|) && ps[j] != 0
    requires HasColumns(ps, evenNodes, oddNodes, j - 1, d) && FromColumns(ps, evenNodes, oddNodes, j - 1, d)
    requires evenNodes[ps[j] - 1] !in RowsUpTo(ps, evenNodes, j - 1)
    requires d' == Put(d, evenNodes[ps[j] - 1], oddNodes[j - 1])
    ensures HasColumns(ps, evenNodes, oddNodes, j, d')
  {
    var e := evenNodes[ps[j] - 1];
    forall c | 1 <= c <= j && ps[c] != 0
      ensures evenNodes[ps[c] - 1] in d'.entries && d'.entries[evenNodes[ps[c] - 1]] == oddNodes[c - 1]
    {
      if c < j {
        assert evenNodes[ps[c] - 1] in d.entries;
        assert evenNodes[ps[c] - 1] != e;
      }
    }
  }

  lemma NewEntryFrom(ps: seq<int>, evenNodes: seq<Cell>, oddNodes: seq<Cell>, j: nat, d: Matches, d': Matches)
    requires |ps| == |oddNodes| + 1 && 1 <= j < |ps| && RowsInRange(ps, |evenNodes|) && ps[j] != 0
    requires FromColumns(ps, evenNodes, oddNodes, j - 1, d)
    requires oddNodes[j - 1] !in oddNodes[..j - 1]
    requires d' == Put(d, evenNodes[ps[j] - 1], oddNodes[j - 1])
    ensures FromColumns(ps, evenNodes, oddNodes, j, d')
  {
    var e, o := evenNodes[ps[j] - 1], oddNodes[j - 1];
    assert oddNodes[..j] == oddNodes[..j - 1] + [o];
    assert RowsUpTo(ps, evenNodes, j) == RowsUpTo(ps, evenNodes, j - 1) + {e};
    assert forall e' :: e' in d.entries ==> d.entries[e'] != o;
  }

  /** With a one-to-one assignment and no repeated nodes, the extraction maps the row of each assigned
      column to that column's odd node, its keys are those rows, no two keys share an odd node, and
      there are as many keys as assigned columns. */
  lemma MatchesContent(ps: seq<int>, evenNodes: seq<Cell>, oddNodes: seq<Cell>, j: nat)
    requires |ps| == |oddNodes| + 1 && j < |ps| && RowsInRange(ps, |evenNodes|)
    requires OneToOne(ps) && NoDup(evenNodes) && NoDup(oddNodes)
    ensures var d := MatchesUpTo(ps, evenNodes, oddNodes, j);
      HasColumns(ps, evenNodes, oddNodes, j, d) && FromColumns(ps, evenNodes, oddNodes, j, d)
    ensures |MatchesUpTo(ps, evenNodes, oddNodes, j).entries| == Assigned(ps, j)
  {
    MatchesShape(ps, evenNodes, oddNodes, j);
    MatchesCount(ps, evenNodes, oddNodes, j);
  }

  lemma {:induction false} MatchesShape(ps: seq<int>, evenNodes: seq<Cell>, oddNodes: seq<Cell>, j: nat)
    requires |ps| == |oddNodes| + 1 && j < |ps| && RowsInRange(ps, |evenNodes|)
    requires OneToOne(ps) && NoDup(evenNodes) && NoDup(oddNodes)
    ensures HasColumns(ps, evenNodes, oddNodes, j, MatchesUpTo(ps, evenNodes, oddNodes, j))
    ensures FromColumns(ps, evenNodes, oddNodes, j, MatchesUpTo(ps, evenNodes, oddNodes, j))
  {
    if j > 0 {
      MatchesShape(ps, evenNodes, oddNodes, j - 1);
      var d, d' := MatchesUpTo(ps, evenNodes, oddNodes, j - 1), MatchesUpTo(ps, evenNodes, oddNodes, j);
      ColumnStep(ps, evenNodes, oddNodes, j, d, d');
    }
  }

  lemma {:induction false} MatchesCount(ps: seq<int>, evenNodes: seq<Cell>, oddNodes: seq<Cell>, j: nat)
    requires |ps| == |oddNodes| + 1 && j < |ps| && RowsInRange(ps, |evenNodes|)
    requires OneToOne(ps) && NoDup(evenNodes) && NoDup(oddNodes)
    ensures |MatchesUpTo(ps, evenNodes, oddNodes, j).entries| == Assigned(ps, j)
  {
    if j > 0 {
      MatchesCount(ps, evenNodes, oddNodes, j - 1);
      var d := MatchesUpTo(ps, evenNodes, oddNodes, j - 1);
      if ps[j] != 0 {
        var e := evenNodes[ps[j] - 1];
        MatchesKeys(ps, evenNodes, oddNodes, j - 1, e);
        RowsDiffer(ps, evenNodes, j, j - 1);
        FreshKey(d, e, oddNodes[j - 1]);
      }
    } else {
      assert MatchesUpTo(ps, evenNodes, oddNodes, 0).entries == map[];
    }
  }

  /** Every key after columns 1..j is the row of one of those columns. */
  lemma {:induction false} MatchesKeys(ps: seq<int>, evenNodes: seq<Cell>, oddNodes: seq<Cell>, j: nat, e: Cell)
    requires |ps| == |oddNodes| + 1 && j < |ps| && RowsInRange(ps, |evenNodes|)
    ensures e in MatchesUpTo(ps, evenNodes, oddNodes, j).entries ==> e in RowsUpTo(ps, evenNodes, j)
  {
    if j > 0 {
      MatchesKeys(ps, evenNodes, oddNodes, j - 1, e);
    }
  }

  /** Setting a key that is not there yet adds one entry. */
  lemma FreshKey(d: Matches, e: Cell, o: Cell)
    requires e !in d.entries
    ensures |Put(d, e, o).entries| == |d.entries| + 1
  {
  }

  /** `matches.items()`: the entries in key insertion order. */
  function Items(d: Matches): (items: seq<Pair>)
    requires forall e :: e in d.order ==> e in d.entries
    ensures |items| == |d.order|
    ensures forall k :: 0 <= k < |items| ==> items[k] == (d.order[k], d.entries[d.order[k]])
  {
    seq(|d.order|, k requires 0 <= k < |d.order| => (d.order[k], d.entries[d.order[k]]))
  }

  /** The extraction loop `for j in range(1, m + 1): if p[j] != 0: matches[even_nodes[p[j] - 1]] =
      odd_nodes[j - 1]`, then `list(matches.items())`. */
  method Extract(p: array<int>, evenNodes: seq<Cell>, oddNodes: seq<Cell>) returns (items: seq<Pair>)
    requires p.Length == |oddNodes| + 1 && RowsInRange(p[..], |evenNodes|)
    ensures Ordered(MatchesUpTo(p[..], evenNodes, oddNodes, |oddNodes|))
    ensures items == Items(MatchesUpTo(p[..], evenNodes, oddNodes, |oddNodes|))
  {
    var m := |oddNodes|;
    var entries: map<Cell, Cell> := map[];
    var order: seq<Cell> := [];
    for j := 1 to m + 1
      invariant Matches(entries, order) == MatchesUpTo(p[..], evenNodes, oddNodes, j - 1)
    {
      if p[j] != 0 {
        var e := evenNodes[p[j] - 1];
        if e !in entries {
          order := order + [e];
        }
        entries := entries[e := oddNodes[j - 1]];
      }
    }
    MatchesOrdered(p[..], evenNodes, oddNodes, m);
    items := Items(Matches(entries, order));
  }

  /** What the extraction returns after a run whose assignment is one-to-one: one pair per assigned
      column, made of distinct even nodes matched to distinct odd nodes, the row of column j going with
      odd node j. */
  lemma ExtractIsMatching(ps: seq<int>, evenNodes: seq<Cell>, oddNodes: seq<Cell>)
    requires |ps| == |oddNodes| + 1 && RowsInRange(ps, |evenNodes|)
    requires OneToOne(ps) && NoDup(evenNodes) && NoDup(oddNodes)
    ensures Ordered(MatchesUpTo(ps, evenNodes, oddNodes, |oddNodes|))
    ensures var items := Items(MatchesUpTo(ps, evenNodes, oddNodes, |oddNodes|));
      |items| == Assigned(ps, |oddNodes|) &&
      (forall a, b :: 0 <= a < b < |items| ==> items[a].0 != items[b].0 && items[a].1 != items[b].1) &&
      (forall c :: 1 <= c < |ps| && ps[c] != 0 ==> (evenNodes[ps[c] - 1], oddNodes[c - 1]) in items)
  {
    var m := |oddNodes|;
    MatchesContent(ps, evenNodes, oddNodes, m);
    MatchesOrdered(ps, evenNodes, oddNodes, m);
    var d := MatchesUpTo(ps, evenNodes, oddNodes, m);
    var items := Items(d);
    NoDupCard(d.order);
    assert (set e | e in d.order) == d.entries.Keys;
    forall a, b | 0 <= a < b < |items| ensures items[a].0 != items[b].0 && items[a].1 != items[b].1 {
      assert d.order[a] != d.order[b];
    }
    forall c | 1 <= c < |ps| && ps[c] != 0 ensures (evenNodes[ps[c] - 1], oddNodes[c - 1]) in items {
      var e := evenNodes[ps[c] - 1];
      var k :| 0 <= k < |d.order| && d.order[k] == e;
      assert items[k] == (e, oddNodes[c - 1]);
    }
  }
}
