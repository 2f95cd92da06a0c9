/** `SolverGeneral`, continued: the rotation of the column assignment `p` along the `way` links
    that ends each round of the search. */
module HungarianRotation {
  import opened Lists

  /** The column assignment `p` after the rotation loop has walked `path`: at each step, in order,
      p[path[k]] takes the value of p[path[k + 1]]. */
  function Rotated(ps: seq<int>, path: seq<int>): (r: seq<int>)
    requires forall k :: 0 <= k < |path| ==> 0 <= path[k] < |ps|
    ensures |r| == |ps|
    decreases |path|
  {
    if |path| < 2 then ps else Rotated(ps[path[0] := ps[path[1]]], path[1..])
  }

  /** The columns the rotation loop visits: `path[0]` is the free column the search stopped at, each
      next column is `way` of the previous one, and the walk ends at column 0 with no column twice. */
  ghost predicate WayPath(way: seq<int>, path: seq<int>) {
    ColumnPath(path, |way|) && forall k :: 0 <= k < |path| - 1 ==> way[path[k]] == path[k + 1]
  }

  /** At least two distinct columns below size, ending with column 0 and meeting it nowhere else. */
  ghost predicate ColumnPath(path: seq<int>, size: int) {
    |path| >= 2 && path[|path| - 1] == 0 && NoDup(path) &&
    (forall k :: 0 <= k < |path| ==> 0 <= path[k] < size) &&
    (forall k :: 0 <= k < |path| - 1 ==> path[k] != 0)
  }

  /** The rotation loop after the search of one phase: `j1 = way[j0]; p[j0] = p[j1]; j0 = j1` until
      column 0 is reached. */
  method Rotate(p: array<int>, way: array<int>, j0: int, ghost path: seq<int>)
    requires p != way && p.Length == way.Length
    requires WayPath(way[..], path) && path[0] == j0
    modifies p
    ensures p[..] == Rotated(old(p[..]), path)
  {
    var j := j0;
    ghost var k := 0;
    while true
      invariant 0 <= k < |path| - 1 && j == path[k]
      invariant Rotated(p[..], path[k..]) == Rotated(old(p[..]), path)
      decreases |path| - k
    {
      var j1 := way[j];
      assert path[k..][1..] == path[k + 1..];
      p[j] := p[j1];
      j := j1;
      k := k + 1;
      if j == 0 {
        break;
      }
    }
    assert path[k..] == [0];
  }

  /** Read all at once, the rotation moves each value one step back along the path: column path[k]
      gets the old value of column path[k + 1], and columns off the path (the last one, 0, included)
      keep theirs. */
  lemma {:induction false} RotatedShift(ps: seq<int>, path: seq<int>)
    requires |path| >= 1 && NoDup(path) && forall k :: 0 <= k < |path| ==> 0 <= path[k] < |ps|
    ensures forall k :: 0 <= k < |path| - 1 ==> Rotated(ps, path)[path[k]] == ps[path[k + 1]]
    ensures forall j :: 0 <= j < |ps| && j !in path[..|path| - 1] ==> Rotated(ps, path)[j] == ps[j]
    decreases |path|
  {
    if |path| >= 2 {
      var ps' := ps[path[0] := ps[path[1]]];
      var tail := path[1..];
      assert NoDup(tail) by {
        forall a, b | 0 <= a < b < |tail| ensures tail[a] != tail[b] {
          assert tail[a] == path[a + 1] && tail[b] == path[b + 1];
        }
      }
      RotatedShift(ps', tail);
      var r := Rotated(ps, path);
      assert r == Rotated(ps', tail);
      forall k | 0 <= k < |path| - 1 ensures r[path[k]] == ps[path[k + 1]] {
        assert path[k + 1] != path[0];
        if k == 0 {
          assert path[0] !in tail[..|tail| - 1] by {
            forall l | 0 <= l < |tail| - 1 ensures tail[l] != path[0] {
              assert tail[l] == path[l + 1];
            }
          }
        } else {
          assert path[k] == tail[k - 1] && path[k + 1] == tail[k];
        }
      }
      forall j | 0 <= j < |ps| && j !in path[..|path| - 1] ensures r[j] == ps[j] {
        assert j != path[0];
        assert j !in tail[..|tail| - 1] by {
          forall l | 0 <= l < |tail| - 1 ensures tail[l] != j {
            assert tail[l] == path[l + 1] && path[l + 1] in path[..|path| - 1];
          }
        }
      }
    }
  }

  /** Each row is assigned to at most one column: the non-zero entries of `p[1..]` are distinct. */
  predicate OneToOne(ps: seq<int>) {
    forall a, b :: 1 <= a < b < |ps| && ps[a] != 0 ==> ps[a] != ps[b]
  }

  /** A phase's rotation, started from the free column the search reached with `p[0]` holding the new
      row i, assigns row i to a column and keeps every row it already had assigned: the assignment
      stays one-to-one and its rows grow by exactly i. */
  lemma RotationAssignsRow(ps: seq<int>, way: seq<int>, path: seq<int>, i: int)
    requires |way| == |ps| && WayPath(way, path)
    requires OneToOne(ps) && i != 0 && ps[0] == i && i !in ps[1..] && ps[path[0]] == 0
    ensures Rotated(ps, path)[0] == i
    ensures OneToOne(Rotated(ps, path))
    ensures forall x :: x != 0 ==> (x in Rotated(ps, path)[1..] <==> x in ps[1..] || x == i)
  {
    var r := Rotated(ps, path);
    RotatedShift(ps, path);
    NotOnPath(path);
    forall a, b | 1 <= a < b < |r| && r[a] != 0 ensures r[a] != r[b] {
      RotatedDistinct(ps, path, i, a, b);
    }
    forall x | x != 0 ensures x in r[1..] <==> x in ps[1..] || x == i {
      RotatedRows(ps, path, i, x);
    }
  }

  /** Column 0 ends the path and is nowhere else on it. */
  lemma NotOnPath(path: seq<int>)
    requires |path| >= 2 && path[|path| - 1] == 0 && NoDup(path)
    ensures 0 !in path[..|path| - 1]
  {
    var n := |path|;
    forall l | 0 <= l < n - 1 ensures path[l] != 0 {
      assert path[l] != path[n - 1];
    }
  }

  lemma RotatedDistinct(ps: seq<int>, path: seq<int>, i: int, a: int, b: int)
    requires ColumnPath(path, |ps|)
    requires OneToOne(ps) && i != 0 && ps[0] == i && i !in ps[1..]
    requires 1 <= a < b < |ps| && Rotated(ps, path)[a] != 0
    ensures Rotated(ps, path)[a] != Rotated(ps, path)[b]
  {
    var sa, sb := Source(path, a), Source(path, b);
    SourceFacts(ps, path, a);
    SourceFacts(ps, path, b);
    SourceInjective(path, a, b);
    if sa != 0 && sb != 0 {
      if sa > sb {
        assert ps[sb] != 0 ==> ps[sb] != ps[sa];
      }
    } else if sa == 0 {
      assert ps[1..][sb - 1] == ps[sb];
    } else {
      assert ps[1..][sa - 1] == ps[sa];
    }
  }

  lemma RotatedRows(ps: seq<int>, path: seq<int>, i: int, x: int)
    requires ColumnPath(path, |ps|)
    requires i != 0 && ps[0] == i && ps[path[0]] == 0 && x != 0
    ensures x in Rotated(ps, path)[1..] <==> x in ps[1..] || x == i
  {
    if x in Rotated(ps, path)[1..] {
      RotatedRowCame(ps, path, i, x);
    }
    if x in ps[1..] || x == i {
      RotatedRowKept(ps, path, i, x);
    }
  }

  /** A non-zero value after the rotation was in `p[1..]` before, or is the new row. */
  lemma RotatedRowCame(ps: seq<int>, path: seq<int>, i: int, x: int)
    requires ColumnPath(path, |ps|)
    requires i != 0 && ps[0] == i && ps[path[0]] == 0 && x != 0
    requires x in Rotated(ps, path)[1..]
    ensures x in ps[1..] || x == i
  {
    var r := Rotated(ps, path);
    var a :| 0 <= a < |r[1..]| && r[1..][a] == x;
    SourceFacts(ps, path, a + 1);
    var sa := Source(path, a + 1);
    if sa != 0 {
      assert ps[1..][sa - 1] == x;
    }
  }

  /** The new row and every non-zero value of `p[1..]` are in `p[1..]` after the rotation. */
  lemma RotatedRowKept(ps: seq<int>, path: seq<int>, i: int, x: int)
    requires ColumnPath(path, |ps|)
    requires i != 0 && ps[0] == i && ps[path[0]] == 0 && x != 0
    requires x in ps[1..] || x == i
    ensures x in Rotated(ps, path)[1..]
  {
    var r := Rotated(ps, path);
    var n := |path|;
    RotatedShift(ps, path);
    NotOnPath(path);
    if x == i {
      assert r[path[n - 2]] == ps[0];
      assert r[1..][path[n - 2] - 1] == x;
    } else {
      var c :| 0 <= c < |ps[1..]| && ps[1..][c] == x;
      var y := c + 1;
      assert ps[y] == x && y != path[0];
      if y in path {
        var k :| 0 <= k < n && path[k] == y;
        assert k != 0 && k != n - 1;
        assert r[path[k - 1]] == x;
        assert r[1..][path[k - 1] - 1] == x;
      } else {
        assert y !in path[..n - 1];
        assert r[1..][y - 1] == x;
      }
    }
  }

  /** The column whose old value column j holds after the rotation. */
  function Source(path: seq<int>, j: int): int
    requires |path| >= 1
  {
    if j in path[..|path| - 1] then
      var k := IndexOf(path[..|path| - 1], j);
      path[k + 1]
    else j
  }

  lemma SourceFacts(ps: seq<int>, path: seq<int>, j: int)
    requires |path| >= 1 && NoDup(path) && forall k :: 0 <= k < |path| ==> 0 <= path[k] < |ps|
    requires 0 <= j < |ps|
    ensures 0 <= Source(path, j) < |ps| && Rotated(ps, path)[j] == ps[Source(path, j)]
    ensures Source(path, j) != path[0] || (|path| == 1 && j == path[0])
  {
    RotatedShift(ps, path);
    var n := |path|;
    if j in path[..n - 1] {
      var k := IndexOf(path[..n - 1], j);
      assert path[k] == j;
      assert path[k + 1] != path[0];
    } else if n > 1 {
      assert path[0] in path[..n - 1];
    }
  }

  lemma SourceInjective(path: seq<int>, a: int, b: int)
    requires |path| >= 1 && NoDup(path) && a != b && a != path[|path| - 1] && b != path[|path| - 1]
    ensures Source(path, a) != Source(path, b)
  {
    var n := |path|;
    var pre := path[..n - 1];
    if a in pre && b in pre {
      var ka, kb := IndexOf(pre, a), IndexOf(pre, b);
      assert ka != kb;
    } else if a in pre {
      var ka := IndexOf(pre, a);
      assert ka + 1 < n - 1 ==> path[ka + 1] in pre;
    } else if b in pre {
      var kb := IndexOf(pre, b);
      assert kb + 1 < n - 1 ==> path[kb + 1] in pre;
    }
  }
}
