/** Facts about one level of the search: the chosen column, its rows and what they leave. */
module SearchSteps {
  import opened Cycles
  import opened LinkedMatrix
  import opened ExactCover

  // ---------- the steps of the search ----------

  lemma EmptyCover(f: Shape, s: State)
    requires s.heads == []
    ensures IsExactCover(f, Elements(s.heads), []) && Coverable(f, Elements(s.heads))
  {
    assert IsExactCover(f, Elements(s.heads), []);
  }

  lemma CoverableBy(f: Shape, cols: set<nat>, sel: seq<nat>)
    requires IsExactCover(f, cols, sel)
    ensures Coverable(f, cols)
  {
  }

  lemma SearchStarts(f: Shape, s: State, c: nat)
    requires Inv(f, s) && c in s.heads
    ensures c in f.heads && c in s.rows && c < |s.m|
    ensures forall k :: 0 <= k < |s.rows[c]| ==> s.rows[c][k] in f.ring && s.rows[c][k] != c
    ensures Inv(f, CoverState(f, s, c)) && Linked(f, CoverState(f, s, c))
    ensures CoverState(f, s, c).rows[c] == s.rows[c]
  {
    CoverKeepsInv(f, s, c);
    MidwayEnds(f, s, c);
  }

  lemma OthersAreColumns(f: Shape, n: nat, x: nat)
    requires WellShaped(f, n) && x in f.ring
    ensures |f.ring[x]| > 0 && Columns(f, x) == Elements([f.col[x]] + Others(f, x))
    ensures NoDup([f.col[x]] + Others(f, x))
  {
    assert RowOk(f, x);
    var r, cs := f.ring[x], [f.col[x]] + Others(f, x);
    assert forall i :: 0 <= i < |r| ==> cs[i] == f.col[r[i]];
    forall d
      ensures d in Columns(f, x) <==> d in cs
    {
      if d in Columns(f, x) {
        var y :| y in r && y in f.col && f.col[y] == d;
        assert cs[IndexOf(r, y)] == d;
      }
      if d in cs {
        assert r[IndexOf(cs, d)] in r;
      }
    }
  }

  /** The other columns of a linked row are linked after its first column is covered. */
  lemma LinkedRowFree(f: Shape, s: State, c: nat, k: nat)
    requires Inv(f, s) && c in s.heads && c in s.rows && k < |s.rows[c]|
    ensures s.rows[c][k] in f.ring && RowFree(f, CoverState(f, s, c), s.rows[c][k])
    ensures Columns(f, s.rows[c][k]) == Elements([c] + Others(f, s.rows[c][k]))
    ensures Columns(f, s.rows[c][k]) <= Elements(s.heads)
  {
    var row := s.rows[c][k];
    LinkedRows(f, s, c, row);
    assert ColumnOk(f, s, c);
    CoverKeepsInv(f, s, c);
    WithoutMembers(s.heads, c);
    OthersAreColumns(f, |s.m|, row);
    NoDupUncons(c, Others(f, row));
    AllLinked(s.heads, Columns(f, row), c, Others(f, row));
  }

  lemma AllLinked(heads: seq<nat>, cols: set<nat>, c: nat, cs: seq<nat>)
    requires cols <= Elements(heads) && cols == Elements([c] + cs) && c !in cs && NoDup(heads)
    ensures forall i :: 0 <= i < |cs| ==> cs[i] in Without(heads, c)
  {
    WithoutMembers(heads, c);
    forall i | 0 <= i < |cs|
      ensures cs[i] in heads
    {
      assert ([c] + cs)[i + 1] == cs[i];
      assert cs[i] in cols;
    }
  }

  /** After column c, covering the other columns of its k-th row leaves what the row leaves. */
  lemma RowSearch(f: Shape, s: State, c: nat, k: nat)
    requires Inv(f, s) && c in s.heads && c in s.rows && k < |s.rows[c]|
    ensures var row, s1 := s.rows[c][k], CoverState(f, s, c);
      && row in f.ring && |f.ring[row]| > 0 && Inv(f, s1) && RowFree(f, s1, row) && Coverings(s1, Others(f, row))
      && Columns(f, row) <= Elements(s.heads)
      && Inv(f, CoverColumns(f, s1, Others(f, row)))
      && Elements(CoverColumns(f, s1, Others(f, row)).heads) == Elements(s.heads) - Columns(f, row)
      && |CoverColumns(f, s1, Others(f, row)).heads| < |s.heads|
  {
    hide Linked, Closed, CoverState, CoverColumns, Others, Columns, Elements, Without, WithoutAll, NoDup;
    LinkedRowFree(f, s, c, k);
    CoverKeepsInv(f, s, c);
    HeadsNoDup(f, s);
    HeadsLeft(s.heads, c, Others(f, s.rows[c][k]));
  }

  lemma HeadsNoDup(f: Shape, s: State)
    requires Inv(f, s)
    ensures NoDup(s.heads)
  {
    hide ColumnOk, RowLinked, HorizontalRing, Closed, WellShaped;
  }

  lemma HeadsLeft(heads: seq<nat>, c: nat, cs: seq<nat>)
    requires NoDup(heads) && c in heads
    ensures Elements(WithoutAll(Without(heads, c), cs)) == Elements(heads) - Elements([c] + cs)
    ensures |WithoutAll(Without(heads, c), cs)| < |heads|
  {
    WithoutMembers(heads, c);
    WithoutAllMembers(Without(heads, c), cs);
  }

  /** A coverable matrix stays coverable after some row of any linked column. */
  lemma SomeRowCovers(f: Shape, s: State, c: nat)
    requires Inv(f, s) && c in s.heads && c in s.rows
    ensures Coverable(f, Elements(s.heads)) ==>
              exists k :: 0 <= k < |s.rows[c]| && s.rows[c][k] in f.ring &&
                          Coverable(f, Elements(s.heads) - Columns(f, s.rows[c][k]))
  {
    if sel :| IsExactCover(f, Elements(s.heads), sel) {
      var k, rest := CoverUsesLinkedRow(f, s, c, sel);
      CoverableBy(f, Elements(s.heads) - Columns(f, s.rows[c][k]), rest);
    }
  }

  // ---------- the columns of a row ----------

  /** The columns of the other nodes of a row, left to right. */
  ghost function Others(f: Shape, row: nat): seq<nat>
    requires row in f.ring && |f.ring[row]| > 0
  {
    seq(|f.ring[row]| - 1, i requires 0 <= i < |f.ring[row]| - 1 =>
      if f.ring[row][i + 1] in f.col then f.col[f.ring[row][i + 1]] else 0)
  }

  /** The other columns of the row are linked. */
  ghost predicate RowFree(f: Shape, s: State, row: nat)
  {
    row in f.ring && |f.ring[row]| > 0 && Coverings(s, Others(f, row))
  }

  lemma RowFreeFacts(f: Shape, s: State, row: nat)
    requires Inv(f, s) && RowFree(f, s, row)
    ensures row in f.ring && |f.ring[row]| > 0 && f.ring[row][0] == row < |s.m|
    ensures Linked(f, s) && Coverings(s, Others(f, row)) && Coverings(s, [])
    ensures Linked(f, CoverColumns(f, s, Others(f, row)))
    ensures CoverColumns(f, s, []) == s
    ensures |Others(f, row)| == |f.ring[row]| - 1
    ensures forall i :: 1 <= i < |f.ring[row]| ==>
              f.ring[row][i] != row && f.ring[row][i] in f.col && Others(f, row)[i - 1] == f.col[f.ring[row][i]]
  {
    hide ColumnOk, RowLinked, HorizontalRing, Closed, CoverState, WithoutAll, Without;
    assert RowOk(f, row);
  }

  lemma CoverNext(f: Shape, s: State, cs: seq<nat>, t: nat)
    requires Inv(f, s) && Coverings(s, cs) && t < |cs|
    ensures Coverings(s, cs[..t]) && Coverings(s, cs[..t + 1])
    ensures Inv(f, CoverColumns(f, s, cs[..t])) && Linked(f, CoverColumns(f, s, cs[..t]))
    ensures Linked(f, CoverColumns(f, s, cs[..t + 1]))
    ensures cs[t] in CoverColumns(f, s, cs[..t]).heads
    ensures CoverColumns(f, s, cs[..t + 1]) == CoverState(f, CoverColumns(f, s, cs[..t]), cs[t])
  {
    assert cs[..t + 1][..t] == cs[..t];
    LastStillLinked(s, cs[..t + 1]);
  }
}
