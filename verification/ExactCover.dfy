/** Exact covers of a linked matrix, independently of how they are searched for. */
module ExactCover {
  import opened Cycles
  import opened LinkedMatrix

  /** The columns met by the row of x. */
  ghost function Columns(f: Shape, x: nat): set<nat>
    requires x in f.ring
  {
    set y | y in f.ring[x] && y in f.col :: f.col[y]
  }

  /** The rows sel lie inside cols, are pairwise disjoint and together meet all of cols. */
  ghost predicate IsExactCover(f: Shape, cols: set<nat>, sel: seq<nat>)
  {
    && (forall i :: 0 <= i < |sel| ==> sel[i] in f.ring && Columns(f, sel[i]) <= cols)
    && (forall i, j :: 0 <= i < j < |sel| ==> Columns(f, sel[i]) !! Columns(f, sel[j]))
    && (forall c :: c in cols ==> MeetsColumn(f, sel, c))
  }

  ghost predicate MeetsColumn(f: Shape, sel: seq<nat>, c: nat)
    requires forall i :: 0 <= i < |sel| ==> sel[i] in f.ring
  {
    exists i :: 0 <= i < |sel| && c in Columns(f, sel[i])
  }

  ghost predicate Coverable(f: Shape, cols: set<nat>)
  {
    exists sel :: IsExactCover(f, cols, sel)
  }

  lemma MeetsAt(f: Shape, sel: seq<nat>, i: nat, c: nat)
    requires (forall k :: 0 <= k < |sel| ==> sel[k] in f.ring) && i < |sel| && c in Columns(f, sel[i])
    ensures MeetsColumn(f, sel, c)
  {
  }

  lemma MetAt(f: Shape, sel: seq<nat>, c: nat) returns (i: nat)
    requires (forall k :: 0 <= k < |sel| ==> sel[k] in f.ring) && MeetsColumn(f, sel, c)
    ensures i < |sel| && c in Columns(f, sel[i])
  {
    i :| 0 <= i < |sel| && c in Columns(f, sel[i]);
  }

  /** An exact cover of what row x leaves extends by x. */
  lemma ExtendCover(f: Shape, cols: set<nat>, x: nat, sel: seq<nat>)
    requires x in f.ring && Columns(f, x) <= cols && IsExactCover(f, cols - Columns(f, x), sel)
    ensures IsExactCover(f, cols, [x] + sel)
  {
    hide Columns, MeetsColumn;
    var t := [x] + sel;
    forall i | 0 <= i < |t|
      ensures t[i] in f.ring && Columns(f, t[i]) <= cols
      ensures forall j :: i < j < |t| ==> t[j] in f.ring && Columns(f, t[i]) !! Columns(f, t[j])
    {
      ExtendedRow(f, cols, x, sel, i);
    }
    forall c | c in cols
      ensures MeetsColumn(f, t, c)
    {
      if c in Columns(f, x) {
        MeetsAt(f, t, 0, c);
      } else {
        var i := MetAt(f, sel, c);
        MeetsAt(f, t, i + 1, c);
      }
    }
  }

  lemma ExtendedRow(f: Shape, cols: set<nat>, x: nat, sel: seq<nat>, i: nat)
    requires x in f.ring && Columns(f, x) <= cols && IsExactCover(f, cols - Columns(f, x), sel) && i <= |sel|
    ensures ([x] + sel)[i] in f.ring && Columns(f, ([x] + sel)[i]) <= cols
    ensures forall j :: i < j <= |sel| ==>
              ([x] + sel)[j] in f.ring && Columns(f, ([x] + sel)[i]) !! Columns(f, ([x] + sel)[j])
  {
    hide Columns, MeetsColumn;
    var t := [x] + sel;
    assert i > 0 ==> t[i] == sel[i - 1];
    forall j | i < j <= |sel|
      ensures t[j] in f.ring && Columns(f, t[i]) !! Columns(f, t[j])
    {
      assert t[j] == sel[j - 1];
    }
  }

  lemma SelectedApart(f: Shape, cols: set<nat>, sel: seq<nat>, i: nat, k: nat)
    requires IsExactCover(f, cols, sel) && i < |sel| && k < |sel| && i != k
    ensures sel[i] in f.ring && sel[k] in f.ring && Columns(f, sel[i]) !! Columns(f, sel[k])
  {
    if k < i {
      assert Columns(f, sel[k]) !! Columns(f, sel[i]);
    }
  }

  lemma SplitRest(f: Shape, cols: set<nat>, sel: seq<nat>, i: nat, k: nat)
    requires IsExactCover(f, cols, sel) && i < |sel| && k < |sel| - 1
    ensures sel[i] in f.ring && RemoveAt(sel, i)[k] in f.ring
    ensures Columns(f, RemoveAt(sel, i)[k]) <= cols - Columns(f, sel[i])
    ensures forall j :: k < j < |sel| - 1 ==>
              RemoveAt(sel, i)[j] in f.ring && Columns(f, RemoveAt(sel, i)[k]) !! Columns(f, RemoveAt(sel, i)[j])
  {
    hide Columns, MeetsColumn;
    var k' := if k < i then k else k + 1;
    assert RemoveAt(sel, i)[k] == sel[k'];
    SelectedApart(f, cols, sel, i, k');
    forall j | k < j < |sel| - 1
      ensures RemoveAt(sel, i)[j] in f.ring && Columns(f, RemoveAt(sel, i)[k]) !! Columns(f, RemoveAt(sel, i)[j])
    {
      var j' := if j < i then j else j + 1;
      assert RemoveAt(sel, i)[j] == sel[j'];
      SelectedApart(f, cols, sel, k', j');
    }
  }

  /** Every exact cover uses one row through column c; the rest covers what that row leaves. */
  lemma SplitCover(f: Shape, cols: set<nat>, c: nat, sel: seq<nat>) returns (i: nat)
    requires IsExactCover(f, cols, sel) && c in cols
    ensures i < |sel| && sel[i] in f.ring && c in Columns(f, sel[i]) && Columns(f, sel[i]) <= cols
    ensures IsExactCover(f, cols - Columns(f, sel[i]), RemoveAt(sel, i))
  {
    hide Columns, MeetsColumn, RemoveAt;
    i := MetAt(f, sel, c);
    var t := RemoveAt(sel, i);
    RemovedLength(sel, i);
    forall k | 0 <= k < |t|
      ensures t[k] in f.ring && Columns(f, t[k]) <= cols - Columns(f, sel[i])
      ensures forall j :: k < j < |t| ==> t[j] in f.ring && Columns(f, t[k]) !! Columns(f, t[j])
    {
      SplitRest(f, cols, sel, i, k);
    }
    forall d | d in cols - Columns(f, sel[i])
      ensures MeetsColumn(f, t, d)
    {
      RestMeets(f, cols, sel, i, d);
    }
  }

  lemma RemovedLength(sel: seq<nat>, i: nat)
    requires i < |sel|
    ensures |RemoveAt(sel, i)| == |sel| - 1
  {
  }

  /** What a row does not meet, another row of the cover meets. */
  lemma RestMeets(f: Shape, cols: set<nat>, sel: seq<nat>, i: nat, d: nat)
    requires IsExactCover(f, cols, sel) && i < |sel| && d in cols - Columns(f, sel[i])
    requires forall k :: 0 <= k < |RemoveAt(sel, i)| ==> RemoveAt(sel, i)[k] in f.ring
    ensures MeetsColumn(f, RemoveAt(sel, i), d)
  {
    hide Columns, MeetsColumn;
    var k := MetAt(f, sel, d);
    var k' := if k < i then k else k - 1;
    assert RemoveAt(sel, i)[k'] == sel[k];
    MeetsAt(f, RemoveAt(sel, i), k', d);
  }

  lemma SameRowSameColumns(f: Shape, n: nat, x: nat, y: nat)
    requires WellShaped(f, n) && x in f.ring && y in f.ring[x]
    ensures y in f.ring && Columns(f, x) == Columns(f, y)
  {
    SameRow(f, n, x, y);
  }

  /** In a consistent state the rows through a linked column c are its linked nodes. */
  lemma LinkedRows(f: Shape, s: State, c: nat, x: nat)
    requires Inv(f, s) && c in s.heads
    ensures x in s.rows[c] ==> x in f.ring && c in Columns(f, x) && Columns(f, x) <= Elements(s.heads)
    ensures x in f.ring && c in Columns(f, x) && Columns(f, x) <= Elements(s.heads) ==>
              exists y :: y in s.rows[c] && y in f.ring[x]
  {
    if x in s.rows[c] {
      assert RowOk(f, x);
      assert f.ring[x][0] == x;
    }
    if x in f.ring && c in Columns(f, x) && Columns(f, x) <= Elements(s.heads) {
      assert RowOk(f, x);
      var y :| y in f.ring[x] && y in f.col && f.col[y] == c;
      forall i | 0 <= i < |f.ring[x]|
        ensures f.ring[x][i] in f.col && f.col[f.ring[x][i]] in s.heads
      {
        assert f.col[f.ring[x][i]] in Columns(f, x);
      }
      ActiveLinked(f, s, x, y);
    }
  }

  /** Every exact cover of the linked columns uses a linked row of column c and covers what it leaves. */
  lemma CoverUsesLinkedRow(f: Shape, s: State, c: nat, sel: seq<nat>) returns (k: nat, rest: seq<nat>)
    requires Inv(f, s) && c in s.heads && IsExactCover(f, Elements(s.heads), sel)
    ensures k < |s.rows[c]| && s.rows[c][k] in f.ring
    ensures IsExactCover(f, Elements(s.heads) - Columns(f, s.rows[c][k]), rest)
  {
    var i := SplitCover(f, Elements(s.heads), c, sel);
    LinkedRows(f, s, c, sel[i]);
    var y :| y in s.rows[c] && y in f.ring[sel[i]];
    SameRowSameColumns(f, |s.m|, sel[i], y);
    k := IndexOf(s.rows[c], y);
    rest := RemoveAt(sel, i);
  }
}
