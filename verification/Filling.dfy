/** What the backtracking solvers of Lab1/src/Resource search for. */
module Filling {
  import opened Cycles
  import opened Sudoku

  /** f fills the blanks of b so that no filled blank agrees with a neighbour; the clues are not compared with each other. */
  ghost predicate IsFilling(b: Board, f: Board)
    requires IsClues(b)
  {
    && IsFull(f) && Extends(b, f)
    && forall i: nat, j: nat {:trigger Peers(i, j)} :: i < CELLS && j < CELLS && b[i] == 0 && Peers(i, j) ==> f[i] != f[j]
  }

  ghost predicate Fillable(b: Board)
    requires IsClues(b)
  {
    exists f :: IsFilling(b, f)
  }

  /** No two clues that are neighbours agree. */
  ghost predicate ConsistentClues(b: Board)
    requires |b| == CELLS
  {
    forall i: nat, j: nat {:trigger Peers(i, j)} :: i < CELLS && j < CELLS && Peers(i, j) && b[i] != 0 && b[j] != 0 ==>
      b[i] != b[j]
  }

  /** On consistent clues, and only there, what the solvers find is a completion. */
  lemma FillingIsCompletion(b: Board, f: Board)
    requires IsClues(b)
    ensures IsCompletion(b, f) <==> IsFilling(b, f) && ConsistentClues(b)
  {
    hide Peers;
    if IsFilling(b, f) && ConsistentClues(b) {
      forall i: nat, j: nat | i < CELLS && j < CELLS && Peers(i, j)
        ensures f[i] != f[j]
      {
        PeersAreMutual(i, j);
      }
    }
    if IsCompletion(b, f) {
      forall i: nat, j: nat | i < CELLS && j < CELLS && Peers(i, j) && b[i] != 0 && b[j] != 0
        ensures b[i] != b[j]
      {
        assert f[i] != f[j];
      }
    }
  }

  lemma PeersAreMutual(i: nat, j: nat)
    requires i < CELLS && j < CELLS && Peers(i, j)
    ensures Peers(j, i)
  {
  }

  /** No neighbour of cell holds v. */
  ghost predicate Available(b: Board, cell: nat, v: int)
    requires |b| == CELLS && cell < CELLS
  {
    forall j: nat {:trigger Peers(cell, j)} :: j < CELLS && Peers(cell, j) ==> b[j] != v
  }

  /** A blank can be filled with exactly the available values that leave the rest fillable. */
  lemma FillableStep(b: Board, cell: nat)
    requires IsClues(b) && cell < CELLS && b[cell] == 0
    ensures Fillable(b) <==> exists v :: 1 <= v <= 9 && Available(b, cell, v) && Fillable(b[cell := v])
  {
    if Fillable(b) {
      var f :| IsFilling(b, f);
      FillingPicks(b, cell, f);
      assert 1 <= f[cell] <= 9 && Available(b, cell, f[cell]) && Fillable(b[cell := f[cell]]);
    }
    if v :| 1 <= v <= 9 && Available(b, cell, v) && Fillable(b[cell := v]) {
      var f :| IsFilling(b[cell := v], f);
      PickFills(b, cell, v, f);
    }
  }

  lemma FillingPicks(b: Board, cell: nat, f: Board)
    requires IsClues(b) && cell < CELLS && b[cell] == 0 && IsFilling(b, f)
    ensures 1 <= f[cell] <= 9 && Available(b, cell, f[cell]) && IsFilling(b[cell := f[cell]], f)
  {
    hide Peers;
    forall j: nat | j < CELLS && Peers(cell, j)
      ensures b[j] != f[cell]
    {
      assert f[cell] != f[j];
    }
  }

  lemma PickFills(b: Board, cell: nat, v: int, f: Board)
    requires IsClues(b) && cell < CELLS && b[cell] == 0 && 1 <= v <= 9 && Available(b, cell, v)
    requires IsFilling(b[cell := v], f)
    ensures IsFilling(b, f)
  {
    hide Peers;
    forall i: nat, j: nat | i < CELLS && j < CELLS && b[i] == 0 && Peers(i, j)
      ensures f[i] != f[j]
    {
      if i == cell {
        PeersAreMutual(i, j);
        assert f[cell] == v;
      }
    }
    assert Extends(b, f);
  }

  /** A board without blanks is its own filling. */
  lemma FullIsFilled(b: Board)
    requires IsClues(b) && forall i :: 0 <= i < CELLS ==> b[i] != 0
    ensures IsFilling(b, b)
  {
  }

  // ---------- the cells still to fill ----------

  /** Each blank cell of b is once in m, and nothing else is. */
  ghost predicate Pending(b: Board, m: multiset<nat>)
    requires |b| == CELLS
  {
    forall i: nat {:trigger m[i]} :: m[i] == if i < CELLS && b[i] == 0 then 1 else 0
  }

  /** The same for the cells below limit. */
  ghost predicate PendingBelow(b: Board, m: multiset<nat>, limit: nat)
    requires |b| == CELLS && limit <= CELLS
  {
    forall i: nat {:trigger m[i]} :: m[i] == if i < limit && b[i] == 0 then 1 else 0
  }

  lemma PendingMore(b: Board, s: seq<nat>, cell: nat)
    requires |b| == CELLS && cell < CELLS && PendingBelow(b, multiset(s), cell)
    ensures b[cell] == 0 ==> PendingBelow(b, multiset(s + [cell]), cell + 1)
    ensures b[cell] != 0 ==> PendingBelow(b, multiset(s), cell + 1)
  {
    assert multiset(s + [cell]) == multiset(s) + multiset{cell};
  }

  lemma PendingNone(b: Board)
    requires IsClues(b) && Pending(b, multiset{})
    ensures IsFilling(b, b)
  {
    forall i: nat | i < CELLS
      ensures b[i] != 0
    {
      assert multiset{}[i] == 0;
    }
    FullIsFilled(b);
  }

  /** What is left to do once the first space is filled. */
  lemma PendingStep(b: Board, s: seq<nat>, v: int)
    requires |b| == CELLS && |s| > 0 && Pending(b, multiset(s)) && v != 0
    ensures s[0] < CELLS && b[s[0]] == 0 && Pending(b[s[0] := v], multiset(s[1..]))
  {
    assert s == [s[0]] + s[1..];
    assert multiset(s)[s[0]] > 0;
    forall i: nat
      ensures multiset(s[1..])[i] == if i < CELLS && b[s[0] := v][i] == 0 then 1 else 0
    {
      assert multiset(s)[i] == (if i == s[0] then 1 else 0) + multiset(s[1..])[i];
    }
  }

  /** t is s with the entries from k on, up to n, in some other order. */
  ghost predicate Reordered(s: seq<nat>, t: seq<nat>, k: nat, n: nat)
    requires k <= n <= |s|
  {
    |t| == |s| && t[..k] == s[..k] && t[n..] == s[n..] && multiset(t[k..n]) == multiset(s[k..n])
  }

  lemma ReorderedLess(s: seq<nat>, t: seq<nat>, u: seq<nat>, k: nat, n: nat)
    requires k < n <= |s| && Reordered(s, t, k, n) && Reordered(t, u, k + 1, n)
    ensures Reordered(s, u, k, n) && u[k] == t[k]
  {
    assert u[k] == u[..k + 1][k] == t[..k + 1][k];
    assert u[..k] == u[..k + 1][..k] && t[..k] == t[..k + 1][..k];
    assert u[k..n] == [u[k]] + u[k + 1..n] && t[k..n] == [t[k]] + t[k + 1..n];
  }

  lemma PendingReordered(b: Board, s: seq<nat>, t: seq<nat>, k: nat, n: nat)
    requires |b| == CELLS && k <= n <= |s| && Reordered(s, t, k, n) && Pending(b, multiset(s[k..n]))
    ensures Pending(b, multiset(t[k..n]))
  {
  }

  lemma PendingAreBlank(b: Board, s: seq<nat>, k: nat, n: nat)
    requires |b| == CELLS && k <= n <= |s| && Pending(b, multiset(s[k..n]))
    ensures forall i :: k <= i < n ==> s[i] < CELLS && b[s[i]] == 0
  {
    forall i | k <= i < n
      ensures s[i] < CELLS && b[s[i]] == 0
    {
      assert s[k..n][i - k] in multiset(s[k..n]);
    }
  }

  lemma SwapReorders(s: seq<nat>, k: nat, i: nat, n: nat)
    requires k <= i < n <= |s|
    ensures Reordered(s, s[k := s[i]][i := s[k]], k, n)
  {
    var t := s[k := s[i]][i := s[k]];
    var a, b := s[k..n], t[k..n];
    assert b == a[0 := a[i - k]][i - k := a[0]];
    SwapMultiset(a, i - k);
  }

  lemma SwapMultiset(a: seq<nat>, i: nat)
    requires i < |a|
    ensures multiset(a[0 := a[i]][i := a[0]]) == multiset(a)
  {
  }

  // ---------- arity: how many values are available ----------

  ghost function Arity(b: Board, cell: nat, n: nat): nat
    requires |b| == CELLS && cell < CELLS
  {
    if n == 0 then 0 else Arity(b, cell, n - 1) + if Available(b, cell, n) then 1 else 0
  }

  /** How many of the entries 1 to n are false. */
  function Open(row: seq<bool>, n: nat): (k: nat)
    requires n < |row|
    ensures k <= n
  {
    if n == 0 then 0 else Open(row, n - 1) + if row[n] then 0 else 1
  }

  lemma {:induction false} OpenIsArity(row: seq<bool>, b: Board, cell: nat, n: nat)
    requires n < |row| && |b| == CELLS && cell < CELLS
    requires forall v: nat {:trigger row[v]} :: 1 <= v <= n ==> (row[v] <==> !Available(b, cell, v))
    ensures Open(row, n) == Arity(b, cell, n)
  {
    if n > 0 {
      OpenIsArity(row, b, cell, n - 1);
    }
  }

  lemma {:induction false} OpenLess(row: seq<bool>, v: nat, n: nat)
    requires 1 <= v < |row| && n < |row| && !row[v]
    ensures Open(row[v := true], n) == Open(row, n) - if v <= n then 1 else 0
  {
    if n > 0 {
      OpenLess(row, v, n - 1);
    }
  }

  lemma {:induction false} OpenSame(row: seq<bool>, row': seq<bool>, n: nat)
    requires |row| == |row'| && n < |row| && forall v :: 1 <= v <= n ==> row[v] == row'[v]
    ensures Open(row, n) == Open(row', n)
  {
    if n > 0 {
      OpenSame(row, row', n - 1);
    }
  }

  // ---------- the incremental cache ----------

  /** row tells, for each value, that some neighbour of cell holds it. */
  ghost predicate RowOk(b: Board, cell: nat, row: seq<bool>)
    requires |b| == CELLS && cell < CELLS
  {
    |row| == 10 && forall v: nat {:trigger row[v]} :: 1 <= v <= 9 ==> (row[v] <==> !Available(b, cell, v))
  }

  ghost predicate CacheShape(occ: seq<seq<bool>>, ar: seq<int>)
  {
    |occ| == |ar| == CELLS && forall c :: 0 <= c < CELLS ==> |occ[c]| == 10
  }

  /** For every blank cell the cache says what recomputation from the board would. */
  ghost predicate CacheOk(b: Board, occ: seq<seq<bool>>, ar: seq<int>)
    requires |b| == CELLS
  {
    && CacheShape(occ, ar)
    && forall c: nat {:trigger occ[c]} {:trigger ar[c]} :: c < CELLS && b[c] == 0 ==>
         RowOk(b, c, occ[c]) && ar[c] == Arity(b, c, 9)
  }

  /** occ' and ar' are occ and ar with value v newly occupied in the cells of ms. */
  ghost predicate Marked(occ: seq<seq<bool>>, ar: seq<int>, ms: seq<nat>, v: nat, occ': seq<seq<bool>>, ar': seq<int>)
    requires CacheShape(occ, ar) && v < 10
  {
    && CacheShape(occ', ar')
    && forall c: nat {:trigger occ'[c]} {:trigger ar'[c]} :: c < CELLS ==>
         && occ'[c] == (if c in ms then occ[c][v := true] else occ[c])
         && ar'[c] == ar[c] - (if c in ms then 1 else 0)
  }

  lemma MarkOne(occ: seq<seq<bool>>, ar: seq<int>, ms: seq<nat>, v: nat, occ': seq<seq<bool>>, ar': seq<int>, c: nat)
    requires CacheShape(occ, ar) && v < 10 && Marked(occ, ar, ms, v, occ', ar') && c < CELLS && c !in ms
    ensures Marked(occ, ar, ms + [c], v, occ'[c := occ'[c][v := true]], ar'[c := ar'[c] - 1])
  {
  }

  lemma UnmarkOne(occ: seq<seq<bool>>, ar: seq<int>, ms: seq<nat>, v: nat, occ': seq<seq<bool>>, ar': seq<int>)
    requires CacheShape(occ, ar) && v < 10 && Marked(occ, ar, ms, v, occ', ar') && |ms| > 0 && NoDup(ms)
    requires ms[0] < CELLS && !occ[ms[0]][v]
    ensures occ'[ms[0]][v]
    ensures Marked(occ, ar, ms[1..], v, occ'[ms[0] := occ'[ms[0]][v := false]], ar'[ms[0] := ar'[ms[0]] + 1])
  {
    var c := ms[0];
    assert ms == [c] + ms[1..];
    assert c !in ms[1..];
    assert occ[c][v := true][v := false] == occ[c];
  }

  lemma UnmarkedAll(occ: seq<seq<bool>>, ar: seq<int>, v: nat, occ': seq<seq<bool>>, ar': seq<int>)
    requires CacheShape(occ, ar) && v < 10 && Marked(occ, ar, [], v, occ', ar')
    ensures occ' == occ && ar' == ar
  {
  }

  /** The cells holding a guess changes: the neighbours where its value was not occupied before. */
  ghost predicate Touches(occ: seq<seq<bool>>, cell: nat, v: nat, ms: seq<nat>)
    requires |occ| == CELLS && cell < CELLS && v < 10 && forall c :: 0 <= c < CELLS ==> |occ[c]| == 10
  {
    NoDup(ms) && forall c: nat {:trigger c in ms} :: c in ms <==> c < CELLS && Peers(cell, c) && !occ[c][v]
  }

  /** Holding a guess keeps the cache right for the cells that are still blank. */
  lemma HoldKeepsCache(b: Board, occ: seq<seq<bool>>, ar: seq<int>, cell: nat, v: nat, ms: seq<nat>,
                       occ': seq<seq<bool>>, ar': seq<int>)
    requires IsClues(b) && CacheOk(b, occ, ar) && cell < CELLS && b[cell] == 0 && 1 <= v <= 9
    requires Touches(occ, cell, v, ms) && Marked(occ[cell := occ[cell][v := true]], ar, ms, v, occ', ar')
    ensures CacheOk(b[cell := v], occ', ar')
  {
    hide Peers, Available, Arity;
    forall c: nat | c < CELLS && b[cell := v][c] == 0
      ensures RowOk(b[cell := v], c, occ'[c]) && ar'[c] == Arity(b[cell := v], c, 9)
    {
      assert RowOk(b, c, occ[c]);
      OneMoreHeld(b, cell, v, c);
      if Peers(cell, c) {
        PeersAreMutual(cell, c);
      }
      if Peers(c, cell) {
        PeersAreMutual(c, cell);
      }
      if c in ms {
        OpenLess(occ[c], v, 9);
      }
      OpenIsArity(occ[c], b, c, 9);
      OpenIsArity(occ'[c], b[cell := v], c, 9);
    }
  }

  lemma OneMoreHeld(b: Board, cell: nat, v: nat, c: nat)
    requires IsClues(b) && cell < CELLS && c < CELLS && c != cell && b[cell] == 0 && 1 <= v <= 9
    ensures forall w :: 1 <= w <= 9 ==>
              (Available(b[cell := v], c, w) <==> Available(b, c, w) && !(Peers(c, cell) && w == v))
  {
    hide Peers;
    var b' := b[cell := v];
    forall w | 1 <= w <= 9
      ensures Available(b', c, w) <==> Available(b, c, w) && !(Peers(c, cell) && w == v)
    {
      if Available(b, c, w) && !(Peers(c, cell) && w == v) {
        assert Available(b', c, w);
      }
      if Available(b', c, w) {
        forall j: nat | j < CELLS && Peers(c, j)
          ensures b[j] != w
        {
          assert b'[j] != w;
        }
      }
    }
  }

  /** Taking a guess back, before the neighbours are unmarked. */
  lemma UnholdCell(occ: seq<seq<bool>>, ar: seq<int>, cell: nat, v: nat, ms: seq<nat>, occ': seq<seq<bool>>, ar': seq<int>)
    requires CacheShape(occ, ar) && cell < CELLS && v < 10 && !occ[cell][v] && Touches(occ, cell, v, ms)
    requires Marked(occ[cell := occ[cell][v := true]], ar, ms, v, occ', ar')
    ensures Marked(occ, ar, ms, v, occ'[cell := occ'[cell][v := false]], ar')
  {
    assert !Peers(cell, cell);
    assert cell !in ms;
    assert occ[cell][v := true][v := false] == occ[cell];
  }

  // ---------- building the cache ----------

  /** Some neighbour of c below limit holds v. */
  ghost predicate HeldBelow(b: Board, c: nat, v: int, limit: nat)
    requires |b| == CELLS && c < CELLS && limit <= CELLS
  {
    exists j: nat {:trigger Peers(c, j)} :: j < limit && Peers(c, j) && b[j] == v
  }

  ghost predicate RowBelow(b: Board, c: nat, row: seq<bool>, limit: nat)
    requires |b| == CELLS && c < CELLS && limit <= CELLS && |row| == 10
  {
    forall v: nat {:trigger row[v]} :: 1 <= v <= 9 ==> (row[v] <==> HeldBelow(b, c, v, limit))
  }

  /** For the blank cells, the cache says what the cells below limit hold. */
  ghost predicate CacheBelow(b: Board, occ: seq<seq<bool>>, ar: seq<int>, limit: nat)
    requires |b| == CELLS && limit <= CELLS
  {
    && CacheShape(occ, ar)
    && forall c: nat {:trigger occ[c]} {:trigger ar[c]} :: c < CELLS && b[c] == 0 ==>
         RowBelow(b, c, occ[c], limit) && ar[c] == Open(occ[c], 9)
  }

  lemma CacheComplete(b: Board, occ: seq<seq<bool>>, ar: seq<int>)
    requires |b| == CELLS && CacheBelow(b, occ, ar, CELLS)
    ensures CacheOk(b, occ, ar)
  {
    hide Peers, Arity;
    forall c: nat | c < CELLS && b[c] == 0
      ensures RowOk(b, c, occ[c]) && ar[c] == Arity(b, c, 9)
    {
      assert RowBelow(b, c, occ[c], CELLS);
      forall v: nat | 1 <= v <= 9
        ensures occ[c][v] <==> !Available(b, c, v)
      {
        assert occ[c][v] <==> HeldBelow(b, c, v, CELLS);
      }
      OpenIsArity(occ[c], b, c, 9);
    }
  }

  /** A cell without a value tells its neighbours nothing. */
  lemma CacheSkips(b: Board, occ: seq<seq<bool>>, ar: seq<int>, cell: nat)
    requires |b| == CELLS && cell < CELLS && CacheBelow(b, occ, ar, cell) && b[cell] <= 0
    ensures CacheBelow(b, occ, ar, cell + 1)
  {
    hide Peers;
    forall c: nat | c < CELLS && b[c] == 0
      ensures RowBelow(b, c, occ[c], cell + 1)
    {
      assert RowBelow(b, c, occ[c], cell);
      HeldMore(b, c, cell);
    }
  }

  lemma HeldMore(b: Board, c: nat, cell: nat)
    requires |b| == CELLS && c < CELLS && cell < CELLS
    ensures forall v :: HeldBelow(b, c, v, cell + 1) <==> HeldBelow(b, c, v, cell) || (Peers(c, cell) && b[cell] == v)
  {
    hide Peers;
    forall v
      ensures HeldBelow(b, c, v, cell + 1) <==> HeldBelow(b, c, v, cell) || (Peers(c, cell) && b[cell] == v)
    {
      if HeldBelow(b, c, v, cell + 1) {
        var j: nat :| j < cell + 1 && Peers(c, j) && b[j] == v;
        assert j < cell ==> HeldBelow(b, c, v, cell);
      }
      if HeldBelow(b, c, v, cell) {
        var j: nat :| j < cell && Peers(c, j) && b[j] == v;
        assert HeldBelow(b, c, v, cell + 1);
      }
    }
  }

  lemma ZeroIsIgnored(b: Board, occ: seq<seq<bool>>, ar: seq<int>, cell: nat)
    requires |b| == CELLS && cell < CELLS && CacheBelow(b, occ, ar, cell)
    ensures CacheBelow(b, occ[cell := occ[cell][0 := true]], ar, cell)
  {
    hide Peers, HeldBelow;
    var occ' := occ[cell := occ[cell][0 := true]];
    forall c: nat | c < CELLS && b[c] == 0
      ensures RowBelow(b, c, occ'[c], cell) && ar[c] == Open(occ'[c], 9)
    {
      assert RowBelow(b, c, occ[c], cell);
      OpenSame(occ[c], occ'[c], 9);
    }
  }

  /** A cell with a value marks it for its neighbours; its own row no longer matters. */
  lemma CacheMarks(b: Board, occ: seq<seq<bool>>, ar: seq<int>, cell: nat, v: nat, ms: seq<nat>,
                   occ': seq<seq<bool>>, ar': seq<int>)
    requires IsClues(b) && cell < CELLS && CacheBelow(b, occ, ar, cell) && b[cell] == v && 1 <= v <= 9
    requires Touches(occ, cell, v, ms) && Marked(occ[cell := occ[cell][v := true]], ar, ms, v, occ', ar')
    ensures CacheBelow(b, occ', ar', cell + 1)
  {
    hide Peers, HeldBelow, Open;
    forall c: nat | c < CELLS && b[c] == 0
      ensures RowBelow(b, c, occ'[c], cell + 1) && ar'[c] == Open(occ'[c], 9)
    {
      assert RowBelow(b, c, occ[c], cell);
      HeldMore(b, c, cell);
      if Peers(cell, c) {
        PeersAreMutual(cell, c);
      }
      if Peers(c, cell) {
        PeersAreMutual(c, cell);
      }
      if c in ms {
        OpenLess(occ[c], v, 9);
      }
    }
  }

  lemma CacheStarts(b: Board, occ: seq<seq<bool>>, ar: seq<int>)
    requires |b| == CELLS && CacheShape(occ, ar)
    requires forall c: nat, v: nat :: c < CELLS && 1 <= v <= 9 ==> !occ[c][v]
    requires forall c: nat :: c < CELLS ==> ar[c] == 9
    ensures CacheBelow(b, occ, ar, 0)
  {
    hide Peers;
    forall c: nat | c < CELLS && b[c] == 0
      ensures RowBelow(b, c, occ[c], 0) && ar[c] == Open(occ[c], 9)
    {
      AllOpen(occ[c], 9);
    }
  }

  lemma {:induction false} AllOpen(row: seq<bool>, n: nat)
    requires n < |row| && forall v :: 1 <= v <= n ==> !row[v]
    ensures Open(row, n) == n
  {
    if n > 0 {
      AllOpen(row, n - 1);
    }
  }
}
