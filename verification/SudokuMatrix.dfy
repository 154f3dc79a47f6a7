/** Which matrix stands for a puzzle, and why its exact covers are the puzzle's completions. */
module SudokuMatrix {
  import opened LinkedMatrix
  import opened ExactCover
  import opened Decoding
  import opened Sudoku

  const NAMES: nat := 400

  /** The name of the column for value v in a unit: the hundreds say row, column or box. */
  function UnitName(kind: nat, u: nat, v: nat): (n: nat)
    requires kind < KINDS && u < SIDE && 1 <= v <= 9
    ensures 100 <= n < NAMES
  {
    100 * (kind + 1) + u * 10 + v
  }

  /** Cell i is blank and v does not occur in its row, column or box. */
  ghost predicate Candidate(clues: Board, i: nat, v: nat)
    requires |clues| == CELLS
  {
    && i < CELLS && clues[i] == 0 && 1 <= v <= 9
    && !HasValue(clues, 0, UnitOf(0, i), v) && !HasValue(clues, 1, UnitOf(1, i), v) && !HasValue(clues, 2, UnitOf(2, i), v)
  }

  /** The columns a puzzle asks for: its blank cells and the values its units still miss. */
  ghost predicate IsColumn(clues: Board, n: nat)
    requires |clues| == CELLS
  {
    || (n < CELLS && clues[n] == 0)
    || (exists kind: nat, u: nat, v: nat :: kind < KINDS && u < SIDE && 1 <= v <= 9 &&
          n == UnitName(kind, u, v) && !HasValue(clues, kind, u, v))
  }

  /** The four names of candidate (i, v). */
  function NamesOf(i: nat, v: nat): (ns: seq<nat>)
    requires i < CELLS && 1 <= v <= 9
    ensures |ns| == 4 && forall k :: 0 <= k < 4 ==> ns[k] < NAMES
  {
    [i, UnitName(0, UnitOf(0, i), v), UnitName(1, UnitOf(1, i), v), UnitName(2, UnitOf(2, i), v)]
  }

  lemma UnitNamesDiffer(kind: nat, u: nat, v: nat, kind': nat, u': nat, v': nat)
    requires kind < KINDS && u < SIDE && 1 <= v <= 9
    requires kind' < KINDS && u' < SIDE && 1 <= v' <= 9
    ensures UnitName(kind, u, v) == UnitName(kind', u', v') ==> kind == kind' && u == u' && v == v'
  {
  }

  /**
   cols says which header carries each name (-1 for none), of says which candidate the
   row of each node stands for; the matrix f is the puzzle's.
   */
  ghost predicate IsMatrix(f: Shape, cols: seq<int>, of: map<nat, (nat, nat)>, clues: Board)
    requires |clues| == CELLS
  {
    && |cols| == NAMES && Decodable(f) && of.Keys == f.ring.Keys
    && (forall n: nat {:trigger IsColumn(clues, n)} :: n < NAMES ==> (cols[n] != -1 <==> IsColumn(clues, n)))
    && (forall n: nat :: n < NAMES && cols[n] != -1 ==> cols[n] >= 0 && cols[n] in f.heads)
    && (forall n: nat, n': nat :: n < n' < NAMES && cols[n] != -1 ==> cols[n] != cols[n'])
    && (forall c {:trigger c in f.heads} :: c in f.heads ==> c in cols)
    && (forall x {:trigger of[x]} :: x in f.ring ==> RowStandsFor(f, cols, x, of[x].0, of[x].1, clues))
    && (forall i: nat, v: nat {:trigger Candidate(clues, i, v)} :: Candidate(clues, i, v) ==> HasRow(of, i, v))
  }

  ghost predicate HasRow(of: map<nat, (nat, nat)>, i: nat, v: nat)
  {
    exists x :: x in of && of[x] == (i, v)
  }

  ghost predicate RowStandsFor(f: Shape, cols: seq<int>, x: nat, i: nat, v: nat, clues: Board)
    requires |clues| == CELLS && |cols| == NAMES && x in f.ring && Decodable(f)
  {
    && Candidate(clues, i, v) && Decoded(f, x) == (i, v)
    && (forall c {:trigger c in Columns(f, x)} :: c in Columns(f, x) <==> NamesColumn(cols, i, v, c))
  }

  /** c is one of the four headers candidate (i, v) names. */
  ghost predicate NamesColumn(cols: seq<int>, i: nat, v: nat, c: nat)
    requires |cols| == NAMES && i < CELLS && 1 <= v <= 9
  {
    exists k :: 0 <= k < 4 && c == cols[NamesOf(i, v)[k]]
  }

  // ---------- which names a candidate has ----------

  lemma CandidateHits(i: nat, v: nat, kind: nat, u: nat, w: nat)
    requires i < CELLS && 1 <= v <= 9 && kind < KINDS && u < SIDE && 1 <= w <= 9
    ensures UnitName(kind, u, w) in NamesOf(i, v) <==> UnitOf(kind, i) == u && v == w
    ensures forall n :: n < CELLS ==> (n in NamesOf(i, v) <==> n == i)
  {
    UnitNamesDiffer(kind, u, w, 0, UnitOf(0, i), v);
    UnitNamesDiffer(kind, u, w, 1, UnitOf(1, i), v);
    UnitNamesDiffer(kind, u, w, 2, UnitOf(2, i), v);
    assert NamesOf(i, v)[kind + 1] == UnitName(kind, UnitOf(kind, i), v);
  }

  lemma CandidateColumns(clues: Board, i: nat, v: nat)
    requires |clues| == CELLS && Candidate(clues, i, v)
    ensures forall k :: 0 <= k < 4 ==> IsColumn(clues, NamesOf(i, v)[k])
  {
  }

  /** The row of x meets the column named n exactly when x's candidate has that name. */
  lemma RowMeets(f: Shape, cols: seq<int>, of: map<nat, (nat, nat)>, clues: Board, x: nat, n: nat)
    requires |clues| == CELLS && IsMatrix(f, cols, of, clues) && x in f.ring && IsColumn(clues, n) && n < NAMES
    ensures x in of && of[x].0 < CELLS && 1 <= of[x].1 <= 9
    ensures cols[n] >= 0 && cols[n] in f.heads
    ensures cols[n] in Columns(f, x) <==> n in NamesOf(of[x].0, of[x].1)
  {
    var i, v := of[x].0, of[x].1;
    assert RowStandsFor(f, cols, x, i, v, clues);
    CandidateColumns(clues, i, v);
    var ns := NamesOf(i, v);
    assert cols[n] != -1;
    if cols[n] in Columns(f, x) {
      assert NamesColumn(cols, i, v, cols[n]);
      var k :| 0 <= k < 4 && cols[n] == cols[ns[k]];
      assert IsColumn(clues, ns[k]);
      assert ns[k] == n;
    }
    if n in ns {
      var k :| 0 <= k < 4 && ns[k] == n;
      assert cols[n] == cols[ns[k]];
      var c: nat := cols[n];
      assert NamesColumn(cols, i, v, c);
      assert c in Columns(f, x);
    }
  }

  // ---------- what the decoded board shows ----------

  ghost predicate Writes(f: Shape, x: nat, i: nat)
    requires Decodable(f) && x in f.ring
  {
    Decoded(f, x).0 == i
  }

  lemma {:induction false} WrittenCell(f: Shape, board: seq<int>, sel: seq<nat>, i: nat, k: nat)
    requires Decodable(f) && |board| == CELLS && i < CELLS
    requires forall l :: 0 <= l < |sel| ==> sel[l] in f.ring
    requires k <= |sel| && forall l :: k < l < |sel| ==> !Writes(f, sel[l], i)
    requires k < |sel| ==> Writes(f, sel[k], i)
    requires k == |sel| ==> forall l :: 0 <= l < |sel| ==> !Writes(f, sel[l], i)
    ensures WriteRows(f, board, sel)[i] == if k < |sel| then Decoded(f, sel[k]).1 else board[i]
  {
    if sel != [] {
      var init := sel[..|sel| - 1];
      if k != |sel| - 1 {
        assert !Writes(f, sel[|sel| - 1], i);
        WrittenCell(f, board, init, i, if k < |sel| then k else |sel| - 1);
      }
    }
  }

  /** In an exact cover, every blank cell is written by one row, every clue by none. */
  lemma CoverWrites(f: Shape, cols: seq<int>, of: map<nat, (nat, nat)>, clues: Board, sel: seq<nat>, i: nat)
    requires |clues| == CELLS && IsMatrix(f, cols, of, clues) && IsExactCover(f, f.heads, sel) && i < CELLS
    ensures clues[i] != 0 ==> WriteRows(f, clues, sel)[i] == clues[i]
    ensures clues[i] == 0 ==> exists k ::
              0 <= k < |sel| && sel[k] in of && of[sel[k]] == (i, WriteRows(f, clues, sel)[i])
  {
    forall l | 0 <= l < |sel|
      ensures sel[l] in of && Decoded(f, sel[l]) == of[sel[l]] && clues[of[sel[l]].0] == 0
      ensures of[sel[l]].0 < CELLS && 1 <= of[sel[l]].1 <= 9
    {
      assert RowStandsFor(f, cols, sel[l], of[sel[l]].0, of[sel[l]].1, clues);
    }
    if clues[i] == 0 {
      assert IsColumn(clues, i);
      assert cols[i] != -1 && cols[i] in f.heads;
      assert MeetsColumn(f, sel, cols[i]);
      var k :| 0 <= k < |sel| && cols[i] in Columns(f, sel[k]);
      RowMeets(f, cols, of, clues, sel[k], i);
      CandidateHits(of[sel[k]].0, of[sel[k]].1, 0, 0, 1);
      forall l | k < l < |sel|
        ensures !Writes(f, sel[l], i)
      {
        RowMeets(f, cols, of, clues, sel[l], i);
        CandidateHits(of[sel[l]].0, of[sel[l]].1, 0, 0, 1);
        assert Columns(f, sel[k]) !! Columns(f, sel[l]);
      }
      WrittenCell(f, clues, sel, i, k);
    } else {
      WrittenCell(f, clues, sel, i, |sel|);
    }
  }

  /** An exact cover of a puzzle's matrix decodes to a completion of the puzzle. */
  lemma CoverCompletes(f: Shape, cols: seq<int>, of: map<nat, (nat, nat)>, clues: Board, sel: seq<nat>)
    requires IsClues(clues) && IsMatrix(f, cols, of, clues) && IsExactCover(f, f.heads, sel)
    ensures IsCompletion(clues, WriteRows(f, clues, sel))
  {
    var b := WriteRows(f, clues, sel);
    forall i: nat | i < CELLS
      ensures 1 <= b[i] <= 9 && (clues[i] != 0 ==> b[i] == clues[i])
    {
      CoverWrites(f, cols, of, clues, sel, i);
      if clues[i] == 0 {
        var k :| 0 <= k < |sel| && sel[k] in of && of[sel[k]] == (i, b[i]);
        assert RowStandsFor(f, cols, sel[k], of[sel[k]].0, of[sel[k]].1, clues);
      }
    }
    forall kind: nat, u: nat, v | kind < KINDS && u < SIDE && 1 <= v <= 9
      ensures HasValue(b, kind, u, v)
    {
      CoverHasValue(f, cols, of, clues, sel, kind, u, v);
    }
    ValuesExcludeClash(b);
  }

  lemma CoverHasValue(f: Shape, cols: seq<int>, of: map<nat, (nat, nat)>, clues: Board, sel: seq<nat>,
                      kind: nat, u: nat, v: nat)
    requires IsClues(clues) && IsMatrix(f, cols, of, clues) && IsExactCover(f, f.heads, sel)
    requires kind < KINDS && u < SIDE && 1 <= v <= 9
    ensures HasValue(WriteRows(f, clues, sel), kind, u, v)
  {
    var b := WriteRows(f, clues, sel);
    if HasValue(clues, kind, u, v) {
      var i: nat :| i < CELLS && UnitOf(kind, i) == u && clues[i] == v;
      CoverWrites(f, cols, of, clues, sel, i);
      assert b[i] == v;
    } else {
      var n := UnitName(kind, u, v);
      assert IsColumn(clues, n);
      assert cols[n] != -1 && cols[n] in f.heads;
      assert MeetsColumn(f, sel, cols[n]);
      var k :| 0 <= k < |sel| && cols[n] in Columns(f, sel[k]);
      RowMeets(f, cols, of, clues, sel[k], n);
      var i, w := of[sel[k]].0, of[sel[k]].1;
      CandidateHits(i, w, kind, u, v);
      assert RowStandsFor(f, cols, sel[k], i, w, clues);
      CoverWrites(f, cols, of, clues, sel, i);
      var k' :| 0 <= k' < |sel| && sel[k'] in of && of[sel[k']] == (i, b[i]);
      OneRowPerCell(f, cols, of, clues, sel, k, k', i);
      assert b[i] == v && UnitOf(kind, i) == u;
    }
  }

  lemma OneRowPerCell(f: Shape, cols: seq<int>, of: map<nat, (nat, nat)>, clues: Board, sel: seq<nat>,
                      k: nat, k': nat, i: nat)
    requires |clues| == CELLS && IsMatrix(f, cols, of, clues) && IsExactCover(f, f.heads, sel)
    requires k < |sel| && k' < |sel| && sel[k] in of && sel[k'] in of && of[sel[k]].0 == i == of[sel[k']].0
    ensures k == k'
  {
    assert RowStandsFor(f, cols, sel[k], of[sel[k]].0, of[sel[k]].1, clues);
    assert RowStandsFor(f, cols, sel[k'], of[sel[k']].0, of[sel[k']].1, clues);
    assert IsColumn(clues, i);
    RowMeets(f, cols, of, clues, sel[k], i);
    RowMeets(f, cols, of, clues, sel[k'], i);
    CandidateHits(i, of[sel[k]].1, 0, 0, 1);
    CandidateHits(i, of[sel[k']].1, 0, 0, 1);
    if k != k' {
      SelectedApart(f, f.heads, sel, k, k');
    }
  }

  /** The candidates an exact cover picks are its board's blank cells with their values. */
  lemma CoverIsItsBoard(f: Shape, cols: seq<int>, of: map<nat, (nat, nat)>, clues: Board, sel: seq<nat>, i: nat, v: nat)
    requires IsClues(clues) && IsMatrix(f, cols, of, clues) && IsExactCover(f, f.heads, sel)
    ensures (exists k :: 0 <= k < |sel| && sel[k] in of && of[sel[k]] == (i, v)) <==>
            i < CELLS && clues[i] == 0 && v == WriteRows(f, clues, sel)[i]
  {
    if k :| 0 <= k < |sel| && sel[k] in of && of[sel[k]] == (i, v) {
      assert RowStandsFor(f, cols, sel[k], of[sel[k]].0, of[sel[k]].1, clues);
      CoverWrites(f, cols, of, clues, sel, i);
      var k' :| 0 <= k' < |sel| && sel[k'] in of && of[sel[k']] == (i, WriteRows(f, clues, sel)[i]);
      OneRowPerCell(f, cols, of, clues, sel, k, k', i);
    }
    if i < CELLS && clues[i] == 0 {
      CoverWrites(f, cols, of, clues, sel, i);
    }
  }

  // ---------- a completion is an exact cover ----------

  lemma CompletionCandidate(clues: Board, b: Board, i: nat)
    requires |clues| == CELLS && IsCompletion(clues, b) && i < CELLS && clues[i] == 0
    ensures b[i] >= 0 && Candidate(clues, i, b[i])
  {
    forall kind: nat | kind < KINDS
      ensures !HasValue(clues, kind, UnitOf(kind, i), b[i])
    {
      if HasValue(clues, kind, UnitOf(kind, i), b[i]) {
        var j: nat :| j < CELLS && UnitOf(kind, j) == UnitOf(kind, i) && clues[j] == b[i];
        assert Peers(i, j);
        assert false;
      }
    }
  }

  /** sel holds one row (i, b[i]) for every blank cell i below n, in cell order. */
  ghost predicate Picks(f: Shape, of: map<nat, (nat, nat)>, clues: Board, b: Board, sel: seq<nat>, n: nat)
    requires |clues| == CELLS && |b| == CELLS && of.Keys == f.ring.Keys
  {
    && (forall k {:trigger sel[k]} :: 0 <= k < |sel| ==>
          sel[k] in f.ring && of[sel[k]].0 < n && of[sel[k]].0 < CELLS && of[sel[k]].1 == b[of[sel[k]].0])
    && (forall k, l {:trigger sel[k], sel[l]} :: 0 <= k < l < |sel| ==> of[sel[k]].0 < of[sel[l]].0)
    && (forall i: nat {:trigger clues[i]} :: i < n && i < CELLS && clues[i] == 0 ==> PicksCell(of, sel, i))
  }

  ghost predicate PicksCell(of: map<nat, (nat, nat)>, sel: seq<nat>, i: nat)
  {
    exists k :: 0 <= k < |sel| && sel[k] in of && of[sel[k]].0 == i
  }

  lemma PicksSkip(f: Shape, of: map<nat, (nat, nat)>, clues: Board, b: Board, sel: seq<nat>, n: nat)
    requires |clues| == CELLS && |b| == CELLS && of.Keys == f.ring.Keys && n < CELLS && clues[n] != 0
    requires Picks(f, of, clues, b, sel, n)
    ensures Picks(f, of, clues, b, sel, n + 1)
  {
    forall i: nat | i < n + 1 && i < CELLS && clues[i] == 0
      ensures PicksCell(of, sel, i)
    {
      assert i < n;
    }
  }

  lemma PicksMore(f: Shape, of: map<nat, (nat, nat)>, clues: Board, b: Board, sel: seq<nat>, n: nat, x: nat)
    requires |clues| == CELLS && |b| == CELLS && of.Keys == f.ring.Keys && n < CELLS
    requires Picks(f, of, clues, b, sel, n) && x in of && of[x].0 == n && of[x].1 == b[n]
    ensures Picks(f, of, clues, b, sel + [x], n + 1)
  {
    var t := sel + [x];
    forall k | 0 <= k < |t|
      ensures t[k] in f.ring && of[t[k]].0 < n + 1 && of[t[k]].1 == b[of[t[k]].0]
      ensures k < |sel| ==> t[k] == sel[k] && of[t[k]].0 < n
    {
      assert k < |sel| ==> t[k] == sel[k];
    }
    forall i: nat | i < n + 1 && i < CELLS && clues[i] == 0
      ensures PicksCell(of, t, i)
    {
      if i < n {
        assert PicksCell(of, sel, i);
        var k :| 0 <= k < |sel| && sel[k] in of && of[sel[k]].0 == i;
        assert t[k] == sel[k];
      } else {
        assert t[|sel|] == x;
      }
    }
  }

  lemma RowOfCompletion(f: Shape, cols: seq<int>, of: map<nat, (nat, nat)>, clues: Board, b: Board, i: nat) returns (x: nat)
    requires |clues| == CELLS && IsMatrix(f, cols, of, clues) && IsCompletion(clues, b) && i < CELLS && clues[i] == 0
    ensures of.Keys == f.ring.Keys && x in of && of[x] == (i, b[i])
  {
    hide RowStandsFor, Peers, NoClash;
    CompletionCandidate(clues, b, i);
    assert HasRow(of, i, b[i]);
    x :| x in of && of[x] == (i, b[i]);
  }

  lemma {:induction false} PickRows(f: Shape, cols: seq<int>, of: map<nat, (nat, nat)>, clues: Board, b: Board, n: nat)
    returns (sel: seq<nat>)
    requires |clues| == CELLS && IsMatrix(f, cols, of, clues) && IsCompletion(clues, b) && n <= CELLS
    ensures |b| == CELLS && of.Keys == f.ring.Keys && Picks(f, of, clues, b, sel, n)
  {
    hide RowStandsFor, NoClash, HasRow;
    if n == 0 {
      sel := [];
    } else {
      sel := PickRows(f, cols, of, clues, b, n - 1);
      if clues[n - 1] == 0 {
        var x := RowOfCompletion(f, cols, of, clues, b, n - 1);
        PicksMore(f, of, clues, b, sel, n - 1, x);
        sel := sel + [x];
      } else {
        PicksSkip(f, of, clues, b, sel, n - 1);
      }
    }
  }

  /** A row of the matrix is the row of a candidate, and meets columns of the matrix only. */
  lemma RowInside(f: Shape, cols: seq<int>, of: map<nat, (nat, nat)>, clues: Board, x: nat)
    requires |clues| == CELLS && IsMatrix(f, cols, of, clues) && x in f.ring
    ensures Candidate(clues, of[x].0, of[x].1) && Decoded(f, x) == of[x] && Columns(f, x) <= f.heads
    ensures forall c :: c in Columns(f, x) ==>
              exists k :: 0 <= k < 4 && c == cols[NamesOf(of[x].0, of[x].1)[k]] && IsColumn(clues, NamesOf(of[x].0, of[x].1)[k])
  {
    assert RowStandsFor(f, cols, x, of[x].0, of[x].1, clues);
    CandidateColumns(clues, of[x].0, of[x].1);
    forall c | c in Columns(f, x)
      ensures c in f.heads
      ensures exists k :: 0 <= k < 4 && c == cols[NamesOf(of[x].0, of[x].1)[k]] && IsColumn(clues, NamesOf(of[x].0, of[x].1)[k])
    {
      assert NamesColumn(cols, of[x].0, of[x].1, c);
      var k :| 0 <= k < 4 && c == cols[NamesOf(of[x].0, of[x].1)[k]];
      assert IsColumn(clues, NamesOf(of[x].0, of[x].1)[k]);
    }
  }

  lemma EqualValuesApart(clues: Board, b: Board, i: nat, j: nat, kind: nat)
    requires |clues| == CELLS && IsCompletion(clues, b) && i < CELLS && j < CELLS && i != j && kind < KINDS
    ensures b[i] == b[j] ==> UnitOf(kind, i) != UnitOf(kind, j)
  {
    if UnitOf(kind, i) == UnitOf(kind, j) {
      assert Peers(i, j);
    }
  }

  lemma NamesApart(clues: Board, b: Board, i: nat, j: nat, k: nat, l: nat)
    requires |clues| == CELLS && IsCompletion(clues, b) && i < CELLS && j < CELLS && i != j && k < 4 && l < 4
    ensures NamesOf(i, b[i])[k] != NamesOf(j, b[j])[l]
  {
    hide NoClash, Extends, UnitOf, UnitName;
    if k > 0 && l > 0 {
      UnitNamesDiffer(k - 1, UnitOf(k - 1, i), b[i], l - 1, UnitOf(l - 1, j), b[j]);
      EqualValuesApart(clues, b, i, j, k - 1);
    }
  }

  lemma PickedApart(f: Shape, cols: seq<int>, of: map<nat, (nat, nat)>, clues: Board, b: Board, x: nat, y: nat)
    requires |clues| == CELLS && IsMatrix(f, cols, of, clues) && IsCompletion(clues, b)
    requires x in f.ring && y in f.ring && of[x].0 < CELLS && of[y].0 < CELLS && of[x].0 != of[y].0
    requires of[x].1 == b[of[x].0] && of[y].1 == b[of[y].0]
    ensures Columns(f, x) !! Columns(f, y)
  {
    hide NoClash, Extends, HasValue, NamesOf, Columns, RowStandsFor, HasRow;
    var i, j := of[x].0, of[y].0;
    RowInside(f, cols, of, clues, x);
    RowInside(f, cols, of, clues, y);
    forall c | c in Columns(f, x) && c in Columns(f, y)
      ensures false
    {
      var k :| 0 <= k < 4 && c == cols[NamesOf(i, b[i])[k]] && IsColumn(clues, NamesOf(i, b[i])[k]);
      var l :| 0 <= l < 4 && c == cols[NamesOf(j, b[j])[l]] && IsColumn(clues, NamesOf(j, b[j])[l]);
      NamesApart(clues, b, i, j, k, l);
    }
  }

  lemma PickedMeets(f: Shape, cols: seq<int>, of: map<nat, (nat, nat)>, clues: Board, b: Board, sel: seq<nat>, c: nat)
    requires |clues| == CELLS && IsMatrix(f, cols, of, clues) && IsCompletion(clues, b)
    requires Picks(f, of, clues, b, sel, CELLS) && c in f.heads
    ensures MeetsColumn(f, sel, c)
  {
    var n :| 0 <= n < NAMES && cols[n] == c;
    assert IsColumn(clues, n);
    var i: nat;
    if n < CELLS && clues[n] == 0 {
      i := n;
    } else {
      var kind: nat, u: nat, v: nat :| kind < KINDS && u < SIDE && 1 <= v <= 9 &&
        n == UnitName(kind, u, v) && !HasValue(clues, kind, u, v);
      CompletionHasValue(b, kind, u, v);
      i :| i < CELLS && UnitOf(kind, i) == u && b[i] == v;
      assert clues[i] == 0;
      CandidateHits(i, v, kind, u, v);
    }
    assert n in NamesOf(i, b[i]);
    assert PicksCell(of, sel, i);
    var k :| 0 <= k < |sel| && sel[k] in of && of[sel[k]].0 == i;
    RowMeets(f, cols, of, clues, sel[k], n);
  }

  /** Every completion of the puzzle is decoded from some exact cover of its matrix. */
  lemma CompletionCovers(f: Shape, cols: seq<int>, of: map<nat, (nat, nat)>, clues: Board, b: Board)
    returns (sel: seq<nat>)
    requires IsClues(clues) && IsMatrix(f, cols, of, clues) && IsCompletion(clues, b)
    ensures IsExactCover(f, f.heads, sel) && WriteRows(f, clues, sel) == b
  {
    sel := PickRows(f, cols, of, clues, b, CELLS);
    forall k | 0 <= k < |sel|
      ensures sel[k] in f.ring && Columns(f, sel[k]) <= f.heads
      ensures forall l :: k < l < |sel| ==> sel[l] in f.ring && Columns(f, sel[k]) !! Columns(f, sel[l])
    {
      RowInside(f, cols, of, clues, sel[k]);
      forall l | k < l < |sel|
        ensures sel[l] in f.ring && Columns(f, sel[k]) !! Columns(f, sel[l])
      {
        PickedApart(f, cols, of, clues, b, sel[k], sel[l]);
      }
    }
    forall c | c in f.heads
      ensures MeetsColumn(f, sel, c)
    {
      PickedMeets(f, cols, of, clues, b, sel, c);
    }
    var w := WriteRows(f, clues, sel);
    forall i: nat | i < CELLS
      ensures w[i] == b[i]
    {
      CoverWrites(f, cols, of, clues, sel, i);
      if clues[i] == 0 {
        var k :| 0 <= k < |sel| && sel[k] in of && of[sel[k]] == (i, w[i]);
      }
    }
  }

  /** A puzzle has a completion exactly when its matrix has an exact cover. */
  lemma CoverableIffCompletable(f: Shape, cols: seq<int>, of: map<nat, (nat, nat)>, clues: Board)
    requires IsClues(clues) && IsMatrix(f, cols, of, clues)
    ensures Coverable(f, f.heads) <==> exists b :: IsCompletion(clues, b)
  {
    if sel :| IsExactCover(f, f.heads, sel) {
      CoverCompletes(f, cols, of, clues, sel);
    }
    if b :| IsCompletion(clues, b) {
      var sel := CompletionCovers(f, cols, of, clues, b);
    }
  }
}
