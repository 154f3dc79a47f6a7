/** The matrix of a puzzle while the constructor of Dance puts it together. */
module SudokuBuild {
  import opened Cycles
  import opened LinkedMatrix
  import opened MatrixBuild
  import opened ExactCover
  import opened Decoding
  import opened Sudoku
  import opened SudokuMatrix

  type Rows = map<nat, (nat, nat)>

  /** cols[n] is the header of name n, or -1; every header has one name. */
  ghost predicate HeadersNamed(f: Shape, cols: seq<int>)
  {
    && |cols| == NAMES
    && (forall n: nat :: n < NAMES ==> cols[n] == -1 || (cols[n] >= 0 && cols[n] in f.heads))
    && (forall n: nat, n': nat :: n < n' < NAMES && cols[n] != -1 ==> cols[n] != cols[n'])
    && (forall c {:trigger c in f.heads} :: c in f.heads ==> c in cols)
  }

  /** A linked matrix with nothing covered, using the first cur nodes of the pool. */
  ghost predicate Built(f: Shape, s: State, cols: seq<int>, cur: nat)
  {
    && Linked(f, s) && Full(f, s) && HeadersNamed(f, cols)
    && 1 <= cur <= |s.m|
    && (forall c {:trigger c in f.heads} :: c in f.heads ==> c < cur)
    && (forall x {:trigger x in f.ring} :: x in f.ring ==> x < cur)
  }

  lemma BuiltFresh(f: Shape, s: State, cols: seq<int>, cur: nat)
    requires Built(f, s, cols, cur) && cur < |s.m|
    ensures Fresh(f, s, cur)
  {
  }

  lemma BuiltHeader(f: Shape, s: State, cols: seq<int>, cur: nat, n: nat)
    requires Built(f, s, cols, cur) && cur < |s.m| && n < NAMES && cols[n] == -1
    ensures Built(HeaderShape(f, cur), AddHeader(s, cur, n), cols[n := cur], cur + 1)
  {
    BuiltFresh(f, s, cols, cur);
    AddHeaderLinked(f, s, cur, n);
    var g, r, d := HeaderShape(f, cur), AddHeader(s, cur, n), cols[n := cur];
    assert HeadersNamed(g, d) by {
      HeadersNamedMore(f, cols, cur, n);
    }
    assert Full(g, r) by {
      forall c | c in g.heads
        ensures c in r.heads
      {
        assert c != cur ==> c in s.heads;
      }
      forall x | x in g.ring
        ensures g.col[x] in r.rows && x in r.rows[g.col[x]]
      {
        assert f.col[x] in s.rows && x in s.rows[f.col[x]];
        assert f.col[x] in f.heads;
      }
    }
  }

  lemma HeadersNamedMore(f: Shape, cols: seq<int>, c: nat, n: nat)
    requires HeadersNamed(f, cols) && c !in f.heads && n < NAMES && cols[n] == -1
    ensures HeadersNamed(HeaderShape(f, c), cols[n := c])
  {
    var d := cols[n := c];
    forall e | e in HeaderShape(f, c).heads
      ensures e in d
    {
      if e == c {
        assert d[n] == e;
      } else {
        var k :| 0 <= k < NAMES && cols[k] == e;
        assert d[k] == e;
      }
    }
  }

  lemma BuiltNode(f: Shape, s: State, cols: seq<int>, cur: nat, c: nat, name: nat)
    requires Built(f, s, cols, cur) && cur < |s.m| && c in f.heads
    ensures c in s.rows && c < |s.m|
    ensures Built(NodeShape(f, cur, c, name), AddNode(s, cur, c, name), cols, cur + 1)
  {
    hide Full, WellShaped, RowLinked, ColumnOk;
    BuiltFresh(f, s, cols, cur);
    AddNodeLinked(f, s, cur, c, name);
    NodeFull(f, s, cur, c, name);
  }

  lemma NodeFull(f: Shape, s: State, x: nat, c: nat, name: nat)
    requires Full(f, s) && Linked(f, s) && c in f.heads && c in s.rows && c < |s.m| && x < |s.m| && InRange(s.m) && x !in f.ring
    ensures Full(NodeShape(f, x, c, name), AddNode(s, x, c, name))
  {
    var g, r := NodeShape(f, x, c, name), AddNode(s, x, c, name);
    forall y | y in g.ring
      ensures g.col[y] in r.rows && y in r.rows[g.col[y]]
    {
      if y == x {
        assert (s.rows[c] + [y])[|s.rows[c]|] == y;
      } else {
        assert y in s.rows[f.col[y]];
      }
    }
  }

  lemma BuiltJoin(f: Shape, s: State, cols: seq<int>, cur: nat, a: nat, b: nat, c: nat, d: nat)
    requires Built(f, s, cols, cur) && Joinable(f, a, b, c, d)
    ensures a < |s.m| && b < |s.m| && c < |s.m| && d < |s.m| && InRange(s.m)
    ensures Built(JoinShape(f, a, b, c, d), JoinState(s, a, b, c, d), cols, cur)
  {
    JoinLinked(f, s, a, b, c, d);
    var g := JoinShape(f, a, b, c, d);
    assert g.ring.Keys == f.ring.Keys;
    assert forall x :: x in g.ring <==> x in f.ring;
  }

  // ---------- the rows that have been added ----------

  /** The ring of x carries the four names of candidate (i, v), rotated by k. */
  ghost predicate RowBuilt(f: Shape, cols: seq<int>, x: nat, i: nat, v: nat, k: nat)
    requires x in f.ring && i < CELLS && 1 <= v <= 9 && |cols| == NAMES
  {
    && k < 4 && |f.ring[x]| == 4
    && (forall j :: 0 <= j < 4 ==>
          && f.ring[x][j] in f.name && f.name[f.ring[x][j]] == NamesOf(i, v)[(j + k) % 4]
          && f.ring[x][j] in f.col && f.col[f.ring[x][j]] == cols[NamesOf(i, v)[(j + k) % 4]])
  }

  ghost predicate RowDone(f: Shape, cols: seq<int>, x: nat, i: nat, v: nat, clues: Board)
    requires x in f.ring && |cols| == NAMES && |clues| == CELLS
  {
    Candidate(clues, i, v) && exists k :: RowBuilt(f, cols, x, i, v, k)
  }

  /** Every name is the cell i or ends in the value v. */
  ghost predicate OnlyNames(ns: seq<nat>, i: nat, v: nat)
  {
    i < 100 && v < 10 && forall j :: 0 <= j < |ns| ==> ns[j] == i || (ns[j] >= 100 && ns[j] % 10 == v)
  }

  lemma {:induction false} ScanToCell(ns: seq<nat>, i: nat, v: nat)
    requires OnlyNames(ns, i, v) && i in ns
    ensures Scan(ns, -1, v) == (i, v)
  {
    if ns[0] >= 100 {
      assert i in ns[1..];
      ScanToCell(ns[1..], i, v);
    }
  }

  lemma ScanMixed(ns: seq<nat>, i: nat, v: nat)
    requires OnlyNames(ns, i, v) && i in ns && |ns| > 1 && ns[1] >= 100
    ensures Scan(ns, -1, -1) == (i, v)
  {
    var rest := ns[1..];
    if ns[0] < 100 {
      assert Scan(ns, -1, -1) == Scan(rest, i, -1);
      assert rest[0] == ns[1];
      assert Scan(rest, i, -1) == Scan(rest[1..], i, v);
    } else {
      assert i in rest;
      ScanToCell(rest, i, v);
    }
  }

  lemma NameEndsInValue(i: nat, v: nat, j: nat)
    requires i < CELLS && 1 <= v <= 9 && j < 4
    ensures if j == 0 then NamesOf(i, v)[j] == i else NamesOf(i, v)[j] >= 100 && NamesOf(i, v)[j] % 10 == v
  {
  }

  lemma ScanFour(ns: seq<nat>, i: nat, v: nat, k: nat)
    requires |ns| == 4 && i < CELLS && 1 <= v <= 9 && k < 4
    requires forall j :: 0 <= j < 4 ==> ns[j] == NamesOf(i, v)[(j + k) % 4]
    ensures RowDecodable(ns) && Scan(ns, -1, -1) == (i, v)
  {
    hide NamesOf, Scan;
    forall j | 0 <= j < 4
      ensures if (j + k) % 4 == 0 then ns[j] == i else ns[j] >= 100 && ns[j] % 10 == v
    {
      NameEndsInValue(i, v, (j + k) % 4);
    }
    var p := (4 - k) % 4;
    assert (p + k) % 4 == 0 && ns[p] == i;
    var q := (p + 1) % 4;
    assert (q + k) % 4 == 1 && ns[q] >= 100;
    assert OnlyNames(ns, i, v);
    if ns[1] >= 100 {
      ScanMixed(ns, i, v);
    } else {
      assert (0 + k) % 4 == 3;
      ScanTail(ns, i, v);
    }
  }

  lemma ScanTail(ns: seq<nat>, i: nat, v: nat)
    requires OnlyNames(ns, i, v) && |ns| > 1 && ns[0] >= 100 && ns[1] == i
    ensures Scan(ns, -1, -1) == (i, v)
  {
    assert ns[1..][0] == i;
    ScanToCell(ns[1..], i, v);
  }

  lemma RowBuiltColumns(f: Shape, cols: seq<int>, x: nat, i: nat, v: nat, k: nat, c: nat)
    requires x in f.ring && i < CELLS && 1 <= v <= 9 && |cols| == NAMES && RowBuilt(f, cols, x, i, v, k)
    ensures c in Columns(f, x) <==> NamesColumn(cols, i, v, c)
  {
    hide NamesOf;
    if c in Columns(f, x) {
      var y :| y in f.ring[x] && y in f.col && f.col[y] == c;
      var j := IndexOf(f.ring[x], y);
      assert c == cols[NamesOf(i, v)[(j + k) % 4]];
    }
    if NamesColumn(cols, i, v, c) {
      var l: nat :| l < 4 && c == cols[NamesOf(i, v)[l]];
      var j := (l + 4 - k) % 4;
      assert (j + k) % 4 == l;
      assert f.ring[x][j] in f.ring[x] && f.col[f.ring[x][j]] == c;
    }
  }

  /** A finished row decodes to its candidate and meets the candidate's four columns. */
  lemma RowDoneStands(f: Shape, cols: seq<int>, x: nat, i: nat, v: nat, clues: Board)
    requires |clues| == CELLS && |cols| == NAMES && x in f.ring && RowDone(f, cols, x, i, v, clues)
    ensures RowDecodable(Names(f, x)) && Scan(Names(f, x), -1, -1) == (i, v)
    ensures forall c {:trigger c in Columns(f, x)} ::
              c in Columns(f, x) <==> NamesColumn(cols, i, v, c)
  {
    hide Scan, NamesOf, RowDecodable, Columns;
    var k: nat :| RowBuilt(f, cols, x, i, v, k);
    ScanFour(Names(f, x), i, v, k);
    forall c: nat
      ensures c in Columns(f, x) <==> NamesColumn(cols, i, v, c)
    {
      RowBuiltColumns(f, cols, x, i, v, k, c);
    }
  }

  /** The finished matrix is the puzzle's. */
  lemma BuiltIsMatrix(f: Shape, cols: seq<int>, of: Rows, clues: Board)
    requires |clues| == CELLS && HeadersNamed(f, cols) && of.Keys == f.ring.Keys
    requires forall n: nat {:trigger IsColumn(clues, n)} :: n < NAMES ==> (cols[n] != -1 <==> IsColumn(clues, n))
    requires forall x {:trigger of[x]} :: x in f.ring ==> RowDone(f, cols, x, of[x].0, of[x].1, clues)
    requires forall i: nat, v: nat {:trigger Candidate(clues, i, v)} :: Candidate(clues, i, v) ==> HasRow(of, i, v)
    ensures IsMatrix(f, cols, of, clues)
  {
    forall x | x in f.ring
      ensures RowDecodable(Names(f, x))
    {
      RowDoneStands(f, cols, x, of[x].0, of[x].1, clues);
    }
    assert Decodable(f);
    forall x | x in f.ring
      ensures RowStandsFor(f, cols, x, of[x].0, of[x].1, clues)
    {
      RowDoneStands(f, cols, x, of[x].0, of[x].1, clues);
      assert Decoded(f, x) == Scan(Names(f, x), -1, -1);
    }
  }

  // ---------- one candidate more ----------

  /** The shape after the four nodes x, x + 1, x + 2, x + 3 of candidate (i, v) have become a row. */
  ghost function CandidateShape(f: Shape, cols: seq<int>, x: nat, i: nat, v: nat): Shape
    requires i < CELLS && 1 <= v <= 9 && |cols| == NAMES
    requires forall k :: 0 <= k < 4 ==> cols[NamesOf(i, v)[k]] >= 0
  {
    var ns := NamesOf(i, v);
    var g1 := NodeShape(f, x, cols[ns[0]], ns[0]);
    var g2 := NodeShape(g1, x + 1, cols[ns[1]], ns[1]);
    var g3 := NodeShape(g2, x + 2, cols[ns[2]], ns[2]);
    var g4 := NodeShape(g3, x + 3, cols[ns[3]], ns[3]);
    JoinShape(g4, x, x + 1, x + 2, x + 3)
  }

  ghost function CandidateRows(of: Rows, x: nat, i: nat, v: nat): Rows
  {
    of[x := (i, v)][x + 1 := (i, v)][x + 2 := (i, v)][x + 3 := (i, v)]
  }

  lemma NewRowBuilt(f: Shape, cols: seq<int>, x: nat, i: nat, v: nat, k: nat)
    requires i < CELLS && 1 <= v <= 9 && |cols| == NAMES && k < 4
    requires forall k :: 0 <= k < 4 ==> cols[NamesOf(i, v)[k]] >= 0
    ensures x + k in CandidateShape(f, cols, x, i, v).ring
    ensures RowBuilt(CandidateShape(f, cols, x, i, v), cols, x + k, i, v, k)
  {
    hide NamesOf, CandidateShape;
    NewRowNames(f, cols, x, i, v);
    NewRowRing(f, cols, x, i, v);
    var g, ns := CandidateShape(f, cols, x, i, v), NamesOf(i, v);
    var row := g.ring[x + k];
    forall j | 0 <= j < |row|
      ensures row[j] in g.name && g.name[row[j]] == ns[(j + k) % 4] && row[j] in g.col && g.col[row[j]] == cols[ns[(j + k) % 4]]
    {
      var h: nat := (j + k) % 4;
      assert row[j] == x + h && ns[h] == ns[(j + k) % 4];
    }
  }

  lemma NewRowNames(f: Shape, cols: seq<int>, x: nat, i: nat, v: nat)
    requires i < CELLS && 1 <= v <= 9 && |cols| == NAMES
    requires forall k :: 0 <= k < 4 ==> cols[NamesOf(i, v)[k]] >= 0
    ensures var g, ns := CandidateShape(f, cols, x, i, v), NamesOf(i, v);
            forall j: nat {:trigger ns[j]} :: j < 4 ==>
              x + j in g.name && g.name[x + j] == ns[j] && x + j in g.col && g.col[x + j] == cols[ns[j]]
  {
    hide NamesOf;
  }

  lemma NewRowRing(f: Shape, cols: seq<int>, x: nat, i: nat, v: nat)
    requires i < CELLS && 1 <= v <= 9 && |cols| == NAMES
    requires forall k :: 0 <= k < 4 ==> cols[NamesOf(i, v)[k]] >= 0
    ensures var ring := CandidateShape(f, cols, x, i, v).ring;
            && x in ring && ring[x] == [x, x + 1, x + 2, x + 3]
            && x + 1 in ring && ring[x + 1] == [x + 1, x + 2, x + 3, x]
            && x + 2 in ring && ring[x + 2] == [x + 2, x + 3, x, x + 1]
            && x + 3 in ring && ring[x + 3] == [x + 3, x, x + 1, x + 2]
  {
    hide NamesOf;
  }

  lemma OldRowBuilt(f: Shape, cols: seq<int>, x: nat, i: nat, v: nat, y: nat, i': nat, v': nat, k: nat)
    requires i < CELLS && 1 <= v <= 9 && |cols| == NAMES && i' < CELLS && 1 <= v' <= 9
    requires forall k :: 0 <= k < 4 ==> cols[NamesOf(i, v)[k]] >= 0
    requires y in f.ring && RowBuilt(f, cols, y, i', v', k) && y < x
    requires forall j :: 0 <= j < |f.ring[y]| ==> f.ring[y][j] < x
    ensures y in CandidateShape(f, cols, x, i, v).ring
    ensures RowBuilt(CandidateShape(f, cols, x, i, v), cols, y, i', v', k)
  {
    var g := CandidateShape(f, cols, x, i, v);
    assert g.ring[y] == f.ring[y];
  }

  lemma RingBelow(f: Shape, s: State, cols: seq<int>, cur: nat, y: nat)
    requires Built(f, s, cols, cur) && y in f.ring
    ensures y < cur && forall j :: 0 <= j < |f.ring[y]| ==> f.ring[y][j] < cur
  {
    assert RowOk(f, y);
  }

  lemma CandidateAddedRow(f: Shape, s: State, cols: seq<int>, of: Rows, x: nat, i: nat, v: nat, clues: Board, y: nat)
    requires |clues| == CELLS && Built(f, s, cols, x) && of.Keys == f.ring.Keys && Candidate(clues, i, v)
    requires forall k :: 0 <= k < 4 ==> cols[NamesOf(i, v)[k]] >= 0
    requires (y in f.ring && RowDone(f, cols, y, of[y].0, of[y].1, clues)) || (y !in f.ring && x <= y < x + 4)
    ensures y in CandidateShape(f, cols, x, i, v).ring && y in CandidateRows(of, x, i, v)
    ensures RowDone(CandidateShape(f, cols, x, i, v), cols, y,
                    CandidateRows(of, x, i, v)[y].0, CandidateRows(of, x, i, v)[y].1, clues)
  {
    hide CandidateShape, RowBuilt, NamesOf;
    if y in f.ring {
      var k: nat :| RowBuilt(f, cols, y, of[y].0, of[y].1, k);
      RingBelow(f, s, cols, x, y);
      OldRowBuilt(f, cols, x, i, v, y, of[y].0, of[y].1, k);
    } else {
      NewRowBuilt(f, cols, x, i, v, y - x);
    }
  }

  lemma CandidateKeys(f: Shape, cols: seq<int>, of: Rows, x: nat, i: nat, v: nat)
    requires i < CELLS && 1 <= v <= 9 && |cols| == NAMES
    requires forall k :: 0 <= k < 4 ==> cols[NamesOf(i, v)[k]] >= 0
    ensures CandidateShape(f, cols, x, i, v).ring.Keys == f.ring.Keys + {x, x + 1, x + 2, x + 3}
    ensures CandidateRows(of, x, i, v).Keys == of.Keys + {x, x + 1, x + 2, x + 3}
  {
    hide NamesOf;
  }

  lemma CandidateAdded(f: Shape, s: State, cols: seq<int>, of: Rows, x: nat, i: nat, v: nat, clues: Board)
    requires |clues| == CELLS && |cols| == NAMES && Built(f, s, cols, x) && of.Keys == f.ring.Keys && Candidate(clues, i, v)
    requires forall k :: 0 <= k < 4 ==> cols[NamesOf(i, v)[k]] >= 0
    requires forall y {:trigger of[y]} :: y in f.ring ==> RowDone(f, cols, y, of[y].0, of[y].1, clues)
    ensures CandidateRows(of, x, i, v).Keys == CandidateShape(f, cols, x, i, v).ring.Keys
    ensures forall y {:trigger CandidateRows(of, x, i, v)[y]} :: y in CandidateShape(f, cols, x, i, v).ring ==>
              RowDone(CandidateShape(f, cols, x, i, v), cols, y,
                      CandidateRows(of, x, i, v)[y].0, CandidateRows(of, x, i, v)[y].1, clues)
  {
    hide CandidateShape, RowDone, Built, NamesOf, CandidateRows;
    var g, of' := CandidateShape(f, cols, x, i, v), CandidateRows(of, x, i, v);
    CandidateKeys(f, cols, of, x, i, v);
    forall y | y in g.ring
      ensures y in of' && RowDone(g, cols, y, of'[y].0, of'[y].1, clues)
    {
      if y in f.ring {
        assert RowDone(f, cols, y, of[y].0, of[y].1, clues);
      }
      CandidateAddedRow(f, s, cols, of, x, i, v, clues, y);
    }
  }

  lemma RowsKept(of: Rows, x: nat, i: nat, v: nat, i': nat, v': nat)
    requires x !in of && x + 1 !in of && x + 2 !in of && x + 3 !in of
    requires HasRow(of, i', v') || (i' == i && v' == v)
    ensures HasRow(CandidateRows(of, x, i, v), i', v')
  {
    var of' := CandidateRows(of, x, i, v);
    if i' == i && v' == v {
      assert of'[x] == (i, v);
    } else {
      var y :| y in of && of[y] == (i', v');
      assert of'[y] == (i', v');
    }
  }

  // ---------- how far the loops have come ----------

  /** The place of (kind, u, v) in the order in which the constructor looks at unit columns. */
  function Turn(kind: nat, u: nat, v: nat): int
  {
    u * 27 + (v - 1) * 3 + kind
  }

  ghost predicate UnitColumnBefore(clues: Board, n: nat, t: int)
    requires |clues| == CELLS
  {
    exists kind: nat, u: nat, v: nat :: kind < KINDS && u < SIDE && 1 <= v <= 9 &&
      n == UnitName(kind, u, v) && !HasValue(clues, kind, u, v) && Turn(kind, u, v) < t
  }

  ghost predicate ColumnsUpTo(cols: seq<int>, clues: Board, t: int)
    requires |clues| == CELLS
  {
    |cols| == NAMES &&
    forall n: nat :: n < NAMES ==> (cols[n] != -1 <==> (n < CELLS && clues[n] == 0) || UnitColumnBefore(clues, n, t))
  }

  lemma TurnsDiffer(kind: nat, u: nat, v: nat, kind': nat, u': nat, v': nat)
    requires kind < KINDS && 1 <= v <= 9 && kind' < KINDS && 1 <= v' <= 9
    requires Turn(kind, u, v) == Turn(kind', u', v')
    ensures kind == kind' && u == u' && v == v'
  {
  }

  lemma UnitColumnNext(clues: Board, n: nat, kind: nat, u: nat, v: nat)
    requires |clues| == CELLS && kind < KINDS && u < SIDE && 1 <= v <= 9
    ensures UnitColumnBefore(clues, n, Turn(kind, u, v) + 1) <==>
            UnitColumnBefore(clues, n, Turn(kind, u, v)) || (n == UnitName(kind, u, v) && !HasValue(clues, kind, u, v))
    ensures n == UnitName(kind, u, v) ==> !UnitColumnBefore(clues, n, Turn(kind, u, v))
  {
    if n == UnitName(kind, u, v) && UnitColumnBefore(clues, n, Turn(kind, u, v)) {
      var kind': nat, u': nat, v': nat :| kind' < KINDS && u' < SIDE && 1 <= v' <= 9 &&
        n == UnitName(kind', u', v') && !HasValue(clues, kind', u', v') && Turn(kind', u', v') < Turn(kind, u, v);
      UnitNamesDiffer(kind, u, v, kind', u', v');
    }
    if UnitColumnBefore(clues, n, Turn(kind, u, v) + 1) && !UnitColumnBefore(clues, n, Turn(kind, u, v)) {
      var kind': nat, u': nat, v': nat :| kind' < KINDS && u' < SIDE && 1 <= v' <= 9 &&
        n == UnitName(kind', u', v') && !HasValue(clues, kind', u', v') && Turn(kind', u', v') < Turn(kind, u, v) + 1;
      assert Turn(kind', u', v') == Turn(kind, u, v);
      TurnsDiffer(kind, u, v, kind', u', v');
    }
  }

  lemma ColumnsNext(cols: seq<int>, clues: Board, kind: nat, u: nat, v: nat, c: nat)
    requires |clues| == CELLS && kind < KINDS && u < SIDE && 1 <= v <= 9
    requires ColumnsUpTo(cols, clues, Turn(kind, u, v))
    ensures cols[UnitName(kind, u, v)] == -1
    ensures HasValue(clues, kind, u, v) ==> ColumnsUpTo(cols, clues, Turn(kind, u, v) + 1)
    ensures !HasValue(clues, kind, u, v) ==> ColumnsUpTo(cols[UnitName(kind, u, v) := c], clues, Turn(kind, u, v) + 1)
  {
    forall n: nat | n < NAMES
      ensures UnitColumnBefore(clues, n, Turn(kind, u, v) + 1) <==>
              UnitColumnBefore(clues, n, Turn(kind, u, v)) || (n == UnitName(kind, u, v) && !HasValue(clues, kind, u, v))
    {
      UnitColumnNext(clues, n, kind, u, v);
    }
    UnitColumnNext(clues, UnitName(kind, u, v), kind, u, v);
  }

  lemma ColumnsStart(cols: seq<int>, clues: Board)
    requires |clues| == CELLS && |cols| == NAMES
    requires forall n: nat :: n < NAMES ==> (cols[n] != -1 <==> n < CELLS && clues[n] == 0)
    ensures ColumnsUpTo(cols, clues, 0)
  {
  }

  lemma ColumnsEnd(cols: seq<int>, clues: Board)
    requires |clues| == CELLS && ColumnsUpTo(cols, clues, 9 * 27)
    ensures forall n: nat {:trigger IsColumn(clues, n)} :: n < NAMES ==> (cols[n] != -1 <==> IsColumn(clues, n))
  {
    forall n: nat | n < NAMES
      ensures cols[n] != -1 <==> IsColumn(clues, n)
    {
      if IsColumn(clues, n) && !(n < CELLS && clues[n] == 0) {
        var kind: nat, u: nat, v: nat :| kind < KINDS && u < SIDE && 1 <= v <= 9 &&
          n == UnitName(kind, u, v) && !HasValue(clues, kind, u, v);
        assert Turn(kind, u, v) < 9 * 27;
      }
    }
  }

  ghost predicate CandidatesUpTo(of: Rows, clues: Board, t: int)
    requires |clues| == CELLS
  {
    forall i: nat, v: nat {:trigger Candidate(clues, i, v)} :: Candidate(clues, i, v) && i * 9 + (v - 1) < t ==>
      HasRow(of, i, v)
  }

  lemma CandidatesNext(of: Rows, of': Rows, clues: Board, i: nat, v: nat)
    requires |clues| == CELLS && i < CELLS && 1 <= v <= 9 && CandidatesUpTo(of, clues, i * 9 + (v - 1))
    requires Candidate(clues, i, v) ==> HasRow(of', i, v)
    requires forall i': nat, v': nat {:trigger HasRow(of', i', v')} :: HasRow(of, i', v') ==> HasRow(of', i', v')
    ensures CandidatesUpTo(of', clues, i * 9 + v)
  {
    forall i': nat, v': nat | Candidate(clues, i', v') && i' * 9 + (v' - 1) < i * 9 + v
      ensures HasRow(of', i', v')
    {
      if i' * 9 + (v' - 1) >= i * 9 + (v - 1) {
        assert i' == i && v' == v;
      } else {
        assert HasRow(of, i', v');
      }
    }
  }

  // ---------- which values the clues use ----------

  ghost predicate UsedBelow(clues: Board, kind: nat, u: nat, v: int, n: nat)
    requires |clues| == CELLS && n <= CELLS
  {
    exists i: nat :: i < n && UnitOf(kind, i) == u && clues[i] == v
  }

  lemma UsedBelowNext(clues: Board, kind: nat, u: nat, v: int, n: nat)
    requires |clues| == CELLS && n < CELLS
    ensures UsedBelow(clues, kind, u, v, n + 1) <==>
            UsedBelow(clues, kind, u, v, n) || (UnitOf(kind, n) == u && clues[n] == v)
  {
  }

  lemma UsedBelowAll(clues: Board, kind: nat, u: nat, v: nat)
    requires |clues| == CELLS
    ensures UsedBelow(clues, kind, u, v, CELLS) <==> HasValue(clues, kind, u, v)
    ensures !UsedBelow(clues, kind, u, v, 0)
  {
  }
}
