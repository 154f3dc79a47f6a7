/** The search of Lab1/solver.cpp on the linked matrix, in place. */
module DanceSearch {
  import opened Cycles
  import opened LinkedMatrix
  import opened ExactCover
  import opened Sudoku
  import opened Decoding
  import opened MatrixBuild
  import opened SudokuMatrix
  import opened SearchSteps
  import opened SudokuBuild

  /** One root, at most 81 * 4 columns, at most 729 candidates of four nodes. */
  const MAX_NODES: nat := 1 + 81 * 4 + 9 * 9 * 9 * 4

  class Dance {
    const nodes: array<Node>
    const inout: array<int>
    const columns: array<int>
    var stack: seq<nat>
    var cur: nat

    /** What the pool represents: its fixed shape, its links, and each node's candidate. */
    ghost var shape: Shape
    ghost var state: State
    ghost var of: Rows

    ghost predicate Linking()
      reads this, nodes, columns
    {
      && nodes.Length == MAX_NODES && columns.Length == NAMES && inout.Length == CELLS
      && state.m == nodes[..] && Built(shape, state, columns[..], cur)
    }

    ghost predicate Building()
      reads this, nodes, columns
    {
      Linking() && of.Keys == shape.ring.Keys
    }

    /** Builds the matrix of a puzzle given as 81 digits, '0' for a blank. */
    constructor (problem: array<char>)
      requires HasDigits(problem[..])
      ensures fresh(nodes) && fresh(inout) && fresh(columns) && stack == []
      ensures inout[..] == Clues(problem[..])
      ensures nodes.Length == MAX_NODES && nodes[..] == state.m && Inv(shape, state)
      ensures Elements(state.heads) == shape.heads
      ensures columns.Length == NAMES && IsMatrix(shape, columns[..], of, inout[..])
    {
      nodes := new Node[MAX_NODES](_ => Node(0, 0, 0, 0, 0, 0, 0));
      inout := new int[CELLS](_ => 0);
      columns := new int[NAMES](_ => -1);
      stack := [];
      cur := 0;
      shape, state, of := Shape({}, map[], map[], map[]), State([], [], map[]), map[];
      new;
      Build(problem);
    }

    /** The steps of the constructor on the empty pool. */
    method Build(problem: array<char>)
      requires HasDigits(problem[..])
      requires nodes.Length == MAX_NODES && inout.Length == CELLS && columns.Length == NAMES
      requires inout != columns && cur == 0 && stack == [] && shape == Shape({}, map[], map[], map[]) && of == map[]
      requires forall i :: 0 <= i < nodes.Length ==> nodes[i] == Node(0, 0, 0, 0, 0, 0, 0)
      requires forall n :: 0 <= n < NAMES ==> columns[n] == -1
      modifies this, nodes, inout, columns
      ensures stack == [] && inout[..] == Clues(problem[..])
      ensures nodes[..] == state.m && Inv(shape, state) && Elements(state.heads) == shape.heads
      ensures IsMatrix(shape, columns[..], of, inout[..])
    {
      hide Built, Clues, ColumnsUpTo, CandidatesUpTo, RowsDone, Marks, Inv, IsMatrix, IsClues, Elements;
      Input(problem);
      ghost var clues := inout[..];
      CluesAreClues(problem[..]);
      var root := NewColumn(0);
      state := State(nodes[..], [], map[]);
      RootBuilt(nodes[..], columns[..]);
      var rows, cols, boxes := MarkUsed(clues);
      AppendColumns(rows, cols, boxes, clues);
      NothingDone(shape, columns[..], of, clues);
      AppendRows(rows, cols, boxes, clues);
      Finished(shape, state, columns[..], of, cur, clues);
    }

    method Input(problem: array<char>)
      requires problem.Length >= CELLS && inout.Length == CELLS
      requires forall i :: 0 <= i < CELLS ==> '0' <= problem[i] <= '9'
      modifies inout
      ensures inout[..] == Clues(problem[..])
    {
      for cell := 0 to CELLS
        invariant forall i :: 0 <= i < cell ==> inout[i] == problem[i] as int - '0' as int
      {
        inout[cell] := problem[cell] as int - '0' as int;
      }
    }

    method NewColumn(n: nat) returns (c: nat)
      requires cur < nodes.Length
      modifies nodes, `cur
      ensures c == old(cur) && cur == c + 1
      ensures nodes[..] == old(nodes[..])[c := Node(c, c, c, c, c, n, 0)]
    {
      c := cur;
      cur := cur + 1;
      nodes[c] := Node(c, c, c, c, c, n, 0);
    }

    method PutLeftOf(at: nat, nnew: nat)
      requires InRange(nodes[..]) && at < nodes.Length && nnew < nodes.Length
      modifies nodes
      ensures nodes[..] == PutLeft(old(nodes[..]), at, nnew)
    {
      nodes[nnew] := nodes[nnew].(left := nodes[at].left);
      nodes[nnew] := nodes[nnew].(right := at);
      nodes[nodes[at].left] := nodes[nodes[at].left].(right := nnew);
      nodes[at] := nodes[at].(left := nnew);
    }

    method PutUpOf(at: nat, nnew: nat)
      requires InRange(nodes[..]) && at < nodes.Length && nnew < nodes.Length
      modifies nodes
      ensures nodes[..] == PutUp(old(nodes[..]), at, nnew)
    {
      nodes[nnew] := nodes[nnew].(up := nodes[at].up);
      nodes[nnew] := nodes[nnew].(down := at);
      nodes[nodes[at].up] := nodes[nodes[at].up].(down := nnew);
      nodes[at] := nodes[at].(up := nnew);
      nodes[at] := nodes[at].(size := nodes[at].size + 1);
      nodes[nnew] := nodes[nnew].(col := at);
    }

    /** A new header of name n, last in the header list. */
    method AppendColumn(n: nat)
      requires Building() && n < NAMES && columns[n] == -1 && cur < MAX_NODES
      modifies this, nodes, columns
      ensures Building() && stack == old(stack) && of == old(of)
      ensures cur == old(cur) + 1 && columns[..] == old(columns[..])[n := old(cur)]
      ensures shape == HeaderShape(old(shape), old(cur))
    {
      BuiltHeader(shape, state, columns[..], cur, n);
      var c := NewColumn(n);
      PutLeftOf(ROOT, c);
      columns[n] := c;
      shape, state := HeaderShape(shape, c), AddHeader(state, c, n);
    }

    /** A new node of name n, last in the column of that name. */
    method NewRow(n: nat) returns (r: nat)
      requires Linking() && n < NAMES && columns[n] >= 0 && cur < MAX_NODES
      modifies this, nodes
      ensures Linking()
      ensures stack == old(stack) && of == old(of) && r == old(cur) && cur == r + 1
      ensures shape == NodeShape(old(shape), r, columns[n], n)
    {
      hide Built, PutUp, NodeShape;
      HeaderIn(shape, state, columns[..], cur, n);
      BuiltNode(shape, state, columns[..], cur, columns[n], n);
      r := cur;
      cur := cur + 1;
      nodes[r] := Node(r, r, r, r, columns[n], n, 0);
      PutUpOf(nodes[r].col, r);
      ghost var c: nat := columns[n];
      shape, state := NodeShape(shape, r, c, n), AddNode(state, r, c, n);
    }

    /** Which values occur in the rows, columns and boxes of the clues. */
    method MarkUsed(ghost clues: Board) returns (rows: array2<bool>, cols: array2<bool>, boxes: array2<bool>)
      requires inout.Length == CELLS && inout[..] == clues && IsClues(clues)
      ensures fresh(rows) && fresh(cols) && fresh(boxes)
      ensures Marks(rows, clues, 0, CELLS) && Marks(cols, clues, 1, CELLS) && Marks(boxes, clues, 2, CELLS)
    {
      rows := new bool[CELLS, 10]((_, _) => false);
      cols := new bool[CELLS, 10]((_, _) => false);
      boxes := new bool[CELLS, 10]((_, _) => false);
      for i := 0 to CELLS
        invariant rows != cols && rows != boxes && cols != boxes && fresh(rows) && fresh(cols) && fresh(boxes)
        invariant Marks(rows, clues, 0, i) && Marks(cols, clues, 1, i) && Marks(boxes, clues, 2, i)
      {
        var row := i / 9;
        var col := i % 9;
        var box := row / 3 * 3 + col / 3;
        var val := inout[i];
        forall kind: nat, u: nat, v: nat | kind < KINDS && u < SIDE && v < 10
          ensures UsedBelow(clues, kind, u, v, i + 1) <==>
                  UsedBelow(clues, kind, u, v, i) || (UnitOf(kind, i) == u && clues[i] == v)
        {
          UsedBelowNext(clues, kind, u, v, i);
        }
        rows[row, val] := true;
        cols[col, val] := true;
        boxes[box, val] := true;
      }
    }

    /** One column per blank cell. */
    method AppendBlanks(ghost clues: Board)
      requires Building() && inout[..] == clues && IsClues(clues) && cur == 1 && shape.ring == map[]
      requires forall n :: 0 <= n < NAMES ==> columns[n] == -1
      modifies this, nodes, columns
      ensures Building() && stack == old(stack) && of == old(of) && shape.ring == map[]
      ensures 1 <= cur <= 1 + 81
      ensures ColumnsUpTo(columns[..], clues, 0)
    {
      for i := 0 to CELLS
        invariant Building() && stack == old(stack) && of == old(of) && shape.ring == map[]
        invariant 1 <= cur <= 1 + i
        invariant forall n: nat :: n < NAMES ==> (columns[n] != -1 <==> n < i && clues[n] == 0)
      {
        if inout[i] == 0 {
          AppendColumn(i);
        }
      }
      ColumnsStart(columns[..], clues);
    }

    /** One column per blank cell, then one per value a unit still misses. */
    method AppendColumns(rows: array2<bool>, cols: array2<bool>, boxes: array2<bool>, ghost clues: Board)
      requires Building() && inout[..] == clues && IsClues(clues) && cur == 1 && shape.ring == map[]
      requires forall n :: 0 <= n < NAMES ==> columns[n] == -1
      requires Marks(rows, clues, 0, CELLS) && Marks(cols, clues, 1, CELLS) && Marks(boxes, clues, 2, CELLS)
      modifies this, nodes, columns
      ensures Building() && stack == old(stack) && of == old(of) && shape.ring == map[]
      ensures cur <= 1 + 81 * 4
      ensures ColumnsUpTo(columns[..], clues, 9 * 27)
    {
      hide ColumnsUpTo, Marks, Building;
      AppendBlanks(clues);
      for i := 0 to 9
        invariant Building() && stack == old(stack) && of == old(of) && shape.ring == map[]
        invariant 1 <= cur <= 1 + 81 + 27 * i
        invariant ColumnsUpTo(columns[..], clues, 27 * i)
      {
        for v := 1 to 10
          invariant Building() && stack == old(stack) && of == old(of) && shape.ring == map[]
          invariant 1 <= cur <= 1 + 81 + 27 * i + 3 * (v - 1)
          invariant ColumnsUpTo(columns[..], clues, 27 * i + 3 * (v - 1))
        {
          AppendUnit(rows, clues, 0, i, v);
          AppendUnit(cols, clues, 1, i, v);
          AppendUnit(boxes, clues, 2, i, v);
        }
      }
    }

    /** A unit that does not show v yet gets a column for it. */
    method AppendUnit(marks: array2<bool>, ghost clues: Board, kind: nat, i: nat, v: nat)
      requires Building() && |clues| == CELLS && kind < KINDS && i < 9 && 1 <= v < 10 && cur < MAX_NODES
      requires Marks(marks, clues, kind, CELLS) && ColumnsUpTo(columns[..], clues, Turn(kind, i, v))
      modifies this, nodes, columns
      ensures Building() && stack == old(stack) && of == old(of) && shape.ring == old(shape.ring)
      ensures old(cur) <= cur <= old(cur) + 1
      ensures ColumnsUpTo(columns[..], clues, Turn(kind, i, v) + 1)
    {
      ColumnsNext(columns[..], clues, kind, i, v, cur);
      UsedBelowAll(clues, kind, i, v);
      MarkIs(marks, clues, kind, CELLS, i, v);
      if !marks[i, v] {
        AppendColumn(UnitName(kind, i, v));
      }
    }

    /** The rows of all candidates, cell by cell. */
    method AppendRows(rows: array2<bool>, cols: array2<bool>, boxes: array2<bool>, ghost clues: Board)
      requires Building() && inout[..] == clues && IsClues(clues) && cur <= 1 + 81 * 4
      requires RowsDone(shape, columns[..], of, clues) && CandidatesUpTo(of, clues, 0)
      requires ColumnsUpTo(columns[..], clues, 9 * 27)
      requires Marks(rows, clues, 0, CELLS) && Marks(cols, clues, 1, CELLS) && Marks(boxes, clues, 2, CELLS)
      modifies this, nodes
      ensures Building() && stack == old(stack)
      ensures RowsDone(shape, columns[..], of, clues) && CandidatesUpTo(of, clues, CELLS * 9)
    {
      for i := 0 to CELLS
        invariant Building() && stack == old(stack)
        invariant 1 <= cur <= 1 + 81 * 4 + 36 * i
        invariant RowsDone(shape, columns[..], of, clues) && CandidatesUpTo(of, clues, i * 9)
      {
        if inout[i] == 0 {
          var row := i / 9;
          var col := i % 9;
          var box := row / 3 * 3 + col / 3;
          for v := 1 to 10
            invariant Building() && stack == old(stack)
            invariant 1 <= cur <= 1 + 81 * 4 + 36 * i + 4 * (v - 1)
            invariant RowsDone(shape, columns[..], of, clues) && CandidatesUpTo(of, clues, i * 9 + (v - 1))
          {
            MarksTell(rows, cols, boxes, clues, i, v);
            if !(rows[row, v] || cols[col, v] || boxes[box, v]) {
              AppendCandidate(i, v, clues);
            } else {
              CandidatesNext(of, of, clues, i, v);
            }
          }
        } else {
          NoCandidates(of, clues, i);
        }
      }
    }

    /** The four nodes of a candidate, joined into one row. */
    method AppendCandidate(i: nat, v: nat, ghost clues: Board)
      requires Building() && |clues| == CELLS && Candidate(clues, i, v) && cur + 4 <= MAX_NODES
      requires ColumnsUpTo(columns[..], clues, 9 * 27)
      requires RowsDone(shape, columns[..], of, clues) && CandidatesUpTo(of, clues, i * 9 + (v - 1))
      modifies this, nodes
      ensures Building() && stack == old(stack) && cur == old(cur) + 4
      ensures RowsDone(shape, columns[..], of, clues) && CandidatesUpTo(of, clues, i * 9 + v)
    {
      hide Built, RowsDone, CandidatesUpTo, ColumnsUpTo, NodeShape, JoinShape, CandidateShape, NamesOf, UnitName, Candidate,
        CandidateRows, UnitOf, PutLeft;
      ghost var f, s, rows, cs := shape, state, of, columns[..];
      CandidateHeaders(f, s, cs, cur, i, v, clues);
      var n0 := NewRow(i);
      var nr := NewRow(UnitName(0, UnitOf(0, i), v));
      var nc := NewRow(UnitName(1, UnitOf(1, i), v));
      var nb := NewRow(UnitName(2, UnitOf(2, i), v));
      CandidateJoin(f, cs, n0, i, v, shape);
      BuiltJoin(shape, state, cs, cur, n0, nr, nc, nb);
      PutLeftOf(n0, nr);
      PutLeftOf(n0, nc);
      PutLeftOf(n0, nb);
      shape, state := JoinShape(shape, n0, nr, nc, nb), JoinState(state, n0, nr, nc, nb);
      of := CandidateRows(of, n0, i, v);
      CandidateAppended(f, s, cs, rows, n0, i, v, clues);
    }

    method GetAnswer(answer: array<char>)
      requires inout.Length == CELLS && answer.Length >= CELLS
      requires forall i :: 0 <= i < CELLS ==> 0 <= inout[i] <= 9
      modifies answer
      ensures Clues(answer[..]) == inout[..]
      ensures forall i :: 0 <= i < CELLS ==> '0' <= answer[i] <= '9'
      ensures answer[CELLS..] == old(answer[CELLS..])
    {
      for i := 0 to CELLS
        invariant forall k :: 0 <= k < i ==> '0' <= answer[k] <= '9' && answer[k] as int - '0' as int == inout[k]
        invariant answer[CELLS..] == old(answer[CELLS..])
      {
        answer[i] := (inout[i] + '0' as int) as char;
      }
    }

    /** Takes node j out of its column. */
    method UnlinkNode(j: nat)
      requires InRange(nodes[..]) && j < nodes.Length
      modifies nodes
      ensures nodes[..] == Unlink(old(nodes[..]), j)
    {
      nodes[nodes[j].down] := nodes[nodes[j].down].(up := nodes[j].up);
      nodes[nodes[j].up] := nodes[nodes[j].up].(down := nodes[j].down);
      nodes[nodes[j].col] := nodes[nodes[j].col].(size := nodes[nodes[j].col].size - 1);
    }

    method UnlinkHead(c: nat)
      requires InRange(nodes[..]) && c < nodes.Length
      modifies nodes
      ensures nodes[..] == UnlinkHeader(old(nodes[..]), c)
    {
      nodes[nodes[c].right] := nodes[nodes[c].right].(left := nodes[c].left);
      nodes[nodes[c].left] := nodes[nodes[c].left].(right := nodes[c].right);
    }

    /** Takes the other nodes of row i of column c out of their columns: the inner loop of cover. */
    method UnlinkRow(row: nat, ghost f: Shape, ghost s: State, ghost c: nat, ghost i: nat)
      requires Inv(f, s) && c in s.heads && c in s.rows && c < |s.m| && SameColumn(f, |s.m|, s.rows[c], c)
      requires forall k :: 0 <= k < |s.rows[c]| ==> s.rows[c][k] in f.ring && |f.ring[s.rows[c][k]]| > 0
      requires i < |s.rows[c]| && row == s.rows[c][i]
      requires Victims(f, s.rows[c][..i]) <= Victims(f, s.rows[c])
      requires nodes[..] == Midway(f, s, c, Victims(f, s.rows[c][..i])).m
      modifies nodes
      ensures Victims(f, s.rows[c][..i + 1]) <= Victims(f, s.rows[c])
      ensures nodes[..] == Midway(f, s, c, Victims(f, s.rows[c][..i + 1])).m
    {
      hide *;
      ghost var xs, r := s.rows[c], f.ring[row];
      DonePrefix(f, xs, i, 1);
      ReadRow(f, Midway(f, s, c, Done(f, xs, i, 1)), row, 0);
      var j := nodes[row].right;
      ghost var t := 1;
      while j != row
        invariant 1 <= t <= |r| && j == (if t < |r| then r[t] else row) && (t < |r| ==> j != row)
        invariant Done(f, xs, i, t) <= Victims(f, xs)
        invariant nodes[..] == Midway(f, s, c, Done(f, xs, i, t)).m
        decreases |r| - t
      {
        NextVictim(f, s, c, i, t);
        UnlinkNode(j);
        ReadRow(f, Midway(f, s, c, Done(f, xs, i, t + 1)), row, t);
        j := nodes[j].right;
        t := t + 1;
      }
      DonePrefix(f, xs, i, t);
    }

    /** Takes column c out of the matrix, together with every row that meets it. */
    method Cover(c: nat, ghost f: Shape, ghost s: State)
      requires nodes[..] == s.m && Inv(f, s) && c in s.heads
      modifies nodes
      ensures nodes[..] == CoverState(f, s, c).m
    {
      hide *;
      MidwayEnds(f, s, c);
      ghost var xs := s.rows[c];
      UnlinkHead(c);
      ghost var i := 0;
      assert xs[..0] == [];
      ReadHeader(f, Midway(f, s, c, []), c);
      var row := nodes[c].down;
      while row != c
        invariant 0 <= i <= |xs| && row == if i < |xs| then xs[i] else c
        invariant Victims(f, xs[..i]) <= Victims(f, xs)
        invariant nodes[..] == Midway(f, s, c, Victims(f, xs[..i])).m
        decreases |xs| - i
      {
        UnlinkRow(row, f, s, c, i);
        ReadColumn(f, Midway(f, s, c, Victims(f, xs[..i + 1])), c, i);
        row := nodes[row].down;
        i := i + 1;
      }
      assert xs[..i] == xs;
    }

    /** Puts node j back into its column. */
    method RelinkNode(j: nat)
      requires InRange(nodes[..]) && j < nodes.Length
      modifies nodes
      ensures nodes[..] == Relink(old(nodes[..]), j)
    {
      nodes[nodes[j].col] := nodes[nodes[j].col].(size := nodes[nodes[j].col].size + 1);
      nodes[nodes[j].down] := nodes[nodes[j].down].(up := j);
      nodes[nodes[j].up] := nodes[nodes[j].up].(down := j);
    }

    method RelinkHead(c: nat)
      requires InRange(nodes[..]) && c < nodes.Length
      modifies nodes
      ensures nodes[..] == RelinkHeader(old(nodes[..]), c)
    {
      nodes[nodes[c].right] := nodes[nodes[c].right].(left := c);
      nodes[nodes[c].left] := nodes[nodes[c].left].(right := c);
    }

    /** Puts the other nodes of row i of column c back: the inner loop of uncover. */
    method RelinkRow(row: nat, ghost f: Shape, ghost s: State, ghost c: nat, ghost i: nat)
      requires Inv(f, s) && c in s.heads && c in s.rows && c < |s.m| && SameColumn(f, |s.m|, s.rows[c], c)
      requires forall k :: 0 <= k < |s.rows[c]| ==> s.rows[c][k] in f.ring && |f.ring[s.rows[c][k]]| > 0
      requires i < |s.rows[c]| && row == s.rows[c][i]
      requires Victims(f, s.rows[c][..i + 1]) <= Victims(f, s.rows[c])
      requires nodes[..] == Midway(f, s, c, Victims(f, s.rows[c][..i + 1])).m
      modifies nodes
      ensures Victims(f, s.rows[c][..i]) <= Victims(f, s.rows[c])
      ensures nodes[..] == Midway(f, s, c, Victims(f, s.rows[c][..i])).m
    {
      hide *;
      ghost var xs, r := s.rows[c], f.ring[row];
      DonePrefix(f, xs, i, |r|);
      DonePrefix(f, xs, i, 1);
      ReadRow(f, Midway(f, s, c, Done(f, xs, i, |r|)), row, 0);
      ReadRow(f, Midway(f, s, c, Done(f, xs, i, |r|)), row, |r| - 1);
      var j := nodes[row].left;
      ghost var t := |r|;
      while j != row
        invariant 1 <= t <= |r| && j == r[t - 1] && (t > 1 ==> j != row)
        invariant Done(f, xs, i, t) <= Victims(f, xs)
        invariant nodes[..] == Midway(f, s, c, Done(f, xs, i, t)).m
        decreases t
      {
        NextVictim(f, s, c, i, t - 1);
        RelinkNode(j);
        ReadRow(f, Midway(f, s, c, Done(f, xs, i, t - 1)), row, t - 1);
        ReadRow(f, Midway(f, s, c, Done(f, xs, i, t - 1)), row, t - 2);
        j := nodes[j].left;
        t := t - 1;
      }
    }

    /** Undoes Cover(c): every link and every size is again what it was before. */
    method Uncover(c: nat, ghost f: Shape, ghost s: State)
      requires Inv(f, s) && c in s.heads && nodes[..] == CoverState(f, s, c).m
      modifies nodes
      ensures nodes[..] == s.m
    {
      hide *;
      MidwayEnds(f, s, c);
      ghost var xs := s.rows[c];
      ghost var i := |xs|;
      assert xs[..i] == xs && xs[..0] == [];
      ReadHeader(f, Midway(f, s, c, Victims(f, xs)), c);
      var row := nodes[c].up;
      while row != c
        invariant 0 <= i <= |xs| && row == if i > 0 then xs[i - 1] else c
        invariant Victims(f, xs[..i]) <= Victims(f, xs)
        invariant nodes[..] == Midway(f, s, c, Victims(f, xs[..i])).m
        decreases i
      {
        RelinkRow(row, f, s, c, i - 1);
        ReadColumn(f, Midway(f, s, c, Victims(f, xs[..i - 1])), c, i - 1);
        row := nodes[row].up;
        i := i - 1;
      }
      RelinkHead(c);
    }

    /** A linked column of size at most one, or one of least size. */
    method GetMinColumn(ghost f: Shape, ghost s: State) returns (c: nat)
      requires nodes[..] == s.m && Inv(f, s) && s.heads != []
      ensures c in s.heads
      ensures c < nodes.Length && forall d :: d in s.heads ==> d < nodes.Length
      ensures nodes[c].size <= 1 || forall d :: d in s.heads ==> nodes[c].size <= nodes[d].size
    {
      hide *;
      ReadHeads(f, s);
      c := nodes[ROOT].right;
      var minSize := nodes[c].size;
      if minSize > 1 {
        ghost var i := 1;
        var cc := nodes[c].right;
        while cc != ROOT
          invariant 1 <= i <= |s.heads| && cc == if i < |s.heads| then s.heads[i] else ROOT
          invariant c in s.heads && c < nodes.Length && minSize == nodes[c].size > 1
          invariant forall k :: 0 <= k < i ==> s.heads[k] < nodes.Length && minSize <= nodes[s.heads[k]].size
          decreases |s.heads| - i
        {
          if minSize > nodes[cc].size {
            c := cc;
            minSize := nodes[cc].size;
            if minSize <= 1 {
              break;
            }
          }
          cc := nodes[cc].right;
          i := i + 1;
        }
      }
    }

    /** Covers the columns of the other nodes of a row, left to right. */
    method CoverOthers(row: nat, ghost f: Shape, ghost s: State)
      requires Inv(f, s) && RowFree(f, s, row) && nodes[..] == s.m
      modifies nodes
      ensures nodes[..] == CoverColumns(f, s, Others(f, row)).m
    {
      hide *;
      RowFreeFacts(f, s, row);
      ghost var r, cs := f.ring[row], Others(f, row);
      ReadRow(f, s, row, 0);
      var j := nodes[row].right;
      ghost var t := 1;
      while j != row
        invariant 1 <= t <= |r| && j == (if t < |r| then r[t] else row) && (t < |r| ==> j != row)
        invariant Coverings(s, cs[..t - 1])
        invariant nodes[..] == CoverColumns(f, s, cs[..t - 1]).m
        decreases |r| - t
      {
        CoverNext(f, s, cs, t - 1);
        ReadRow(f, CoverColumns(f, s, cs[..t - 1]), row, t);
        Cover(nodes[j].col, f, CoverColumns(f, s, cs[..t - 1]));
        ReadRow(f, CoverColumns(f, s, cs[..t]), row, t);
        j := nodes[j].right;
        t := t + 1;
      }
      assert cs[..t - 1] == cs;
    }

    /** Uncovers them again, right to left. */
    method UncoverOthers(row: nat, ghost f: Shape, ghost s: State)
      requires Inv(f, s) && RowFree(f, s, row) && nodes[..] == CoverColumns(f, s, Others(f, row)).m
      modifies nodes
      ensures nodes[..] == s.m
    {
      hide *;
      RowFreeFacts(f, s, row);
      ghost var r, cs := f.ring[row], Others(f, row);
      assert cs[..|r| - 1] == cs && cs[..0] == [];
      ReadRow(f, CoverColumns(f, s, cs), row, 0);
      ReadRow(f, CoverColumns(f, s, cs), row, |r| - 1);
      var j := nodes[row].left;
      ghost var t := |r|;
      while j != row
        invariant 1 <= t <= |r| && j == r[t - 1] && (t > 1 ==> j != row)
        invariant Coverings(s, cs[..t - 1])
        invariant nodes[..] == CoverColumns(f, s, cs[..t - 1]).m
        decreases t
      {
        CoverNext(f, s, cs, t - 2);
        ReadRow(f, CoverColumns(f, s, cs[..t - 1]), row, t - 1);
        Uncover(nodes[j].col, f, CoverColumns(f, s, cs[..t - 2]));
        ReadRow(f, CoverColumns(f, s, cs[..t - 2]), row, t - 1);
        ReadRow(f, CoverColumns(f, s, cs[..t - 2]), row, t - 2);
        j := nodes[j].left;
        t := t - 1;
      }
    }

    /** Writes the rows on the stack into the board. */
    method WriteStack(ghost f: Shape, ghost s: State)
      requires nodes[..] == s.m && Inv(f, s) && Decodable(f) && inout.Length == CELLS
      requires forall i :: 0 <= i < |stack| ==> stack[i] in f.ring
      modifies inout
      ensures inout[..] == WriteRows(f, old(inout[..]), stack)
    {
      hide *;
      ghost var board := inout[..];
      WriteRowsEnds(f, board);
      for i := 0 to |stack|
        invariant inout[..] == WriteRows(f, board, stack[..i])
      {
        var n := stack[i];
        var cell, val := -1, -1;
        ghost var row := n;
        ghost var names := Names(f, row);
        ScanStarts(f, s, row);
        ghost var t := 0;
        while cell == -1 || val == -1
          invariant 0 <= t <= |names| == |f.ring[row]| && n == (if t < |names| then f.ring[row][t] else row)
          invariant inout[..] == WriteRows(f, board, stack[..i])
          invariant ScanDone(names[t..], cell, val)
          invariant Scan(names[t..], cell, val) == Scan(names, -1, -1)
          decreases |names| - t
        {
          ScanStep(names, t, cell, val);
          ReadRow(f, s, row, t);
          ReadName(f, row, t);
          if nodes[n].name < 100 {
            cell := nodes[n].name;
          } else {
            val := nodes[n].name % 10;
          }
          n := nodes[n].right;
          t := t + 1;
        }
        ScanStops(names[t..], cell, val);
        WriteRowsNext(f, board, stack, i);
        ghost var before := inout[..];
        inout[cell] := val;
        assert inout[..] == before[cell := val];
      }
      assert stack[..|stack|] == stack;
    }

    /**
     Algorithm X: answers whether the linked columns have an exact cover. On yes the rows
     pushed on the stack are one, and the board shows them; on no everything is as before.
     */
    method Solve(ghost f: Shape, ghost s: State) returns (found: bool)
      requires nodes[..] == s.m && Inv(f, s) && Decodable(f) && inout.Length == CELLS
      requires forall i :: 0 <= i < |stack| ==> stack[i] in f.ring
      modifies nodes, inout, `stack
      ensures found <==> Coverable(f, Elements(s.heads))
      ensures !found ==>
                nodes[..] == old(nodes[..]) && inout[..] == old(inout[..]) && stack == old(stack)
      ensures found ==>
                && old(stack) <= stack && (forall i :: 0 <= i < |stack| ==> stack[i] in f.ring)
                && IsExactCover(f, Elements(s.heads), stack[|old(stack)|..])
                && inout[..] == WriteRows(f, old(inout[..]), stack)
      decreases |s.heads|
    {
      hide *;
      ReadHeads(f, s);
      if nodes[ROOT].left == ROOT {
        WriteStack(f, s);
        EmptyCover(f, s);
        assert stack[|old(stack)|..] == [];
        return true;
      }
      var col := GetMinColumn(f, s);
      Cover(col, f, s);
      ghost var s1 := CoverState(f, s, col);
      SearchStarts(f, s, col);
      ghost var xs := s.rows[col];
      ReadHeader(f, s1, col);
      var row := nodes[col].down;
      ghost var k := 0;
      while row != col
        invariant 0 <= k <= |xs| && row == (if k < |xs| then xs[k] else col)
        invariant nodes[..] == s1.m && inout[..] == old(inout[..]) && stack == old(stack)
        invariant forall i :: 0 <= i < k ==> xs[i] in f.ring && !Coverable(f, Elements(s.heads) - Columns(f, xs[i]))
        decreases |xs| - k
      {
        stack := stack + [row];
        RowSearch(f, s, col, k);
        CoverOthers(row, f, s1);
        ghost var s2 := CoverColumns(f, s1, Others(f, row));
        var deeper := Solve(f, s2);
        if deeper {
          ghost var sel := stack[|old(stack)| + 1..];
          ExtendCover(f, Elements(s.heads), row, sel);
          assert stack[|old(stack)|..] == [row] + sel;
          CoverableBy(f, Elements(s.heads), [row] + sel);
          return true;
        }
        stack := stack[..|stack| - 1];
        UncoverOthers(row, f, s1);
        ReadColumn(f, s1, col, k);
        row := nodes[row].down;
        k := k + 1;
      }
      Uncover(col, f, s);
      SomeRowCovers(f, s, col);
      return false;
    }
  }

  /** Solves the puzzle in place: a completion if there is one, otherwise the text stays as it is. */
  method Solver(problem: array<char>)
    requires HasDigits(problem[..])
    modifies problem
    ensures Solves(old(problem[..]), problem[..])
  {
    hide Inv, IsMatrix, IsExactCover, WriteRows, Clues, IsCompletion;
    ghost var clues := Clues(problem[..]);
    ghost var text := problem[..];
    CluesAreClues(problem[..]);
    var d := new Dance(problem);
    ghost var f, cols, of := d.shape, d.columns[..], d.of;
    MatrixDecodes(f, cols, of, clues);
    CoverableIffCompletable(f, cols, of, clues);
    var found := d.Solve(f, d.state);
    if found {
      assert d.stack[0..] == d.stack;
      CoverCompletes(f, cols, of, clues, d.stack);
    }
    BoardHasDigits(clues, d.inout[..]);
    d.GetAnswer(problem);
    if !found {
      SameText(text, problem[..]);
    }
  }

  lemma MatrixDecodes(f: Shape, cols: seq<int>, of: Rows, clues: Board)
    requires |clues| == CELLS && IsMatrix(f, cols, of, clues)
    ensures Decodable(f)
  {
  }

  lemma BoardHasDigits(clues: Board, b: Board)
    requires IsClues(clues) && (b == clues || IsCompletion(clues, b))
    ensures forall i :: 0 <= i < CELLS ==> 0 <= b[i] <= 9
  {
  }

  lemma SameText(s: seq<char>, t: seq<char>)
    requires |s| == |t| >= CELLS && s[CELLS..] == t[CELLS..] && Clues(s) == Clues(t)
    ensures s == t
  {
    forall i | 0 <= i < |s|
      ensures s[i] == t[i]
    {
      if i < CELLS {
        assert Clues(s)[i] == Clues(t)[i];
      } else {
        assert s[CELLS..][i - CELLS] == t[CELLS..][i - CELLS];
      }
    }
  }

  /** marks[u, v] says whether one of the first n cells of unit u holds v. */
  ghost predicate Marks(marks: array2<bool>, clues: Board, kind: nat, n: nat)
    requires |clues| == CELLS && n <= CELLS
    reads marks
  {
    marks.Length0 == CELLS && marks.Length1 == 10 &&
    forall u: nat, v: nat {:trigger marks[u, v]} :: u < SIDE && v < 10 ==> (marks[u, v] <==> UsedBelow(clues, kind, u, v, n))
  }

  lemma MarkIs(marks: array2<bool>, clues: Board, kind: nat, n: nat, u: nat, v: nat)
    requires |clues| == CELLS && n <= CELLS && Marks(marks, clues, kind, n) && u < SIDE && v < 10
    ensures marks[u, v] <==> UsedBelow(clues, kind, u, v, n)
  {
  }

  lemma MarksTell(rows: array2<bool>, cols: array2<bool>, boxes: array2<bool>, clues: Board, i: nat, v: nat)
    requires |clues| == CELLS && i < CELLS && clues[i] == 0 && 1 <= v <= 9
    requires Marks(rows, clues, 0, CELLS) && Marks(cols, clues, 1, CELLS) && Marks(boxes, clues, 2, CELLS)
    ensures Candidate(clues, i, v) <==> !(rows[UnitOf(0, i), v] || cols[UnitOf(1, i), v] || boxes[UnitOf(2, i), v])
  {
    MarkIs(rows, clues, 0, CELLS, UnitOf(0, i), v);
    MarkIs(cols, clues, 1, CELLS, UnitOf(1, i), v);
    MarkIs(boxes, clues, 2, CELLS, UnitOf(2, i), v);
    UsedBelowAll(clues, 0, UnitOf(0, i), v);
    UsedBelowAll(clues, 1, UnitOf(1, i), v);
    UsedBelowAll(clues, 2, UnitOf(2, i), v);
  }

  lemma NoCandidates(of: Rows, clues: Board, i: nat)
    requires |clues| == CELLS && i < CELLS && clues[i] != 0 && CandidatesUpTo(of, clues, i * 9)
    ensures CandidatesUpTo(of, clues, (i + 1) * 9)
  {
    forall i': nat, v: nat | Candidate(clues, i', v) && i' * 9 + (v - 1) < (i + 1) * 9
      ensures HasRow(of, i', v)
    {
      assert i' != i;
    }
  }

  /** The four names of a candidate have four different headers. */
  lemma CandidateHeaders(f: Shape, s: State, cols: seq<int>, cur: nat, i: nat, v: nat, clues: Board)
    requires |clues| == CELLS && Built(f, s, cols, cur) && Candidate(clues, i, v) && ColumnsUpTo(cols, clues, 9 * 27)
    ensures Built(f, s, cols, cur) && InRange(s.m)
    ensures i < CELLS && 1 <= v <= 9 && NamesOf(i, v)[0] == i
    ensures forall kind: nat :: kind < KINDS ==> NamesOf(i, v)[kind + 1] == UnitName(kind, UnitOf(kind, i), v)
    ensures forall k :: 0 <= k < 4 ==> cols[NamesOf(i, v)[k]] >= 0
    ensures cols[i] >= 0
    ensures forall kind: nat :: kind < KINDS ==> cols[UnitName(kind, UnitOf(kind, i), v)] >= 0
    ensures forall k, l :: 0 <= k < l < 4 ==> cols[NamesOf(i, v)[k]] != cols[NamesOf(i, v)[l]]
  {
    hide HasValue, IsColumn, ColumnsUpTo, Full;
    ColumnsEnd(cols, clues);
    CandidateColumns(clues, i, v);
    var ns := NamesOf(i, v);
    forall k, l | 0 <= k < l < 4
      ensures cols[ns[k]] != cols[ns[l]] && cols[ns[k]] >= 0 && cols[ns[l]] >= 0
    {
      assert IsColumn(clues, ns[k]) && IsColumn(clues, ns[l]);
      assert ns[k] < ns[l];
    }
  }

  lemma HeaderIn(f: Shape, s: State, cols: seq<int>, cur: nat, n: nat)
    requires Built(f, s, cols, cur) && n < NAMES && cols[n] >= 0
    ensures cols[n] in f.heads && f.heads == s.rows.Keys && cols[n] < |s.m| && InRange(s.m)
  {
  }

  lemma RootBuilt(m: Pool, cols: seq<int>)
    requires |m| == MAX_NODES && |cols| == NAMES && forall n :: 0 <= n < NAMES ==> cols[n] == -1
    requires forall i :: 0 <= i < |m| ==> m[i] == Node(0, 0, 0, 0, 0, 0, 0)
    ensures Built(Shape({}, map[], map[], map[]), State(m, [], map[]), cols, 1)
  {
    assert [ROOT] + [] == [ROOT];
  }

  lemma NothingDone(f: Shape, cols: seq<int>, of: Rows, clues: Board)
    requires |clues| == CELLS && |cols| == NAMES && f.ring == map[] && of == map[]
    ensures RowsDone(f, cols, of, clues) && CandidatesUpTo(of, clues, 0)
  {
  }

  /** The finished matrix stands for the puzzle, and nothing is covered. */
  lemma Finished(f: Shape, s: State, cols: seq<int>, of: Rows, cur: nat, clues: Board)
    requires |clues| == CELLS && Built(f, s, cols, cur) && of.Keys == f.ring.Keys
    requires ColumnsUpTo(cols, clues, 9 * 27)
    requires RowsDone(f, cols, of, clues) && CandidatesUpTo(of, clues, CELLS * 9)
    ensures Inv(f, s) && Elements(s.heads) == f.heads && IsMatrix(f, cols, of, clues)
  {
    FullInv(f, s);
    ColumnsEnd(cols, clues);
    forall i: nat, v: nat | Candidate(clues, i, v)
      ensures HasRow(of, i, v)
    {
      assert i * 9 + (v - 1) < CELLS * 9;
    }
    BuiltIsMatrix(f, cols, of, clues);
  }

  /** Four nodes added for a candidate can be joined, and then are its row. */
  lemma CandidateJoin(f: Shape, cols: seq<int>, x: nat, i: nat, v: nat, g: Shape)
    requires i < CELLS && 1 <= v <= 9 && |cols| == NAMES
    requires forall k :: 0 <= k < 4 ==> cols[NamesOf(i, v)[k]] >= 0
    requires forall k, l :: 0 <= k < l < 4 ==> cols[NamesOf(i, v)[k]] != cols[NamesOf(i, v)[l]]
    requires cols[i] >= 0 && forall kind: nat :: kind < KINDS ==> cols[UnitName(kind, UnitOf(kind, i), v)] >= 0
    requires g == NodeShape(NodeShape(NodeShape(NodeShape(f, x, cols[i], i),
                    x + 1, cols[UnitName(0, UnitOf(0, i), v)], UnitName(0, UnitOf(0, i), v)),
                    x + 2, cols[UnitName(1, UnitOf(1, i), v)], UnitName(1, UnitOf(1, i), v)),
                    x + 3, cols[UnitName(2, UnitOf(2, i), v)], UnitName(2, UnitOf(2, i), v))
    ensures Joinable(g, x, x + 1, x + 2, x + 3)
    ensures JoinShape(g, x, x + 1, x + 2, x + 3) == CandidateShape(f, cols, x, i, v)
  {
    var ns := NamesOf(i, v);
    assert ns[0] == i && ns[1] == UnitName(0, UnitOf(0, i), v);
    assert ns[2] == UnitName(1, UnitOf(1, i), v) && ns[3] == UnitName(2, UnitOf(2, i), v);
    hide NamesOf, UnitName, UnitOf;
  }

  lemma CandidateAppended(f: Shape, s: State, cols: seq<int>, of: Rows, x: nat, i: nat, v: nat, clues: Board)
    requires |clues| == CELLS && Built(f, s, cols, x) && of.Keys == f.ring.Keys && Candidate(clues, i, v)
    requires forall k :: 0 <= k < 4 ==> cols[NamesOf(i, v)[k]] >= 0
    requires RowsDone(f, cols, of, clues) && CandidatesUpTo(of, clues, i * 9 + (v - 1))
    ensures CandidateRows(of, x, i, v).Keys == CandidateShape(f, cols, x, i, v).ring.Keys
    ensures RowsDone(CandidateShape(f, cols, x, i, v), cols, CandidateRows(of, x, i, v), clues)
    ensures CandidatesUpTo(CandidateRows(of, x, i, v), clues, i * 9 + v)
  {
    CandidateAdded(f, s, cols, of, x, i, v, clues);
    assert x !in f.ring && x + 1 !in f.ring && x + 2 !in f.ring && x + 3 !in f.ring;
    var of' := CandidateRows(of, x, i, v);
    forall i': nat, v': nat | HasRow(of, i', v') || (i' == i && v' == v)
      ensures HasRow(of', i', v')
    {
      RowsKept(of, x, i, v, i', v');
    }
    CandidatesNext(of, of', clues, i, v);
  }

  ghost predicate RowsDone(f: Shape, cols: seq<int>, of: Rows, clues: Board)
    requires |clues| == CELLS && |cols| == NAMES && of.Keys == f.ring.Keys
  {
    forall x {:trigger of[x]} :: x in f.ring ==> RowDone(f, cols, x, of[x].0, of[x].1, clues)
  }
}
