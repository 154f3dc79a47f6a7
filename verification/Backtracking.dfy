/** The three backtracking solvers of Lab1/src/Resource, over their shared tables. */
module Backtracking {
  import opened Cycles
  import opened Sudoku
  import opened Neighbors
  import opened Filling

  const NUM: nat := 9

  class Workspace {
    const neighbors: array2<nat>
    const board: array<int>
    const spaces: array<nat>
    var nspaces: nat
    const occupied: array2<bool>
    const arity: array<int>

    ghost predicate Valid()
      reads this
    {
      Shaped() && nspaces <= CELLS
    }

    ghost predicate Shaped()
    {
      && neighbors.Length0 == CELLS && neighbors.Length1 == NEIGHBOR
      && board.Length == CELLS && spaces.Length == CELLS
      && occupied.Length0 == CELLS && occupied.Length1 == NUM + 1 && arity.Length == CELLS
      && board != arity && spaces as object != board as object && spaces as object != arity as object
    }

    constructor ()
      ensures Valid() && fresh(neighbors) && fresh(board) && fresh(spaces) && fresh(occupied) && fresh(arity)
    {
      neighbors := new nat[CELLS, NEIGHBOR];
      board := new int[CELLS];
      spaces := new nat[CELLS];
      nspaces := 0;
      occupied := new bool[CELLS, NUM + 1];
      arity := new int[CELLS];
    }

    // ---------- the neighbour table ----------

    ghost function NeighborRow(cell: nat): (s: seq<nat>)
      requires Shaped() && cell < CELLS
      reads neighbors
      ensures |s| == NEIGHBOR
    {
      seq(NEIGHBOR, i requires 0 <= i < NEIGHBOR reads neighbors => neighbors[cell, i])
    }

    /** Every row of the table lists the neighbours of its cell. */
    ghost predicate TableBuilt()
      requires Shaped()
      reads neighbors
    {
      forall cell: nat {:trigger NeighborRow(cell)} :: cell < CELLS ==> ListsNeighbors(cell, NeighborRow(cell))
    }

    static method MarkAdjacent(adjacent: array2<bool>, row: nat, col: nat)
      requires adjacent.Length0 == SIDE && adjacent.Length1 == SIDE && row < SIDE && col < SIDE
      requires forall y, x :: 0 <= y < SIDE && 0 <= x < SIDE ==> !adjacent[y, x]
      modifies adjacent
      ensures forall y, x :: 0 <= y < SIDE && 0 <= x < SIDE ==> (adjacent[y, x] <==> Adjacent(row, col, y, x))
    {
      for i := 0 to NUM
        invariant forall y, x :: 0 <= y < SIDE && 0 <= x < SIDE ==>
                    (adjacent[y, x] <==> (y == row && x < i) || (x == col && y < i))
      {
        adjacent[row, i] := true;
        adjacent[i, col] := true;
      }
      var top, left := row / 3 * 3, col / 3 * 3;
      adjacent[top, left] := true;
      adjacent[top, left + 1] := true;
      adjacent[top, left + 2] := true;
      adjacent[top + 1, left] := true;
      adjacent[top + 1, left + 1] := true;
      adjacent[top + 1, left + 2] := true;
      adjacent[top + 2, left] := true;
      adjacent[top + 2, left + 1] := true;
      adjacent[top + 2, left + 2] := true;
    }

    /** Entry n of row me; the entries before it and the other rows stay. */
    method SetNeighbor(me: nat, n: nat, cell: nat)
      requires Valid() && me < CELLS && n < NEIGHBOR
      modifies neighbors
      ensures NeighborRow(me) == old(NeighborRow(me))[n := cell]
      ensures forall c: nat {:trigger NeighborRow(c)} :: c < CELLS && c != me ==> NeighborRow(c) == old(NeighborRow(c))
    {
      neighbors[me, n] := cell;
    }

    /** collect_neighbors: writes the marked cells other than (row, col) itself; there are exactly NEIGHBOR of them. */
    method CollectNeighbors(adjacent: array2<bool>, row: nat, col: nat)
      requires Valid() && row < SIDE && col < SIDE && row * 9 + col < CELLS
      requires adjacent.Length0 == SIDE && adjacent.Length1 == SIDE
      requires forall y, x :: 0 <= y < SIDE && 0 <= x < SIDE ==> (adjacent[y, x] <==> Adjacent(row, col, y, x))
      modifies neighbors
      ensures ListsNeighbors(row * 9 + col, NeighborRow(row * 9 + col))
      ensures forall c: nat {:trigger NeighborRow(c)} :: c < CELLS && c != row * 9 + col ==>
                NeighborRow(c) == old(NeighborRow(c))
    {
      hide Peers, Adjacent, NeighborRow;
      var n, me := 0, row * 9 + col;
      ghost var listed: seq<nat> := [];
      for y := 0 to SIDE
        invariant Valid() && n == |listed| <= NEIGHBOR && listed <= NeighborRow(me)
        invariant ListedUpTo(me, listed, y * 9)
        invariant forall c: nat {:trigger NeighborRow(c)} :: c < CELLS && c != me ==> NeighborRow(c) == old(NeighborRow(c))
      {
        for x := 0 to SIDE
          invariant Valid() && n == |listed| <= NEIGHBOR && listed <= NeighborRow(me)
          invariant ListedUpTo(me, listed, y * 9 + x)
          invariant forall c: nat {:trigger NeighborRow(c)} :: c < CELLS && c != me ==> NeighborRow(c) == old(NeighborRow(c))
        {
          AdjacentArePeers(row, col, y, x);
          ListMore(me, listed, y * 9 + x);
          if adjacent[y, x] && !(y == row && x == col) {
            SetNeighbor(me, n, y * 9 + x);
            n := n + 1;
            listed := listed + [y * 9 + x];
          }
        }
      }
      ListComplete(me, listed);
      assert |NeighborRow(me)| == NEIGHBOR;
      assert NeighborRow(me) == listed;
    }

    /** init_neighbors: builds the whole table. */
    method InitNeighbors()
      requires Valid()
      modifies neighbors
      ensures TableBuilt()
    {
      hide Peers, Adjacent, NeighborRow, ListsNeighbors;
      for row := 0 to SIDE
        invariant forall c: nat {:trigger NeighborRow(c)} :: c < row * 9 ==> ListsNeighbors(c, NeighborRow(c))
      {
        for col := 0 to SIDE
          invariant forall c: nat {:trigger NeighborRow(c)} :: c < row * 9 + col ==> ListsNeighbors(c, NeighborRow(c))
        {
          var adjacent := new bool[SIDE, SIDE]((y, x) => false);
          MarkAdjacent(adjacent, row, col);
          CollectNeighbors(adjacent, row, col);
        }
      }
    }

    // ---------- reading a board ----------

    /** find_spaces: the blank cells in increasing order. */
    method FindSpaces()
      requires Valid()
      modifies `nspaces, spaces
      ensures Valid() && Pending(board[..], multiset(spaces[..nspaces]))
      ensures Ascending(spaces[..nspaces], CELLS)
    {
      hide PendingBelow, Ascending;
      nspaces := 0;
      ghost var listed: seq<nat> := [];
      SpacesStart(board[..]);
      for cell := 0 to CELLS
        invariant Valid() && nspaces <= cell && spaces[..nspaces] == listed
        invariant PendingBelow(board[..], multiset(listed), cell) && Ascending(listed, cell)
      {
        PendingMore(board[..], listed, cell);
        AscendingMore(listed, cell);
        if board[cell] == 0 {
          spaces[nspaces] := cell;
          nspaces := nspaces + 1;
          listed := listed + [cell];
        }
      }
      PendingEnds(board[..], multiset(spaces[..nspaces]));
    }

    /** input: the digits of one line. */
    method Input(text: string)
      requires Valid() && HasDigits(text)
      modifies `nspaces, board, spaces
      ensures Valid() && IsClues(board[..]) && Pending(board[..], multiset(spaces[..nspaces]))
      ensures forall i :: 0 <= i < CELLS ==> board[i] == text[i] as int - '0' as int
    {
      for cell := 0 to CELLS
        invariant Valid()
        invariant forall i :: 0 <= i < cell ==> board[i] == text[i] as int - '0' as int
      {
        board[cell] := text[cell] as int - '0' as int;
      }
      FindSpaces();
    }

    /** available: no neighbour of cell holds guess. */
    method IsAvailable(guess: int, cell: nat) returns (ok: bool)
      requires Valid() && TableBuilt() && cell < CELLS
      ensures ok <==> Available(board[..], cell, guess)
    {
      hide Peers;
      assert ListsNeighbors(cell, NeighborRow(cell));
      for i := 0 to NEIGHBOR
        invariant forall k :: 0 <= k < i ==> neighbors[cell, k] < CELLS && board[neighbors[cell, k]] != guess
      {
        var neighbor := neighbors[cell, i];
        assert neighbor == NeighborRow(cell)[i];
        assert neighbor in NeighborRow(cell);
        if board[neighbor] == guess {
          return false;
        }
      }
      forall j: nat | j < CELLS && Peers(cell, j)
        ensures board[..][j] != guess
      {
        assert j in NeighborRow(cell);
        var k: nat :| k < NEIGHBOR && NeighborRow(cell)[k] == j;
        assert neighbors[cell, k] == j;
      }
      return true;
    }

    // ---------- plain backtracking ----------

    /** The spaces from which on are the blank cells of the board. */
    ghost predicate Ready(which: nat)
      requires Valid()
      reads this, board, spaces
    {
      which <= nspaces && IsClues(board[..]) && Pending(board[..], multiset(spaces[..][which..nspaces]))
    }

    /**
     solve_sudoku_basic: fills the spaces from which on in their order. It finds a filling
     exactly when there is one; otherwise the board is as it was.
     */
    method SolveBasic(which: nat) returns (found: bool)
      requires Valid() && TableBuilt() && Ready(which)
      modifies board
      ensures found ==> IsFilling(old(board[..]), board[..])
      ensures !found ==> !Fillable(old(board[..])) && board[..] == old(board[..])
      decreases nspaces - which
    {
      hide Peers, IsFilling, Fillable, Available, ListsNeighbors, NeighborRow;
      ghost var b := board[..];
      if which >= nspaces {
        assert spaces[..][which..nspaces] == [];
        PendingNone(b);
        return true;
      }
      var cell := spaces[which];
      ghost var rest := spaces[..][which..nspaces];
      assert rest[1..] == spaces[..][which + 1..nspaces];
      PendingStep(b, rest, 1);
      for guess := 1 to NUM + 1
        invariant board[..] == b
        invariant forall v :: 1 <= v < guess && Available(b, cell, v) ==> !Fillable(b[cell := v])
      {
        var ok := IsAvailable(guess, cell);
        if ok {
          board[cell] := guess;
          assert board[..] == b[cell := guess];
          PendingStep(b, rest, guess);
          var solvedRest := SolveBasic(which + 1);
          if solvedRest {
            PickFills(b, cell, guess, board[..]);
            return true;
          }
          board[cell] := 0;
          assert board[..] == b;
        }
      }
      FillableStep(b, cell);
      return false;
    }

    // ---------- the most constrained space first ----------

    /** arity: how many values are available for cell. */
    method ArityOf(cell: nat) returns (n: nat)
      requires Valid() && TableBuilt() && cell < CELLS && IsClues(board[..])
      ensures n == Arity(board[..], cell, NUM)
    {
      hide Peers, Arity;
      assert ListsNeighbors(cell, NeighborRow(cell));
      var held := new bool[NUM + 1](v => false);
      for i := 0 to NEIGHBOR
        invariant forall k :: 0 <= k < i ==> neighbors[cell, k] < CELLS && held[board[neighbors[cell, k]]]
        invariant forall v: nat {:trigger held[v]} :: v <= NUM && held[v] ==> !Available(board[..], cell, v)
      {
        var neighbor := neighbors[cell, i];
        assert neighbor == NeighborRow(cell)[i];
        assert neighbor in NeighborRow(cell);
        assert board[..][neighbor] == board[neighbor];
        held[board[neighbor]] := true;
      }
      forall v: nat | v <= NUM && !held[v]
        ensures Available(board[..], cell, v)
      {
        forall j: nat | j < CELLS && Peers(cell, j)
          ensures board[..][j] != v
        {
          assert j in NeighborRow(cell);
          var k: nat :| k < NEIGHBOR && NeighborRow(cell)[k] == j;
          assert neighbors[cell, k] == j;
        }
      }
      n := Open(held[..], NUM);
      OpenIsArity(held[..], board[..], cell, NUM);
    }

    method SwapSpaces(k: nat, i: nat)
      requires Valid() && k <= i < nspaces
      modifies spaces
      ensures spaces[..] == old(spaces[..][k := spaces[i]][i := spaces[k]])
      ensures Reordered(old(spaces[..]), spaces[..], k, nspaces)
    {
      if i != k {
        spaces[i], spaces[k] := spaces[k], spaces[i];
      }
      SwapReorders(old(spaces[..]), k, i, nspaces);
    }

    /** find_min_arity of sudoku_min_arity.cc. */
    method FindMinArity(space: nat)
      requires Valid() && TableBuilt() && Ready(space) && space < nspaces
      modifies spaces
      ensures Ready(space) && Reordered(old(spaces[..]), spaces[..], space, nspaces)
      ensures LeastFirst(board[..], spaces[..], space, nspaces) && spaces[space] < CELLS
    {
      hide Peers, Arity, NeighborRow, Reordered, Pending, TableBuilt, IsClues, LeastFirst;
      ghost var b, s := board[..], spaces[..];
      PendingAreBlank(b, s, space, nspaces);
      var minSpace, minArity := space, 0;
      minArity := ArityOf(spaces[space]);
      var sp := space + 1;
      while sp < nspaces && minArity > 1
        invariant space < sp <= nspaces && space <= minSpace < sp && spaces[..] == s
        invariant minArity == Arity(b, s[minSpace], NUM)
        invariant forall i :: space <= i < sp ==> minArity <= Arity(b, s[i], NUM)
      {
        var curArity := ArityOf(spaces[sp]);
        if curArity < minArity {
          minArity, minSpace := curArity, sp;
        }
        sp := sp + 1;
      }
      SwapSpaces(space, minSpace);
      PendingReordered(b, s, spaces[..], space, nspaces);
      SwapPutsLeastFirst(b, s, space, minSpace, nspaces);
      PendingAreBlank(b, spaces[..], space, nspaces);
    }

    /**
     solve_sudoku_min_arity: the same search, taking a most constrained space each time. It
     gives the same verdict although it reorders the spaces.
     */
    method SolveMinArity(which: nat) returns (found: bool)
      requires Valid() && TableBuilt() && Ready(which)
      modifies board, spaces
      ensures found ==> IsFilling(old(board[..]), board[..])
      ensures !found ==> !Fillable(old(board[..])) && board[..] == old(board[..])
      ensures !found ==> Reordered(old(spaces[..]), spaces[..], which, nspaces)
      decreases nspaces - which, 1
    {
      hide Peers, IsFilling, Fillable, Available, ListsNeighbors, NeighborRow, LeastFirst, Reordered, Pending, Arity,
           TableBuilt, IsFull;
      ghost var b := board[..];
      if which >= nspaces {
        assert spaces[..][which..nspaces] == [];
        PendingNone(b);
        return true;
      }
      FindMinArity(which);
      var cell := spaces[which];
      for guess := 1 to NUM + 1
        invariant board[..] == b && Ready(which) && spaces[which] == cell
        invariant Reordered(old(spaces[..]), spaces[..], which, nspaces)
        invariant forall v :: 1 <= v < guess && Available(b, cell, v) ==> !Fillable(b[cell := v])
      {
        PendingAreBlank(b, spaces[..], which, nspaces);
        var ok := IsAvailable(guess, cell);
        if ok {
          ghost var before := spaces[..];
          var solvedRest := TryGuessMinArity(which, cell, guess);
          if solvedRest {
            PickFills(b, cell, guess, board[..]);
            return true;
          }
          ReorderedLess(old(spaces[..]), before, spaces[..], which, nspaces);
          PendingReordered(b, old(spaces[..]), spaces[..], which, nspaces);
        }
      }
      PendingAreBlank(b, spaces[..], which, nspaces);
      FillableStep(b, cell);
      return false;
    }


    /** Holds guess in cell, tries the remaining spaces, and takes it back if that fails. */
    method TryGuessMinArity(which: nat, cell: nat, guess: nat) returns (found: bool)
      requires Valid() && TableBuilt() && Ready(which) && which < nspaces && cell == spaces[which] < CELLS
      requires board[cell] == 0 && 1 <= guess <= NUM
      modifies board, spaces
      ensures found ==> IsFilling(old(board[..])[cell := guess], board[..])
      ensures !found ==> !Fillable(old(board[..])[cell := guess]) && board[..] == old(board[..])
      ensures !found ==> Reordered(old(spaces[..]), spaces[..], which + 1, nspaces)
      decreases nspaces - which, 0
    {
      hide Peers, IsFilling, Fillable, Available, Reordered, Pending, TableBuilt, IsFull;
      ghost var b := board[..];
      board[cell] := guess;
      assert board[..] == b[cell := guess];
      ghost var rest := spaces[..][which..nspaces];
      assert rest[1..] == spaces[..][which + 1..nspaces];
      PendingStep(b, rest, guess);
      found := SolveMinArity(which + 1);
      if found {
        return;
      }
      board[cell] := 0;
      assert board[..] == b;
    }

    // ---------- the same search over a cache ----------

    ghost function Occupied(): (occ: seq<seq<bool>>)
      requires Shaped()
      reads occupied
      ensures |occ| == CELLS && forall c :: 0 <= c < CELLS ==> |occ[c]| == 10
      ensures forall c, v :: 0 <= c < CELLS && 0 <= v < 10 ==> occ[c][v] == occupied[c, v]
    {
      seq(CELLS, c requires 0 <= c < CELLS reads occupied =>
        seq(10, v requires 0 <= v < 10 reads occupied => occupied[c, v]))
    }

    method SetOccupied(c: nat, v: nat, value: bool)
      requires Valid() && c < CELLS && v < 10
      modifies occupied
      ensures Occupied() == old(Occupied())[c := old(Occupied())[c][v := value]]
    {
      occupied[c, v] := value;
      assert forall d :: 0 <= d < CELLS ==>
                           Occupied()[d] == old(Occupied())[c := old(Occupied())[c][v := value]][d];
    }

    ghost predicate CacheRight()
      requires Shaped()
      reads board, occupied, arity
    {
      CacheOk(board[..], Occupied(), arity[..])
    }

    /** Marks v as occupied in the neighbours of cell where it was not, and remembers which. */
    method MarkNeighbors(cell: nat, v: nat, modified: array<nat>) returns (nmodified: nat)
      requires Valid() && TableBuilt() && cell < CELLS && v < 10
      requires modified.Length == NEIGHBOR && modified as object != arity as object
      modifies occupied, arity, modified
      ensures nmodified <= NEIGHBOR && Touches(old(Occupied()), cell, v, modified[..nmodified])
      ensures Marked(old(Occupied()), old(arity[..]), modified[..nmodified], v, Occupied(), arity[..])
    {
      hide Peers, Marked, Occupied, TouchedUpTo, Touches, NoDup;
      ghost var occ, ar, row := Occupied(), arity[..], NeighborRow(cell);
      assert ListsNeighbors(cell, row);
      nmodified := 0;
      MarkNone(occ, ar, v);
      TouchedNone(occ, row, v);
      for n := 0 to NEIGHBOR
        invariant nmodified <= n && TouchedUpTo(occ, row, v, modified[..nmodified], n)
        invariant Marked(occ, ar, modified[..nmodified], v, Occupied(), arity[..])
      {
        var neighbor := neighbors[cell, n];
        assert neighbor == row[n] && neighbor in row;
        ghost var ms := modified[..nmodified];
        TouchMore(occ, ar, row, v, ms, n, Occupied(), arity[..]);
        if !occupied[neighbor, v] {
          MarkOne(occ, ar, ms, v, Occupied(), arity[..], neighbor);
          SetOccupied(neighbor, v, true);
          arity[neighbor] := arity[neighbor] - 1;
          modified[nmodified] := neighbor;
          nmodified := nmodified + 1;
          assert modified[..nmodified] == ms + [neighbor];
        }
      }
      TouchedAll(occ, cell, row, v, modified[..nmodified]);
    }

    /** Takes the marks back, in the order they were made. */
    method UnmarkNeighbors(v: nat, modified: array<nat>, nmodified: nat, ghost occ: seq<seq<bool>>, ghost ar: seq<int>)
      requires Valid() && v < 10 && nmodified <= modified.Length && modified as object != arity as object
      requires CacheShape(occ, ar) && NoDup(modified[..nmodified])
      requires forall c :: c in modified[..nmodified] ==> c < CELLS && !occ[c][v]
      requires Marked(occ, ar, modified[..nmodified], v, Occupied(), arity[..])
      modifies occupied, arity
      ensures Occupied() == occ && arity[..] == ar
    {
      hide Marked, Occupied;
      for i := 0 to nmodified
        invariant Marked(occ, ar, modified[i..nmodified], v, Occupied(), arity[..])
      {
        var neighbor := modified[i];
        ghost var ms := modified[i..nmodified];
        assert ms[1..] == modified[i + 1..nmodified];
        assert ms[0] in modified[..nmodified];
        UnmarkOne(occ, ar, ms, v, Occupied(), arity[..]);
        SetOccupied(neighbor, v, false);
        arity[neighbor] := arity[neighbor] + 1;
      }
      assert modified[nmodified..nmodified] == [];
      UnmarkedAll(occ, ar, v, Occupied(), arity[..]);
    }

    /** init_cache: afterwards the cache is right for the board. */
    method InitCache()
      requires Valid() && TableBuilt() && IsClues(board[..])
      modifies occupied, arity
      ensures CacheRight()
    {
      hide Peers, Marked, CacheBelow, CacheOk, Touches, ListsNeighbors, NeighborRow;
      forall c: nat, v: nat | c < CELLS && v <= NUM {
        occupied[c, v] := false;
      }
      forall c | 0 <= c < CELLS {
        arity[c] := NUM;
      }
      ghost var b := board[..];
      CacheStarts(b, Occupied(), arity[..]);
      var modified := new nat[NEIGHBOR];
      for cell := 0 to CELLS
        invariant board[..] == b && CacheBelow(b, Occupied(), arity[..], cell)
      {
        InitCell(cell, modified);
      }
      CacheComplete(b, Occupied(), arity[..]);
    }

    method InitCell(cell: nat, modified: array<nat>)
      requires Valid() && TableBuilt() && cell < CELLS && IsClues(board[..])
      requires CacheBelow(board[..], Occupied(), arity[..], cell)
      requires modified.Length == NEIGHBOR && modified as object !in {arity as object, board as object}
      modifies occupied, arity, modified
      ensures CacheBelow(board[..], Occupied(), arity[..], cell + 1)
    {
      hide Peers, Marked, CacheOk, Touches, ListsNeighbors, NeighborRow, RowBelow;
      ghost var b := board[..];
      ZeroIsIgnored(b, Occupied(), arity[..], cell);
      SetOccupied(cell, 0, true);
      var val := board[cell];
      if val > 0 {
        ghost var occ, ar := Occupied(), arity[..];
        SetOccupied(cell, val, true);
        TouchesOthers(occ, cell, val);
        var nmodified := MarkNeighbors(cell, val, modified);
        CacheMarks(b, occ, ar, cell, val, modified[..nmodified], Occupied(), arity[..]);
      } else {
        CacheSkips(b, Occupied(), arity[..], cell);
      }
    }

    /** find_min_arity of sudoku_min_arity_cache.cc: the same choice, read off the cache. */
    method FindMinArityCached(space: nat)
      requires Valid() && Ready(space) && CacheRight() && space < nspaces
      modifies spaces
      ensures Ready(space) && Reordered(old(spaces[..]), spaces[..], space, nspaces)
      ensures LeastFirst(board[..], spaces[..], space, nspaces) && spaces[space] < CELLS
    {
      hide Peers, Arity, NeighborRow, Reordered, Pending, Occupied, RowOk, LeastFirst;
      ghost var b, s := board[..], spaces[..];
      PendingAreBlank(b, s, space, nspaces);
      var minSpace, minArity := space, arity[spaces[space]];
      var sp := space + 1;
      while sp < nspaces && minArity > 1
        invariant space < sp <= nspaces && space <= minSpace < sp && spaces[..] == s
        invariant minArity == Arity(b, s[minSpace], NUM)
        invariant forall i :: space <= i < sp ==> minArity <= Arity(b, s[i], NUM)
      {
        var curArity := arity[spaces[sp]];
        assert arity[..][s[sp]] == Arity(b, s[sp], NUM);
        if curArity < minArity {
          minArity, minSpace := curArity, sp;
        }
        sp := sp + 1;
      }
      SwapSpaces(space, minSpace);
      PendingReordered(b, s, spaces[..], space, nspaces);
      SwapPutsLeastFirst(b, s, space, minSpace, nspaces);
      PendingAreBlank(b, spaces[..], space, nspaces);
    }

    /**
     solve_sudoku_min_arity_cache: the cache is right at every call, and a search that fails
     restores the board and the cache exactly.
     */
    method SolveCached(which: nat) returns (found: bool)
      requires Valid() && TableBuilt() && Ready(which) && CacheRight()
      modifies board, spaces, occupied, arity
      ensures found ==> IsFilling(old(board[..]), board[..])
      ensures !found ==> !Fillable(old(board[..])) && board[..] == old(board[..])
      ensures !found ==> Reordered(old(spaces[..]), spaces[..], which, nspaces)
      ensures !found ==> Occupied() == old(Occupied()) && arity[..] == old(arity[..])
      decreases nspaces - which, 1
    {
      hide Peers, IsFilling, Fillable, Available, ListsNeighbors, NeighborRow, LeastFirst, Reordered, Pending, Arity,
           Occupied, CacheOk;
      ghost var b, occ, ar := board[..], Occupied(), arity[..];
      if which >= nspaces {
        assert spaces[..][which..nspaces] == [];
        PendingNone(b);
        return true;
      }
      FindMinArityCached(which);
      var cell := spaces[which];
      for guess := 1 to NUM + 1
        invariant board[..] == b && Ready(which) && spaces[which] == cell
        invariant Occupied() == occ && arity[..] == ar
        invariant Reordered(old(spaces[..]), spaces[..], which, nspaces)
        invariant forall v :: 1 <= v < guess && Available(b, cell, v) ==> !Fillable(b[cell := v])
      {
        PendingAreBlank(b, spaces[..], which, nspaces);
        CacheTells(b, occ, ar, cell, guess);
        if !occupied[cell, guess] {
          ghost var before := spaces[..];
          var solvedRest := TryGuess(which, cell, guess);
          if solvedRest {
            PickFills(b, cell, guess, board[..]);
            return true;
          }
          ReorderedLess(old(spaces[..]), before, spaces[..], which, nspaces);
          PendingReordered(b, old(spaces[..]), spaces[..], which, nspaces);
        }
      }
      PendingAreBlank(b, spaces[..], which, nspaces);
      FillableStep(b, cell);
      return false;
    }

    /** Holds guess in cell, tries the remaining spaces, and takes everything back if that fails. */
    method TryGuess(which: nat, cell: nat, guess: nat) returns (found: bool)
      requires Valid() && TableBuilt() && Ready(which) && CacheRight() && which < nspaces && cell == spaces[which] < CELLS
      requires board[cell] == 0 && 1 <= guess <= NUM && !occupied[cell, guess]
      modifies board, spaces, occupied, arity
      ensures found ==> IsFilling(old(board[..])[cell := guess], board[..])
      ensures !found ==> !Fillable(old(board[..])[cell := guess]) && board[..] == old(board[..])
      ensures !found ==> Reordered(old(spaces[..]), spaces[..], which + 1, nspaces)
      ensures !found ==> Occupied() == old(Occupied()) && arity[..] == old(arity[..])
      decreases nspaces - which, 0
    {
      hide Peers, IsFilling, Fillable, Available, ListsNeighbors, NeighborRow, LeastFirst, Reordered, Pending, Arity,
           Occupied, CacheOk, Marked, Touches;
      ghost var b, occ, ar := board[..], Occupied(), arity[..];
      // the guess is taken away from the neighbours that still had it
      board[cell] := guess;
      SetOccupied(cell, guess, true);
      var modified := new nat[NEIGHBOR];
      TouchesOthers(occ, cell, guess);
      var nmodified := MarkNeighbors(cell, guess, modified);
      ghost var ms := modified[..nmodified];
      HoldKeepsCache(b, occ, ar, cell, guess, ms, Occupied(), arity[..]);
      assert board[..] == b[cell := guess];
      ghost var rest := spaces[..][which..nspaces];
      assert rest[1..] == spaces[..][which + 1..nspaces];
      PendingStep(b, rest, guess);
      found := SolveCached(which + 1);
      if found {
        return;
      }
      // no filling with this guess: the neighbours that lost it get it back
      UnholdCell(occ, ar, cell, guess, ms, Occupied(), arity[..]);
      SetOccupied(cell, guess, false);
      board[cell] := 0;
      assert board[..] == b;
      TouchedWereOpen(occ, cell, guess, ms);
      UnmarkNeighbors(guess, modified, nmodified, occ, ar);
    }

    // ---------- checking and driving ----------

    /** Counts one more occurrence of a value. */
    static method Tally(occurs: array<nat>, val: int, ghost vals: seq<int>, ghost k: nat)
      requires occurs.Length == NUM + 1 && k < |vals| && val == vals[k] && 1 <= val <= NUM && Tallied(occurs[..], vals[..k])
      modifies occurs
      ensures Tallied(occurs[..], vals[..k + 1])
    {
      assert vals[..k + 1] == vals[..k] + [val];
      assert multiset(vals[..k] + [val]) == multiset(vals[..k]) + multiset{val};
      occurs[val] := occurs[val] + 1;
    }

    /** solved: every row, column and box of a full board has every value exactly once. */
    method Solved() returns (ok: bool)
      requires Valid() && IsFull(board[..])
      ensures ok <==> NoClash(board[..])
    {
      hide UnitOf, CellIn, Tallied, NoClash, UnitSolved;
      ghost var b := board[..];
      for row := 0 to SIDE
        invariant forall u: nat {:trigger UnitSolved(b, 0, u)} :: u < row ==> UnitSolved(b, 0, u)
      {
        var good := LineSolved(0, row);
        if !good {
          ClashShows(b, 0, row);
          return false;
        }
      }
      for col := 0 to SIDE
        invariant forall u: nat {:trigger UnitSolved(b, 1, u)} :: u < col ==> UnitSolved(b, 1, u)
      {
        var good := LineSolved(1, col);
        if !good {
          ClashShows(b, 1, col);
          return false;
        }
      }
      var row, col := 0, 0;
      while row < SIDE
        invariant row % 3 == 0 && row <= SIDE
        invariant forall u: nat {:trigger UnitSolved(b, 2, u)} :: u < row ==> UnitSolved(b, 2, u)
        decreases SIDE - row
      {
        col := 0;
        while col < SIDE
          invariant col % 3 == 0 && col <= SIDE
          invariant forall u: nat {:trigger UnitSolved(b, 2, u)} :: u < row + col / 3 ==> UnitSolved(b, 2, u)
          decreases SIDE - col
        {
          var good := BoxSolved(row, col);
          if !good {
            ClashShows(b, 2, row + col / 3);
            return false;
          }
          col := col + 3;
        }
        row := row + 3;
      }
      AllUnitsSolved(b);
      return true;
    }

    /** One round of the row loop (kind 0) or of the column loop (kind 1). */
    method LineSolved(kind: nat, u: nat) returns (good: bool)
      requires Valid() && IsFull(board[..]) && kind < 2 && u < SIDE
      ensures good <==> UnitSolved(board[..], kind, u)
    {
      hide Tallied, NoDup;
      ghost var vals := UnitValues(board[..], kind, u);
      var occurs := new nat[NUM + 1](v => 0);
      TallyNone(occurs[..]);
      for k := 0 to SIDE
        invariant Tallied(occurs[..], vals[..k])
      {
        var cell := if kind == 0 then u * 9 + k else k * 9 + u;
        var val := board[cell];
        assert board[..][cell] == val == vals[k];
        Tally(occurs, val, vals, k);
      }
      assert vals[..SIDE] == vals;
      TallyDecides(occurs[..], vals);
      good := Ones(occurs[..], NUM + 1) == NUM;
    }

    /** The box whose upper left cell is (row, col). */
    method BoxSolved(row: nat, col: nat) returns (good: bool)
      requires Valid() && IsFull(board[..]) && row < SIDE && col < SIDE && row % 3 == 0 && col % 3 == 0
      ensures good <==> UnitSolved(board[..], 2, row + col / 3)
    {
      hide Tallied, NoDup, UnitValues, CellIn;
      ghost var b := board[..];
      ghost var vals := UnitValues(b, 2, row + col / 3);
      BoxValues(b, row, col);
      var occurs := new nat[NUM + 1](v => 0);
      TallyNone(occurs[..]);
      Tally(occurs, board[row * 9 + col], vals, 0);
      Tally(occurs, board[row * 9 + col + 1], vals, 1);
      Tally(occurs, board[row * 9 + col + 2], vals, 2);
      Tally(occurs, board[(row + 1) * 9 + col], vals, 3);
      Tally(occurs, board[(row + 1) * 9 + col + 1], vals, 4);
      Tally(occurs, board[(row + 1) * 9 + col + 2], vals, 5);
      Tally(occurs, board[(row + 2) * 9 + col], vals, 6);
      Tally(occurs, board[(row + 2) * 9 + col + 1], vals, 7);
      Tally(occurs, board[(row + 2) * 9 + col + 2], vals, 8);
      assert vals[..SIDE] == vals;
      TallyDecides(occurs[..], vals);
      good := Ones(occurs[..], NUM + 1) == NUM;
    }

    /**
     One puzzle as main.cc handles it, with any of the three solvers. All give the same
     verdict; a board that is found passes solved exactly when the clues were consistent.
     */
    method SolvePuzzle(text: string, mode: Mode) returns (found: bool, ok: bool)
      requires Valid() && TableBuilt()
      requires HasDigits(text)
      modifies this`nspaces, board, spaces, occupied, arity
      ensures Valid() && TableBuilt()
      ensures found <==> Fillable(Clues(text))
      ensures found ==> IsFilling(Clues(text), board[..]) && (ok <==> ConsistentClues(Clues(text)))
      ensures !found ==> board[..] == Clues(text)
      ensures ConsistentClues(Clues(text)) ==>
                (found <==> exists f :: IsCompletion(Clues(text), f)) && (found ==> IsCompletion(Clues(text), board[..]))
    {
      hide Peers, IsFilling, NoClash, ConsistentClues, Pending, CacheOk, Occupied, IsCompletion,
           NeighborRow, ListsNeighbors;
      Input(text);
      assert board[..] == Clues(text);
      assert spaces[..][0..nspaces] == spaces[..nspaces];
      InitCache();
      if mode == Basic {
        found := SolveBasic(0);
      } else if mode == MinArity {
        found := SolveMinArity(0);
      } else {
        found := SolveCached(0);
      }
      ok := false;
      FillableIsCompletable(Clues(text));
      if found {
        FillingIsFull(Clues(text), board[..]);
        ok := Solved();
        FillingIsCompletion(Clues(text), board[..]);
        FillingPasses(Clues(text), board[..]);
      }
    }

    /** Any two modes agree on the verdict, and on the board when there is only one filling. */
    method SolveTwice(text: string, mode: Mode, mode': Mode) returns (found: bool, b: Board, found': bool, b': Board)
      requires Valid() && TableBuilt() && HasDigits(text)
      modifies this`nspaces, board, spaces, occupied, arity
      ensures Valid() && TableBuilt() && found == found'
      ensures (forall f, g :: IsFilling(Clues(text), f) && IsFilling(Clues(text), g) ==> f == g) ==> b == b'
    {
      hide IsFilling, Fillable, ConsistentClues, IsCompletion;
      var ok;
      found, ok := SolvePuzzle(text, mode);
      b := board[..];
      found', ok := SolvePuzzle(text, mode');
      b' := board[..];
    }
  }

  datatype Mode = Basic | MinArity | MinArityCache

  /** The final check can fail: a board of equal digits is its own filling. */
  lemma EqualCluesFail(text: string)
    requires |text| == CELLS && forall i :: 0 <= i < CELLS ==> text[i] == '1'
    ensures IsClues(Clues(text)) && Fillable(Clues(text)) && !ConsistentClues(Clues(text))
  {
    hide NoClash, IsFilling;
    FullIsFilled(Clues(text));
    assert Peers(0, 1);
  }

  lemma FillingIsFull(b: Board, f: Board)
    requires IsClues(b) && IsFilling(b, f)
    ensures IsFull(f)
  {
    hide Peers;
  }

  /** A filling has no clash exactly when the clues it fills have none. */
  lemma FillingPasses(b: Board, f: Board)
    requires IsClues(b) && IsFilling(b, f)
    ensures NoClash(f) <==> ConsistentClues(b)
  {
    hide Peers;
    FillingIsCompletion(b, f);
  }

  lemma FillableIsCompletable(b: Board)
    requires IsClues(b)
    ensures ConsistentClues(b) ==> (Fillable(b) <==> exists f :: IsCompletion(b, f))
  {
    hide IsFilling, ConsistentClues, IsCompletion;
    if ConsistentClues(b) {
      if Fillable(b) {
        var f :| IsFilling(b, f);
        FillingIsCompletion(b, f);
      }
      if f :| IsCompletion(b, f) {
        FillingIsCompletion(b, f);
      }
    }
  }

  // ---------- solved ----------

  /** occurs[v] is how often v occurs in vals. */
  ghost predicate Tallied(occurs: seq<nat>, vals: seq<int>)
  {
    |occurs| == NUM + 1 && forall v :: 0 <= v <= NUM ==> occurs[v] == multiset(vals)[v]
  }

  /** How many of the first n entries are one. */
  function Ones(occurs: seq<nat>, n: nat): (k: nat)
    requires n <= |occurs|
    ensures k <= n
  {
    if n == 0 then 0 else Ones(occurs, n - 1) + if occurs[n - 1] == 1 then 1 else 0
  }

  lemma {:induction false} OnesAreAll(occurs: seq<nat>, n: nat)
    requires 1 <= n <= |occurs| && occurs[0] == 0
    ensures Ones(occurs, n) < n
    ensures Ones(occurs, n) == n - 1 <==> forall v :: 1 <= v < n ==> occurs[v] == 1
  {
    if n > 1 {
      OnesAreAll(occurs, n - 1);
    }
  }

  lemma TallyNone(occurs: seq<nat>)
    requires |occurs| == NUM + 1 && forall v :: 0 <= v <= NUM ==> occurs[v] == 0
    ensures Tallied(occurs, [])
  {
  }

  /** Nine values are pairwise different exactly when all nine counts are one. */
  lemma TallyDecides(occurs: seq<nat>, vals: seq<int>)
    requires Tallied(occurs, vals) && |vals| == NUM && forall k :: 0 <= k < |vals| ==> 1 <= vals[k] <= NUM
    ensures Ones(occurs, NUM + 1) == NUM <==> NoDup(vals)
  {
    assert multiset(vals)[0] == 0;
    OnesAreAll(occurs, NUM + 1);
    Pigeonhole(vals);
    forall v | 1 <= v <= NUM
      ensures v in vals <==> occurs[v] > 0
    {
      assert v in vals <==> v in multiset(vals);
    }
    if NoDup(vals) {
      forall v | 1 <= v <= NUM
        ensures occurs[v] == 1
      {
        OccursOnce(vals, v);
      }
    }
  }

  lemma {:induction false} OccursOnce(vals: seq<int>, v: int)
    requires NoDup(vals)
    ensures multiset(vals)[v] <= 1
  {
    if vals != [] {
      OccursOnce(vals[1..], v);
      assert vals == [vals[0]] + vals[1..];
      assert v == vals[0] ==> v !in vals[1..];
    }
  }

  ghost predicate UnitSolved(b: Board, kind: nat, u: nat)
    requires |b| == CELLS && u < SIDE
  {
    NoDup(UnitValues(b, kind, u))
  }

  lemma BoxCell(row: nat, col: nat, k: nat)
    requires row < SIDE && col < SIDE && row % 3 == 0 && col % 3 == 0 && k < SIDE
    ensures row + col / 3 < SIDE && CellIn(2, row + col / 3, k) == (row + k / 3) * 9 + col + k % 3
  {
    Digits(3, row / 3, col / 3);
  }

  /** The values of a box, three rows of three. */
  lemma BoxValues(b: Board, row: nat, col: nat)
    requires IsFull(b) && row < SIDE && col < SIDE && row % 3 == 0 && col % 3 == 0
    ensures row + 2 < SIDE && col + 2 < SIDE && row + col / 3 < SIDE
    ensures var vals := UnitValues(b, 2, row + col / 3);
            && |vals| == SIDE && (forall k :: 0 <= k < SIDE ==> 1 <= vals[k] <= NUM)
            && vals[0] == b[row * 9 + col] && vals[1] == b[row * 9 + col + 1] && vals[2] == b[row * 9 + col + 2]
            && vals[3] == b[(row + 1) * 9 + col] && vals[4] == b[(row + 1) * 9 + col + 1]
            && vals[5] == b[(row + 1) * 9 + col + 2] && vals[6] == b[(row + 2) * 9 + col]
            && vals[7] == b[(row + 2) * 9 + col + 1] && vals[8] == b[(row + 2) * 9 + col + 2]
  {
    hide CellIn;
    BoxCell(row, col, 0);
    BoxCell(row, col, 1);
    BoxCell(row, col, 2);
    BoxCell(row, col, 3);
    BoxCell(row, col, 4);
    BoxCell(row, col, 5);
    BoxCell(row, col, 6);
    BoxCell(row, col, 7);
    BoxCell(row, col, 8);
  }

  lemma ClashShows(b: Board, kind: nat, u: nat)
    requires IsFull(b) && kind < KINDS && u < SIDE && !UnitSolved(b, kind, u)
    ensures !NoClash(b)
  {
    hide UnitOf, CellIn, Peers, NoClash;
    var vals := UnitValues(b, kind, u);
    Pigeonhole(vals);
    if NoClash(b) {
      forall v | 1 <= v <= 9
        ensures v in vals
      {
        CompletionHasValue(b, kind, u, v);
        ValueInUnit(b, kind, u, v);
      }
    }
  }

  lemma AllUnitsSolved(b: Board)
    requires IsFull(b)
    requires forall kind: nat, u: nat {:trigger UnitSolved(b, kind, u)} :: kind < KINDS && u < SIDE ==>
               UnitSolved(b, kind, u)
    ensures NoClash(b)
  {
    hide UnitOf, CellIn, Peers, NoClash;
    forall kind: nat, u: nat, v | kind < KINDS && u < SIDE && 1 <= v <= 9
      ensures HasValue(b, kind, u, v)
    {
      assert UnitSolved(b, kind, u);
      Pigeonhole(UnitValues(b, kind, u));
      ValueInUnit(b, kind, u, v);
    }
    ValuesExcludeClash(b);
  }

  /** The first of the spaces from k on has a least arity among them, or one of at most 1. */
  ghost predicate LeastFirst(b: Board, s: seq<nat>, k: nat, n: nat)
    requires |b| == CELLS && k < n <= |s|
  {
    && (forall i :: k <= i < n ==> s[i] < CELLS)
    && (Arity(b, s[k], NUM) <= 1 || forall i :: k <= i < n ==> Arity(b, s[k], NUM) <= Arity(b, s[i], NUM))
  }

  lemma SwapPutsLeastFirst(b: Board, s: seq<nat>, k: nat, m: nat, n: nat)
    requires |b| == CELLS && k <= m < n <= |s| && forall i :: k <= i < n ==> s[i] < CELLS
    requires Arity(b, s[m], NUM) <= 1 || forall i :: k <= i < n ==> Arity(b, s[m], NUM) <= Arity(b, s[i], NUM)
    ensures LeastFirst(b, s[k := s[m]][m := s[k]], k, n)
  {
    hide Arity;
    var t := s[k := s[m]][m := s[k]];
    forall i | k <= i < n
      ensures t[i] < CELLS && (Arity(b, s[m], NUM) <= 1 || Arity(b, s[m], NUM) <= Arity(b, t[i], NUM))
    {
      assert t[i] == s[if i == k then m else if i == m then k else i];
    }
  }

  /** In increasing order, all below limit. */
  ghost predicate Ascending(s: seq<nat>, limit: nat)
  {
    (forall i, j :: 0 <= i < j < |s| ==> s[i] < s[j]) && forall i :: 0 <= i < |s| ==> s[i] < limit
  }

  lemma AscendingMore(s: seq<nat>, limit: nat)
    requires Ascending(s, limit)
    ensures Ascending(s, limit + 1) && Ascending(s + [limit], limit + 1)
  {
  }

  lemma SpacesStart(b: Board)
    requires |b| == CELLS
    ensures PendingBelow(b, multiset([]), 0) && Ascending([], 0)
  {
  }

  lemma PendingEnds(b: Board, m: multiset<nat>)
    requires |b| == CELLS && PendingBelow(b, m, CELLS)
    ensures Pending(b, m)
  {
  }

  /** Of the first n entries of row, ms holds those where v was not occupied. */
  ghost predicate TouchedUpTo(occ: seq<seq<bool>>, row: seq<nat>, v: nat, ms: seq<nat>, n: nat)
    requires v < 10 && |occ| == CELLS && (forall c :: 0 <= c < CELLS ==> |occ[c]| == 10)
  {
    && n <= |row| && NoDup(ms)
    && forall c: nat {:trigger c in ms} :: c in ms <==> c in row[..n] && c < CELLS && !occ[c][v]
  }

  lemma TouchedNone(occ: seq<seq<bool>>, row: seq<nat>, v: nat)
    requires v < 10 && |occ| == CELLS && forall c :: 0 <= c < CELLS ==> |occ[c]| == 10
    ensures TouchedUpTo(occ, row, v, [], 0)
  {
  }

  lemma TouchedAll(occ: seq<seq<bool>>, cell: nat, row: seq<nat>, v: nat, ms: seq<nat>)
    requires v < 10 && |occ| == CELLS && (forall c :: 0 <= c < CELLS ==> |occ[c]| == 10) && cell < CELLS
    requires ListsNeighbors(cell, row) && TouchedUpTo(occ, row, v, ms, |row|)
    ensures Touches(occ, cell, v, ms)
  {
    hide Peers, NoDup;
    assert row[..|row|] == row;
  }

  lemma MarkNone(occ: seq<seq<bool>>, ar: seq<int>, v: nat)
    requires CacheShape(occ, ar) && v < 10
    ensures Marked(occ, ar, [], v, occ, ar)
  {
  }

  /** Whether a neighbour is still unmarked can be read off the tables as they stand. */
  lemma TouchMore(occ: seq<seq<bool>>, ar: seq<int>, row: seq<nat>, v: nat, ms: seq<nat>, n: nat,
                  occ': seq<seq<bool>>, ar': seq<int>)
    requires CacheShape(occ, ar) && v < 10 && n < |row| && TouchedUpTo(occ, row, v, ms, n)
    requires (forall i, j :: 0 <= i < j < |row| ==> row[i] < row[j]) && row[n] < CELLS
    requires Marked(occ, ar, ms, v, occ', ar')
    ensures row[n] !in ms && CacheShape(occ', ar') && (occ'[row[n]][v] <==> occ[row[n]][v])
    ensures TouchedUpTo(occ, row, v, if occ[row[n]][v] then ms else ms + [row[n]], n + 1)
  {
    assert row[..n + 1] == row[..n] + [row[n]];
    assert row[n] !in row[..n];
    assert occ'[row[n]] == occ[row[n]];
    var ms' := if occ[row[n]][v] then ms else ms + [row[n]];
    forall c: nat
      ensures c in ms' <==> c in row[..n + 1] && c < CELLS && !occ[c][v]
    {
      assert c in ms' <==> c in ms || (c == row[n] && !occ[c][v]);
    }
  }

  /** The cell itself is not among those a guess touches. */
  lemma TouchesOthers(occ: seq<seq<bool>>, cell: nat, v: nat)
    requires |occ| == CELLS && cell < CELLS && v < 10 && forall c :: 0 <= c < CELLS ==> |occ[c]| == 10
    ensures forall ms {:trigger Touches(occ, cell, v, ms)} ::
              Touches(occ[cell := occ[cell][v := true]], cell, v, ms) <==> Touches(occ, cell, v, ms)
  {
    assert !Peers(cell, cell);
    hide Peers, NoDup;
    var occ' := occ[cell := occ[cell][v := true]];
    forall c: nat | c < CELLS && Peers(cell, c)
      ensures occ'[c][v] == occ[c][v]
    {
    }
  }

  lemma TouchedWereOpen(occ: seq<seq<bool>>, cell: nat, v: nat, ms: seq<nat>)
    requires |occ| == CELLS && cell < CELLS && v < 10 && forall c :: 0 <= c < CELLS ==> |occ[c]| == 10
    requires Touches(occ, cell, v, ms)
    ensures NoDup(ms) && forall c :: c in ms ==> c < CELLS && !occ[c][v]
  {
    hide Peers;
  }

  lemma CacheTells(b: Board, occ: seq<seq<bool>>, ar: seq<int>, cell: nat, v: nat)
    requires |b| == CELLS && CacheOk(b, occ, ar) && cell < CELLS && b[cell] == 0 && 1 <= v <= 9
    ensures |occ| == CELLS && |occ[cell]| == 10 && (occ[cell][v] <==> !Available(b, cell, v))
  {
    hide Available, Arity;
    assert RowOk(b, cell, occ[cell]);
  }

  /** listed holds, in order, the neighbours of cell below limit. */
  ghost predicate ListedUpTo(cell: nat, listed: seq<nat>, limit: nat)
    requires cell < CELLS
  {
    && (forall i, j :: 0 <= i < j < |listed| ==> listed[i] < listed[j])
    && (forall j: nat {:trigger j in listed} :: j in listed <==> j < CELLS && j < limit && Peers(cell, j))
  }

  lemma ListMore(cell: nat, listed: seq<nat>, limit: nat)
    requires cell < CELLS && limit < CELLS && ListedUpTo(cell, listed, limit)
    ensures !Peers(cell, limit) ==> ListedUpTo(cell, listed, limit + 1)
    ensures Peers(cell, limit) ==> |listed| < NEIGHBOR && ListedUpTo(cell, listed + [limit], limit + 1)
  {
    hide Peers;
    if Peers(cell, limit) {
      var more := listed + [limit];
      forall i, j | 0 <= i < j < |more|
        ensures more[i] < more[j]
      {
        assert more[i] in listed;
      }
      forall j: nat
        ensures j in more <==> j < CELLS && j < limit + 1 && Peers(cell, j)
      {
        assert j in more <==> j in listed || j == limit;
      }
      AtMostTwenty(cell, more);
    }
  }

  lemma ListComplete(cell: nat, listed: seq<nat>)
    requires cell < CELLS && ListedUpTo(cell, listed, CELLS)
    ensures ListsNeighbors(cell, listed)
  {
    hide Peers;
    AtMostTwenty(cell, listed);
  }
}
