/** The twenty neighbours of a cell (Lab1/src/Resource/neighbor.cc). */
module Neighbors {
  import opened Cycles
  import opened Sudoku

  const NEIGHBOR: nat := 20

  /** What mark_adjacent marks: the row, the column and the box of (row, col). */
  predicate Adjacent(row: nat, col: nat, y: nat, x: nat)
  {
    y == row || x == col || (y / 3 == row / 3 && x / 3 == col / 3)
  }

  lemma AdjacentArePeers(row: nat, col: nat, y: nat, x: nat)
    requires row < SIDE && col < SIDE && y < SIDE && x < SIDE
    ensures y * 9 + x < CELLS && row * 9 + col < CELLS
    ensures Adjacent(row, col, y, x) && !(y == row && x == col) <==> Peers(row * 9 + col, y * 9 + x)
  {
    Digits(9, row, col);
    Digits(9, y, x);
    Digits(3, row / 3, col / 3);
    Digits(3, y / 3, x / 3);
  }

  /** s lists the neighbours of cell, each once and in increasing order. */
  ghost predicate ListsNeighbors(cell: nat, s: seq<nat>)
    requires cell < CELLS
  {
    && |s| == NEIGHBOR
    && (forall i, j :: 0 <= i < j < |s| ==> s[i] < s[j])
    && (forall j: nat {:trigger j in s} :: j in s <==> j < CELLS && Peers(cell, j))
  }

  // ---------- there are twenty of them ----------

  /** The i-th of the eight numbers below nine other than n. */
  function Other(i: nat, n: nat): (k: nat)
    ensures k != n && (i < 8 && n < 9 ==> k < 9)
  {
    if i < n then i else i + 1
  }

  /** The other two numbers in n's group of three. */
  function Turn(n: nat, a: nat): (k: nat)
    requires n < SIDE && a < 2
    ensures k < SIDE && k / 3 == n / 3 && k != n
  {
    n / 3 * 3 + (n % 3 + 1 + a) % 3
  }

  function TurnOf(n: nat, k: nat): (a: nat)
    requires n < SIDE && k < SIDE && k / 3 == n / 3 && k != n
    ensures a < 2 && Turn(n, a) == k
  {
    if k % 3 == (n % 3 + 1) % 3 then 0 else 1
  }

  lemma TurnsDiffer(n: nat)
    requires n < SIDE
    ensures Turn(n, 0) != Turn(n, 1)
  {
  }

  function PeerRow(row: nat, col: nat, i: nat): (y: nat)
    requires row < SIDE && col < SIDE && i < NEIGHBOR
    ensures y < SIDE
  {
    if i < 8 then row else if i < 16 then Other(i - 8, row) else Turn(row, (i - 16) / 2)
  }

  function PeerCol(row: nat, col: nat, i: nat): (x: nat)
    requires row < SIDE && col < SIDE && i < NEIGHBOR
    ensures x < SIDE
  {
    if i < 8 then Other(i, col) else if i < 16 then col else Turn(col, (i - 16) % 2)
  }

  lemma PeersDiffer(row: nat, col: nat, i: nat, j: nat)
    requires row < SIDE && col < SIDE && i < j < NEIGHBOR
    ensures PeerRow(row, col, i) != PeerRow(row, col, j) || PeerCol(row, col, i) != PeerCol(row, col, j)
  {
    hide Turn;
    TurnsDiffer(row);
    TurnsDiffer(col);
  }

  lemma PeerIsAdjacent(row: nat, col: nat, i: nat)
    requires row < SIDE && col < SIDE && i < NEIGHBOR
    ensures Adjacent(row, col, PeerRow(row, col, i), PeerCol(row, col, i))
    ensures !(PeerRow(row, col, i) == row && PeerCol(row, col, i) == col)
  {
    hide Turn;
  }

  function PeerIndex(row: nat, col: nat, y: nat, x: nat): (i: nat)
    requires row < SIDE && col < SIDE && y < SIDE && x < SIDE
    requires Adjacent(row, col, y, x) && !(y == row && x == col)
    ensures i < NEIGHBOR
  {
    if y == row then (if x < col then x else x - 1)
    else if x == col then 8 + (if y < row then y else y - 1)
    else 16 + TurnOf(row, y) * 2 + TurnOf(col, x)
  }

  lemma PeerIndexFinds(row: nat, col: nat, y: nat, x: nat)
    requires row < SIDE && col < SIDE && y < SIDE && x < SIDE
    requires Adjacent(row, col, y, x) && !(y == row && x == col)
    ensures PeerRow(row, col, PeerIndex(row, col, y, x)) == y && PeerCol(row, col, PeerIndex(row, col, y, x)) == x
  {
    hide Turn, TurnOf;
  }

  ghost function PeerList(cell: nat): (s: seq<nat>)
    requires cell < CELLS
    ensures |s| == NEIGHBOR
  {
    seq(NEIGHBOR, i requires 0 <= i < NEIGHBOR =>
      PeerRow(cell / 9, cell % 9, i) * 9 + PeerCol(cell / 9, cell % 9, i))
  }

  /** PeerList lists the neighbours, each once. */
  lemma PeerListLists(cell: nat)
    requires cell < CELLS
    ensures NoDup(PeerList(cell))
    ensures forall j: nat {:trigger j in PeerList(cell)} :: j in PeerList(cell) <==> j < CELLS && Peers(cell, j)
  {
    hide PeerRow, PeerCol, Peers, Adjacent, PeerIndex;
    var s, row, col := PeerList(cell), cell / 9, cell % 9;
    forall i: nat, j: nat | i < j < NEIGHBOR
      ensures s[i] != s[j]
    {
      PeersDiffer(row, col, i, j);
      Digits(9, PeerRow(row, col, i), PeerCol(row, col, i));
      Digits(9, PeerRow(row, col, j), PeerCol(row, col, j));
    }
    forall i: nat | i < NEIGHBOR
      ensures s[i] < CELLS && Peers(cell, s[i])
    {
      PeerIsAdjacent(row, col, i);
      AdjacentArePeers(row, col, PeerRow(row, col, i), PeerCol(row, col, i));
    }
    forall j: nat | j < CELLS && Peers(cell, j)
      ensures j in s
    {
      AdjacentArePeers(row, col, j / 9, j % 9);
      PeerIndexFinds(row, col, j / 9, j % 9);
      assert s[PeerIndex(row, col, j / 9, j % 9)] == j;
    }
  }

  /** A list of neighbours without repetition has at most twenty entries, and exactly twenty when it has them all. */
  lemma AtMostTwenty(cell: nat, s: seq<nat>)
    requires cell < CELLS && NoDup(s) && forall j :: j in s ==> j < CELLS && Peers(cell, j)
    ensures |s| <= NEIGHBOR
    ensures (forall j: nat {:trigger Peers(cell, j)} :: j < CELLS && Peers(cell, j) ==> j in s) ==> |s| == NEIGHBOR
  {
    hide Peers;
    PeerListLists(cell);
    CountElements(s);
    CountElements(PeerList(cell));
    assert Elements(s) <= Elements(PeerList(cell));
    SubsetIsSmaller(Elements(s), Elements(PeerList(cell)));
    if forall j: nat {:trigger Peers(cell, j)} :: j < CELLS && Peers(cell, j) ==> j in s {
      assert Elements(s) == Elements(PeerList(cell));
    }
  }
}
