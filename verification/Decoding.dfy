/** From rows of the matrix to cells of the board: the decoding at the leaf of solve. */
module Decoding {
  import opened LinkedMatrix
  import opened Sudoku

  // ---------- reading a row off its names ----------

  ghost function Names(f: Shape, x: nat): seq<nat>
    requires x in f.ring
  {
    seq(|f.ring[x]|, i requires 0 <= i < |f.ring[x]| =>
      if f.ring[x][i] in f.name then f.name[f.ring[x][i]] else 0)
  }

  /** The scan of one row: names below 100 give the cell, the others the value. */
  function Scan(names: seq<nat>, cell: int, val: int): (int, int)
  {
    if names == [] || (cell != -1 && val != -1) then (cell, val)
    else if names[0] < 100 then Scan(names[1..], names[0], val)
    else Scan(names[1..], cell, names[0] % 10)
  }

  /** Every row names a board cell and a value. */
  ghost predicate Decodable(f: Shape)
  {
    forall x {:trigger Names(f, x)} :: x in f.ring ==> RowDecodable(Names(f, x))
  }

  ghost predicate RowDecodable(names: seq<nat>)
  {
    && (exists i :: 0 <= i < |names| && names[i] < 100)
    && (exists i :: 0 <= i < |names| && names[i] >= 100)
    && (forall i :: 0 <= i < |names| && names[i] < 100 ==> names[i] < CELLS)
  }

  ghost predicate ScanDone(names: seq<nat>, cell: int, val: int)
  {
    && (cell == -1 ==> exists i :: 0 <= i < |names| && names[i] < 100)
    && (val == -1 ==> exists i :: 0 <= i < |names| && names[i] >= 100)
    && (forall i :: 0 <= i < |names| && names[i] < 100 ==> names[i] < CELLS)
    && -1 <= cell < CELLS && -1 <= val < 10
  }

  lemma {:induction false} ScanFinds(names: seq<nat>, cell: int, val: int)
    requires ScanDone(names, cell, val)
    ensures var (c, v) := Scan(names, cell, val); 0 <= c < CELLS && 0 <= v < 10
  {
    if names != [] && (cell == -1 || val == -1) {
      var rest := names[1..];
      assert names == [names[0]] + rest;
      forall i | 1 <= i < |names|
        ensures names[i] == rest[i - 1]
      {
      }
      if names[0] < 100 {
        assert ScanDone(rest, names[0], val);
        ScanFinds(rest, names[0], val);
      } else {
        assert ScanDone(rest, cell, names[0] % 10);
        ScanFinds(rest, cell, names[0] % 10);
      }
    }
  }

  /** The board after the rows sel have been written, in order. */
  ghost function WriteRows(f: Shape, board: seq<int>, sel: seq<nat>): (r: seq<int>)
    requires Decodable(f) && |board| == CELLS && forall i :: 0 <= i < |sel| ==> sel[i] in f.ring
    ensures |r| == CELLS
  {
    if sel == [] then board
    else
      var (c, v) := Decoded(f, sel[|sel| - 1]);
      WriteRows(f, board, sel[..|sel| - 1])[c := v]
  }

  ghost function Decoded(f: Shape, x: nat): (r: (int, int))
    requires Decodable(f) && x in f.ring
    ensures 0 <= r.0 < CELLS && 0 <= r.1 < 10
  {
    ScanFinds(Names(f, x), -1, -1);
    Scan(Names(f, x), -1, -1)
  }

  lemma WriteRowsEnds(f: Shape, board: seq<int>)
    requires Decodable(f) && |board| == CELLS
    ensures WriteRows(f, board, []) == board
  {
  }

  lemma WriteRowsNext(f: Shape, board: seq<int>, sel: seq<nat>, i: nat)
    requires Decodable(f) && |board| == CELLS && i < |sel|
    requires forall i :: 0 <= i < |sel| ==> sel[i] in f.ring
    ensures 0 <= Scan(Names(f, sel[i]), -1, -1).0 < CELLS
    ensures WriteRows(f, board, sel[..i + 1]) ==
            WriteRows(f, board, sel[..i])[Scan(Names(f, sel[i]), -1, -1).0 := Scan(Names(f, sel[i]), -1, -1).1]
  {
    assert sel[..i + 1][..i] == sel[..i];
    assert Decoded(f, sel[i]) == Scan(Names(f, sel[i]), -1, -1);
  }

  lemma ScanStarts(f: Shape, s: State, x: nat)
    requires Inv(f, s) && Decodable(f) && x in f.ring
    ensures |f.ring[x]| == |Names(f, x)| > 0 && f.ring[x][0] == x && Names(f, x)[0..] == Names(f, x)
    ensures Linked(f, s)
    ensures ScanDone(Names(f, x), -1, -1)
  {
    assert RowOk(f, x);
    assert RowDecodable(Names(f, x));
  }

  lemma ReadName(f: Shape, x: nat, t: nat)
    requires x in f.ring && t < |f.ring[x]| && f.ring[x][t] in f.name
    ensures t < |Names(f, x)| && Names(f, x)[t] == f.name[f.ring[x][t]]
  {
  }

  lemma ScanStep(names: seq<nat>, t: nat, cell: int, val: int)
    requires t <= |names| && ScanDone(names[t..], cell, val) && (cell == -1 || val == -1)
    ensures t < |names|
    ensures names[t] < 100 ==>
              && ScanDone(names[t + 1..], names[t], val)
              && Scan(names[t..], cell, val) == Scan(names[t + 1..], names[t], val)
    ensures names[t] >= 100 ==>
              && ScanDone(names[t + 1..], cell, names[t] % 10)
              && Scan(names[t..], cell, val) == Scan(names[t + 1..], cell, names[t] % 10)
  {
    var ns := names[t..];
    assert ns != [];
    assert ns[0] == names[t] && ns[1..] == names[t + 1..];
    assert forall i :: 1 <= i < |ns| ==> ns[i] == names[t + 1..][i - 1];
  }

  lemma ScanStops(names: seq<nat>, cell: int, val: int)
    requires cell != -1 && val != -1 && ScanDone(names, cell, val)
    ensures Scan(names, cell, val) == (cell, val) && 0 <= cell < CELLS && 0 <= val < 10
  {
  }
}
