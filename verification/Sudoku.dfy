/** Boards, units and completions: what every solver of Lab1 is asked for. */
module Sudoku {
  import opened Cycles

  const SIDE: nat := 9
  const CELLS: nat := 81

  type Board = seq<int>

  // ---------- units: rows (kind 0), columns (kind 1) and boxes (kind 2) ----------

  const KINDS: nat := 3

  function UnitOf(kind: nat, cell: nat): (u: nat)
    requires cell < CELLS
    ensures u < SIDE
  {
    if kind == 0 then cell / 9
    else if kind == 1 then cell % 9
    else cell / 9 / 3 * 3 + cell % 9 / 3
  }

  /** The k-th cell of a unit. */
  function CellIn(kind: nat, u: nat, k: nat): (cell: nat)
    requires u < SIDE && k < SIDE
    ensures cell < CELLS
  {
    if kind == 0 then u * 9 + k
    else if kind == 1 then k * 9 + u
    else (u / 3 * 3 + k / 3) * 9 + (u % 3 * 3 + k % 3)
  }

  function PlaceIn(kind: nat, cell: nat): (k: nat)
    requires cell < CELLS
    ensures k < SIDE
  {
    if kind == 0 then cell % 9
    else if kind == 1 then cell / 9
    else cell / 9 % 3 * 3 + cell % 9 % 3
  }

  /** The cells of a unit are exactly the cells CellIn lists, each listed once. */
  lemma UnitCells(kind: nat, u: nat, k: nat, cell: nat)
    requires u < SIDE && k < SIDE && cell < CELLS
    ensures UnitOf(kind, CellIn(kind, u, k)) == u && PlaceIn(kind, CellIn(kind, u, k)) == k
    ensures CellIn(kind, UnitOf(kind, cell), PlaceIn(kind, cell)) == cell
  {
    if kind == 0 {
      Digits(9, u, k);
    } else if kind == 1 {
      Digits(9, k, u);
    } else {
      BoxPlace(kind, u, k);
      BoxOfCell(kind, cell);
    }
  }

  lemma BoxPlace(kind: nat, u: nat, k: nat)
    requires kind > 1 && u < SIDE && k < SIDE
    ensures UnitOf(kind, CellIn(kind, u, k)) == u && PlaceIn(kind, CellIn(kind, u, k)) == k
  {
    var a, b, c, d := u / 3, u % 3, k / 3, k % 3;
    Digits(9, a * 3 + c, b * 3 + d);
    Digits(3, a, c);
    Digits(3, b, d);
  }

  lemma BoxOfCell(kind: nat, cell: nat)
    requires kind > 1 && cell < CELLS
    ensures CellIn(kind, UnitOf(kind, cell), PlaceIn(kind, cell)) == cell
  {
    var row, col := cell / 9, cell % 9;
    Digits(3, row / 3, col / 3);
    Digits(3, row % 3, col % 3);
  }

  lemma Digits(base: nat, high: nat, low: nat)
    requires (base == 3 || base == 9) && low < base
    ensures (high * base + low) / base == high && (high * base + low) % base == low
  {
  }

  /** Two different cells in a common row, column or box. */
  predicate Peers(i: nat, j: nat)
    requires i < CELLS && j < CELLS
  {
    i != j && (UnitOf(0, i) == UnitOf(0, j) || UnitOf(1, i) == UnitOf(1, j) || UnitOf(2, i) == UnitOf(2, j))
  }

  // ---------- completions ----------

  /** The board a puzzle text stands for. */
  function Clues(text: seq<char>): (b: Board)
    requires |text| >= CELLS
    ensures |b| == CELLS
  {
    seq(CELLS, i requires 0 <= i < CELLS => text[i] as int - '0' as int)
  }

  predicate HasDigits(text: seq<char>)
  {
    |text| >= CELLS && forall i :: 0 <= i < CELLS ==> '0' <= text[i] <= '9'
  }

  lemma CluesAreClues(text: seq<char>)
    requires HasDigits(text)
    ensures IsClues(Clues(text))
  {
  }

  /** The digits of result complete those of problem if that can be done; otherwise result is problem. */
  ghost predicate Solves(problem: seq<char>, result: seq<char>)
  {
    && |result| == |problem| >= CELLS && result[CELLS..] == problem[CELLS..]
    && ((exists b :: IsCompletion(Clues(problem), b)) ==> IsCompletion(Clues(problem), Clues(result)))
    && (!(exists b :: IsCompletion(Clues(problem), b)) ==> result == problem)
  }

  predicate IsClues(b: Board)
  {
    |b| == CELLS && forall i :: 0 <= i < CELLS ==> 0 <= b[i] <= 9
  }

  predicate IsFull(b: Board)
  {
    |b| == CELLS && forall i :: 0 <= i < CELLS ==> 1 <= b[i] <= 9
  }

  ghost predicate NoClash(b: Board)
    requires |b| == CELLS
  {
    forall i: nat, j: nat {:trigger Peers(i, j)} :: i < CELLS && j < CELLS && Peers(i, j) ==> b[i] != b[j]
  }

  ghost predicate Extends(clues: Board, b: Board)
    requires |clues| == CELLS && |b| == CELLS
  {
    forall i :: 0 <= i < CELLS && clues[i] != 0 ==> b[i] == clues[i]
  }

  /** b fills the blanks of clues and no two peers agree. */
  ghost predicate IsCompletion(clues: Board, b: Board)
    requires |clues| == CELLS
  {
    IsFull(b) && Extends(clues, b) && NoClash(b)
  }

  // ---------- nine cells, nine values ----------

  ghost function Range(n: nat): (r: set<int>)
    ensures |r| == n && forall v :: v in r <==> 1 <= v <= n
  {
    if n == 0 then {} else Range(n - 1) + {n}
  }

  /** n values out of 1..n are pairwise different exactly when every value occurs. */
  lemma Pigeonhole(s: seq<int>)
    requires forall i :: 0 <= i < |s| ==> 1 <= s[i] <= |s|
    ensures NoDup(s) <==> forall v :: 1 <= v <= |s| ==> v in s
  {
    CountElements(s);
    var all := Range(|s|);
    assert Elements(s) <= all;
    if NoDup(s) {
      SubsetOfSameSize(Elements(s), all);
      forall v | 1 <= v <= |s|
        ensures v in s
      {
        assert v in all;
      }
    }
    if !NoDup(s) {
      assert Elements(s) != all;
      var v :| v in all && v !in Elements(s);
      assert 1 <= v <= |s| && v !in s;
    }
  }

  lemma {:induction false} SubsetOfSameSize<T>(a: set<T>, b: set<T>)
    requires a <= b && |a| == |b|
    ensures a == b
    decreases |a|
  {
    if a != {} {
      var x :| x in a;
      SubsetOfSameSize(a - {x}, b - {x});
      assert a == (a - {x}) + {x} && b == (b - {x}) + {x};
    }
  }

  ghost function UnitValues(b: Board, kind: nat, u: nat): seq<int>
    requires |b| == CELLS && u < SIDE
  {
    seq(SIDE, k requires 0 <= k < SIDE => b[CellIn(kind, u, k)])
  }

  ghost predicate HasValue(b: Board, kind: nat, u: nat, v: int)
    requires |b| == CELLS
  {
    exists i: nat :: i < CELLS && UnitOf(kind, i) == u && b[i] == v
  }

  lemma ValueInUnit(b: Board, kind: nat, u: nat, v: int)
    requires |b| == CELLS && u < SIDE
    ensures v in UnitValues(b, kind, u) <==> HasValue(b, kind, u, v)
  {
    var vs := UnitValues(b, kind, u);
    if v in vs {
      var k :| 0 <= k < SIDE && vs[k] == v;
      UnitCells(kind, u, k, 0);
      assert b[CellIn(kind, u, k)] == v;
    }
    if HasValue(b, kind, u, v) {
      var i: nat :| i < CELLS && UnitOf(kind, i) == u && b[i] == v;
      UnitCells(kind, 0, 0, i);
      assert vs[PlaceIn(kind, i)] == v;
    }
  }

  /** In a full board without clashes every unit has every value. */
  lemma CompletionHasValue(b: Board, kind: nat, u: nat, v: int)
    requires IsFull(b) && NoClash(b) && kind < KINDS && u < SIDE && 1 <= v <= 9
    ensures HasValue(b, kind, u, v)
  {
    var vs := UnitValues(b, kind, u);
    forall k, l | 0 <= k < l < SIDE
      ensures vs[k] != vs[l]
    {
      UnitCells(kind, u, k, 0);
      UnitCells(kind, u, l, 0);
      assert Peers(CellIn(kind, u, k), CellIn(kind, u, l));
    }
    Pigeonhole(vs);
    ValueInUnit(b, kind, u, v);
  }

  /** A full board in which every unit has every value has no clash. */
  lemma ValuesExcludeClash(b: Board)
    requires IsFull(b)
    requires forall kind: nat, u: nat, v :: kind < KINDS && u < SIDE && 1 <= v <= 9 ==> HasValue(b, kind, u, v)
    ensures NoClash(b)
  {
    forall i: nat, j: nat | i < CELLS && j < CELLS && Peers(i, j)
      ensures b[i] != b[j]
    {
      var kind: nat :| kind < KINDS && UnitOf(kind, i) == UnitOf(kind, j);
      var u := UnitOf(kind, i);
      var vs := UnitValues(b, kind, u);
      forall v | 1 <= v <= 9
        ensures v in vs
      {
        ValueInUnit(b, kind, u, v);
      }
      Pigeonhole(vs);
      UnitCells(kind, 0, 0, i);
      UnitCells(kind, 0, 0, j);
      assert vs[PlaceIn(kind, i)] == b[i] && vs[PlaceIn(kind, j)] == b[j];
    }
  }
}
