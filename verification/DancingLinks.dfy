/**
 The linked matrix of Lab1/solver.cpp as a value: the node pool, the moves that
 unlink and relink nodes, and what a pool represents.
 */
module LinkedMatrix {
  import opened Cycles

  /** One cell of the pool; the pointers of the source are indices into the pool. */
  datatype Node = Node(left: nat, right: nat, up: nat, down: nat, col: nat, name: nat, size: int)

  type Pool = seq<Node>

  /** root_ is the first node the constructor takes from the pool. */
  const ROOT: nat := 0

  ghost predicate InRange(m: Pool)
  {
    |m| > 0 &&
    forall i {:trigger m[i]} :: 0 <= i < |m| ==>
      m[i].left < |m| && m[i].right < |m| && m[i].up < |m| && m[i].down < |m| && m[i].col < |m|
  }

  /** The nodes of s, in this order, form a circular list along left/right. */
  ghost predicate HorizontalRing(m: Pool, s: seq<nat>)
  {
    && (forall i :: 0 <= i < |s| ==> s[i] < |m|)
    && (forall i {:trigger m[s[i]]} :: 0 <= i < |s| ==>
          m[s[i]].right == After(s, i) && m[s[i]].left == Before(s, i))
  }

  /** The nodes of s, in this order, form a circular list along up/down. */
  ghost predicate VerticalRing(m: Pool, s: seq<nat>)
  {
    && (forall i :: 0 <= i < |s| ==> s[i] < |m|)
    && (forall i {:trigger m[s[i]]} :: 0 <= i < |s| ==>
          m[s[i]].down == After(s, i) && m[s[i]].up == Before(s, i))
  }

  // ---------- the moves ----------

  /** c leaves the header list: the first two statements of cover. */
  function UnlinkHeader(m: Pool, c: nat): (r: Pool)
    requires InRange(m) && c < |m|
    ensures InRange(r) && |r| == |m|
  {
    var a := m[m[c].right := m[m[c].right].(left := m[c].left)];
    a[a[c].left := a[a[c].left].(right := a[c].right)]
  }

  /** c rejoins the header list: the last two statements of uncover. */
  function RelinkHeader(m: Pool, c: nat): (r: Pool)
    requires InRange(m) && c < |m|
    ensures InRange(r) && |r| == |m|
  {
    var a := m[m[c].right := m[m[c].right].(left := c)];
    a[a[c].left := a[a[c].left].(right := c)]
  }

  /** j leaves its column: the inner body of cover. */
  function Unlink(m: Pool, j: nat): (r: Pool)
    requires InRange(m) && j < |m|
    ensures InRange(r) && |r| == |m|
  {
    var a := m[m[j].down := m[m[j].down].(up := m[j].up)];
    var b := a[a[j].up := a[a[j].up].(down := a[j].down)];
    b[b[j].col := b[b[j].col].(size := b[b[j].col].size - 1)]
  }

  /** j rejoins its column: the inner body of uncover. */
  function Relink(m: Pool, j: nat): (r: Pool)
    requires InRange(m) && j < |m|
    ensures InRange(r) && |r| == |m|
  {
    var a := m[m[j].col := m[m[j].col].(size := m[m[j].col].size + 1)];
    var b := a[a[j].down := a[a[j].down].(up := j)];
    b[b[j].up := b[b[j].up].(down := j)]
  }

  function UnlinkAll(m: Pool, js: seq<nat>): (r: Pool)
    requires InRange(m) && forall i :: 0 <= i < |js| ==> js[i] < |m|
    ensures InRange(r) && |r| == |m|
  {
    if js == [] then m else Unlink(UnlinkAll(m, js[..|js| - 1]), js[|js| - 1])
  }

  // ---------- what never changes, and what a pool represents ----------

  /**
   The fixed part of an instance: the column headers, the ring of each row
   node (its row, starting with the node itself), and each node's column.
   */
  datatype Shape = Shape(heads: set<nat>, ring: map<nat, seq<nat>>, col: map<nat, nat>, name: map<nat, nat>)

  ghost predicate WellShaped(f: Shape, n: nat)
  {
    && ROOT !in f.heads && ROOT !in f.ring && ROOT < n
    && f.col.Keys == f.ring.Keys && f.name.Keys == f.ring.Keys
    && (forall c {:trigger c in f.heads} :: c in f.heads ==> c < n && c !in f.ring)
    && (forall x {:trigger f.col[x]} :: x in f.ring ==> x < n && f.col[x] in f.heads)
    && (forall x {:trigger RowOk(f, x)} :: x in f.ring ==> RowOk(f, x))
  }

  /** The ring of x starts at x, and its nodes share one row of pairwise different columns. */
  ghost predicate RowOk(f: Shape, x: nat)
    requires f.col.Keys == f.ring.Keys && x in f.ring
  {
    && |f.ring[x]| > 0 && f.ring[x][0] == x && NoDup(f.ring[x])
    && (forall i :: 0 <= i < |f.ring[x]| ==> f.ring[x][i] in f.ring)
    && (forall y, z {:trigger y in f.ring[x], z in f.ring[y]} :: y in f.ring[x] && z in f.ring[y] ==> z in f.ring[x])
    && (forall y {:trigger f.ring[y]} :: y in f.ring[x] ==> x in f.ring[y])
    && (forall i, j :: 0 <= i < j < |f.ring[x]| ==> f.col[f.ring[x][i]] != f.col[f.ring[x][j]])
  }

  /** A pool together with the linked headers and the linked nodes of every column. */
  datatype State = State(m: Pool, heads: seq<nat>, rows: map<nat, seq<nat>>)

  ghost predicate ColumnOk(f: Shape, s: State, c: nat)
    requires c in s.rows
  {
    && NoDup(s.rows[c])
    && (forall i :: 0 <= i < |s.rows[c]| ==> s.rows[c][i] in f.col && f.col[s.rows[c][i]] == c)
    && VerticalRing(s.m, [c] + s.rows[c])
    && c < |s.m| && s.m[c].size == |s.rows[c]|
  }

  /** The fixed links of row node x. */
  ghost predicate RowLinked(f: Shape, m: Pool, x: nat)
    requires x in f.ring && x in f.col && x in f.name
  {
    x < |m| && HorizontalRing(m, f.ring[x]) && m[x].col == f.col[x] && m[x].name == f.name[x]
  }

  /** The pool's links are those of the matrix (heads, rows), whose sizes are right. */
  ghost predicate Linked(f: Shape, s: State)
  {
    && InRange(s.m) && WellShaped(f, |s.m|)
    && NoDup(s.heads) && (forall i :: 0 <= i < |s.heads| ==> s.heads[i] in f.heads)
    && HorizontalRing(s.m, [ROOT] + s.heads)
    && s.rows.Keys == f.heads
    && (forall c {:trigger ColumnOk(f, s, c)} :: c in f.heads ==> ColumnOk(f, s, c))
    && (forall x {:trigger RowLinked(f, s.m, x)} :: x in f.ring ==> RowLinked(f, s.m, x))
  }

  /** Every column met by the row of x is linked. */
  ghost predicate Active(f: Shape, heads: seq<nat>, x: nat)
    requires x in f.ring
  {
    forall i :: 0 <= i < |f.ring[x]| ==> f.ring[x][i] in f.col && f.col[f.ring[x][i]] in heads
  }

  /** A linked column holds exactly its nodes whose rows meet linked columns only. */
  ghost predicate Closed(f: Shape, s: State)
  {
    forall c, x {:trigger x in s.rows[c]} :: c in s.heads && c in s.rows ==>
      (x in s.rows[c] <==> x in f.ring && x in f.col && f.col[x] == c && Active(f, s.heads, x))
  }

  ghost predicate Inv(f: Shape, s: State)
  {
    Linked(f, s) && Closed(f, s)
  }

  // ---------- one node leaves its column, and comes back ----------

  lemma UnlinkEffect(m: Pool, j: nat, i: nat)
    requires InRange(m) && j < |m| && i < |m|
    ensures var r, d, u := Unlink(m, j), m[j].down, m[j].up;
      && r[i].up == (if i == d then u else m[i].up)
      && r[i].down == (if i == u then d else m[i].down)
      && r[i].size == m[i].size - (if i == m[j].col then 1 else 0)
      && r[i].left == m[i].left && r[i].right == m[i].right && r[i].col == m[i].col && r[i].name == m[i].name
  {
  }

  lemma VerticalRemove(m: Pool, s: seq<nat>, k: nat)
    requires InRange(m) && NoDup(s) && VerticalRing(m, s) && 1 <= k < |s|
    ensures VerticalRing(Unlink(m, s[k]), RemoveAt(s, k))
  {
    hide Unlink;
    var t := RemoveAt(s, k);
    var d, u := After(s, k), Before(s, k);
    assert m[s[k]].down == d && m[s[k]].up == u;
    forall i | 0 <= i < |t|
      ensures t[i] < |m|
      ensures Unlink(m, s[k])[t[i]].down == After(t, i) && Unlink(m, s[k])[t[i]].up == Before(t, i)
    {
      var i' := if i < k then i else i + 1;
      assert t[i] == s[i'];
      UnlinkEffect(m, s[k], s[i']);
      assert m[s[i']].down == After(s, i') && m[s[i']].up == Before(s, i');
    }
  }

  /** Relinking undoes unlinking on every node whose neighbours point back at it. */
  lemma RelinkUndoes(m: Pool, j: nat)
    requires InRange(m) && j < |m|
    requires m[m[j].down].up == j && m[m[j].up].down == j && m[j].col != j
    ensures Relink(Unlink(m, j), j) == m
  {
  }

  lemma RelinkHeaderUndoes(m: Pool, c: nat)
    requires InRange(m) && c < |m|
    requires m[m[c].right].left == c && m[m[c].left].right == c
    ensures RelinkHeader(UnlinkHeader(m, c), c) == m
  {
  }

  lemma HeaderEffect(m: Pool, c: nat, i: nat)
    requires InRange(m) && c < |m| && i < |m|
    ensures var r, d, u := UnlinkHeader(m, c), m[c].right, m[c].left;
      && r[i].left == (if i == d then u else m[i].left)
      && r[i].right == (if i == u then d else m[i].right)
      && r[i].up == m[i].up && r[i].down == m[i].down
      && r[i].size == m[i].size && r[i].col == m[i].col && r[i].name == m[i].name
  {
  }

  lemma HorizontalRemove(m: Pool, s: seq<nat>, k: nat)
    requires InRange(m) && NoDup(s) && HorizontalRing(m, s) && 1 <= k < |s|
    ensures HorizontalRing(UnlinkHeader(m, s[k]), RemoveAt(s, k))
  {
    var t := RemoveAt(s, k);
    var d, u := After(s, k), Before(s, k);
    assert m[s[k]].right == d && m[s[k]].left == u;
    forall i | 0 <= i < |t|
      ensures t[i] < |m|
      ensures UnlinkHeader(m, s[k])[t[i]].right == After(t, i) && UnlinkHeader(m, s[k])[t[i]].left == Before(t, i)
    {
      var i' := if i < k then i else i + 1;
      assert t[i] == s[i'];
      HeaderEffect(m, s[k], s[i']);
      assert m[s[i']].right == After(s, i') && m[s[i']].left == Before(s, i');
    }
  }

  // ---------- the same moves on states ----------

  ghost function UnlinkState(f: Shape, s: State, j: nat): (r: State)
    requires InRange(s.m) && j < |s.m| && j in f.col && f.col[j] in s.rows
    ensures InRange(r.m) && |r.m| == |s.m| && r.rows.Keys == s.rows.Keys && r.heads == s.heads
  {
    State(Unlink(s.m, j), s.heads, s.rows[f.col[j] := Without(s.rows[f.col[j]], j)])
  }

  ghost function UnlinkStates(f: Shape, s: State, js: seq<nat>): (r: State)
    requires InRange(s.m)
    requires forall i :: 0 <= i < |js| ==> js[i] < |s.m| && js[i] in f.col && f.col[js[i]] in s.rows
    ensures InRange(r.m) && |r.m| == |s.m| && r.rows.Keys == s.rows.Keys && r.heads == s.heads
    ensures r.m == UnlinkAll(s.m, js)
  {
    if js == [] then s else UnlinkState(f, UnlinkStates(f, s, js[..|js| - 1]), js[|js| - 1])
  }

  lemma VerticalFrame(m: Pool, r: Pool, s: seq<nat>)
    requires VerticalRing(m, s) && |r| == |m|
    requires forall i :: 0 <= i < |s| && s[i] < |m| ==> r[s[i]].down == m[s[i]].down && r[s[i]].up == m[s[i]].up
    ensures VerticalRing(r, s)
  {
  }

  lemma HorizontalFrame(m: Pool, r: Pool, s: seq<nat>)
    requires HorizontalRing(m, s) && |r| == |m|
    requires forall i :: 0 <= i < |s| && s[i] < |m| ==> r[s[i]].left == m[s[i]].left && r[s[i]].right == m[s[i]].right
    ensures HorizontalRing(r, s)
  {
  }

  /** The linked neighbours of a linked node are in its own column. */
  lemma Neighbours(f: Shape, s: State, j: nat) returns (k: nat)
    requires Linked(f, s) && j in f.ring && j in s.rows[f.col[j]]
    ensures ColumnOk(f, s, f.col[j])
    ensures j < |s.m| && 1 <= k <= |s.rows[f.col[j]]| && ([f.col[j]] + s.rows[f.col[j]])[k] == j
    ensures k - 1 == IndexOf(s.rows[f.col[j]], j)
    ensures s.m[j].down == After([f.col[j]] + s.rows[f.col[j]], k)
    ensures s.m[j].up == Before([f.col[j]] + s.rows[f.col[j]], k)
    ensures s.m[s.m[j].down].up == j && s.m[s.m[j].up].down == j && s.m[j].col == f.col[j] != j
  {
    var c := f.col[j];
    assert ColumnOk(f, s, c);
    assert RowLinked(f, s.m, j);
    var v := [c] + s.rows[c];
    k := 1 + IndexOf(s.rows[c], j);
    assert v[k] == j;
    assert s.m[v[k]].down == After(v, k) && s.m[v[k]].up == Before(v, k);
    var kd := if k + 1 < |v| then k + 1 else 0;
    assert s.m[v[kd]].up == Before(v, kd);
    assert s.m[v[k - 1]].down == After(v, k - 1);
  }

  /** Unlinking j leaves the links of every other column alone. */
  lemma UnlinkOther(f: Shape, s: State, j: nat, c: nat)
    requires InRange(s.m) && j < |s.m| && j in f.col && f.col[j] in s.rows && c in s.rows && c != f.col[j]
    requires ColumnOk(f, s, c) && ColumnOk(f, s, f.col[j]) && c !in f.col && f.col[j] !in f.col
    requires s.m[j].col == f.col[j]
    requires s.m[j].down in [f.col[j]] + s.rows[f.col[j]] && s.m[j].up in [f.col[j]] + s.rows[f.col[j]]
    ensures ColumnOk(f, UnlinkState(f, s, j), c)
  {
    var r := UnlinkState(f, s, j);
    var v := [c] + s.rows[c];
    forall i | 0 <= i < |v|
      ensures r.m[v[i]].down == s.m[v[i]].down && r.m[v[i]].up == s.m[v[i]].up
    {
      UnlinkEffect(s.m, j, v[i]);
      assert i > 0 ==> v[i] == s.rows[c][i - 1];
    }
    UnlinkEffect(s.m, j, c);
    VerticalFrame(s.m, r.m, v);
  }

  lemma UnlinkOwn(f: Shape, s: State, j: nat)
    requires InRange(s.m) && j < |s.m| && j in f.col && f.col[j] in s.rows && j in s.rows[f.col[j]]
    requires ColumnOk(f, s, f.col[j]) && s.m[j].col == f.col[j] && f.col[j] !in f.col
    ensures ColumnOk(f, UnlinkState(f, s, j), f.col[j])
  {
    var c, v, k := f.col[j], s.rows[f.col[j]], IndexOf(s.rows[f.col[j]], j);
    assert VerticalRing(Unlink(s.m, j), [c] + RemoveAt(v, k)) by {
      NoDupCons(c, v);
      VerticalRemove(s.m, [c] + v, k + 1);
      ConsRemove(c, v, k);
    }
    UnlinkEffect(s.m, j, c);
    WithoutMembers(v, j);
  }

  lemma UnlinkColumn(f: Shape, s: State, j: nat, c: nat)
    requires Linked(f, s) && j in f.ring && j in s.rows[f.col[j]] && c in f.heads
    ensures ColumnOk(f, UnlinkState(f, s, j), c)
  {
    var k := Neighbours(f, s, j);
    assert ColumnOk(f, s, c);
    if c == f.col[j] {
      UnlinkOwn(f, s, j);
    } else {
      UnlinkOther(f, s, j, c);
    }
  }

  lemma UnlinkKeepsLinked(f: Shape, s: State, j: nat)
    requires Linked(f, s) && j in f.ring && j in s.rows[f.col[j]]
    ensures Linked(f, UnlinkState(f, s, j))
  {
    hide ColumnOk, RowOk;
    var r := UnlinkState(f, s, j);
    forall c | c in f.heads
      ensures ColumnOk(f, r, c)
    {
      UnlinkColumn(f, s, j, c);
    }
    forall i | 0 <= i < |s.m|
      ensures r.m[i].left == s.m[i].left && r.m[i].right == s.m[i].right
      ensures r.m[i].col == s.m[i].col && r.m[i].name == s.m[i].name
    {
      UnlinkEffect(s.m, j, i);
    }
    HorizontalFrame(s.m, r.m, [ROOT] + s.heads);
    forall x | x in f.ring
      ensures RowLinked(f, r.m, x)
    {
      assert RowLinked(f, s.m, x);
      HorizontalFrame(s.m, r.m, f.ring[x]);
    }
  }

  // ---------- a column is covered ----------

  ghost predicate Removable(f: Shape, s: State, js: seq<nat>)
  {
    && NoDup(js)
    && forall i :: 0 <= i < |js| ==>
         && js[i] in f.ring && js[i] in f.col && js[i] < |s.m|
         && f.col[js[i]] in s.rows && js[i] in s.rows[f.col[js[i]]]
  }

  lemma {:induction false} UnlinkStatesMember(f: Shape, s: State, js: seq<nat>, c: nat, y: nat)
    requires InRange(s.m) && Removable(f, s, js) && c in s.rows
    requires NoDup(s.rows[c]) && forall i :: 0 <= i < |s.rows[c]| ==> s.rows[c][i] in f.col && f.col[s.rows[c][i]] == c
    ensures NoDup(UnlinkStates(f, s, js).rows[c])
    ensures y in UnlinkStates(f, s, js).rows[c] <==> y in s.rows[c] && y !in js
    ensures (forall i :: 0 <= i < |js| ==> f.col[js[i]] != c) ==> UnlinkStates(f, s, js).rows[c] == s.rows[c]
  {
    if js != [] {
      var last := |js| - 1;
      var j := js[last];
      UnlinkStatesMember(f, s, js[..last], c, y);
      assert js == js[..last] + [j];
      var t := UnlinkStates(f, s, js[..last]);
      assert UnlinkStates(f, s, js) == UnlinkState(f, t, j);
      if f.col[j] == c {
        WithoutMembers(t.rows[c], j);
      } else {
        assert y in s.rows[c] ==> y != j;
      }
    }
  }

  /** The last node to be unlinked is still in its column once the others are out. */
  lemma StillInColumn(f: Shape, s: State, js: seq<nat>)
    requires Linked(f, s) && Removable(f, s, js) && js != []
    ensures var last := |js| - 1;
      && Removable(f, s, js[..last]) && js[last] in f.ring && js[last] in f.col
      && f.col[js[last]] in UnlinkStates(f, s, js[..last]).rows
      && js[last] in UnlinkStates(f, s, js[..last]).rows[f.col[js[last]]]
  {
    hide WellShaped, RowLinked, HorizontalRing, VerticalRing, UnlinkState;
    var last := |js| - 1;
    var j := js[last];
    assert j !in js[..last];
    assert ColumnOk(f, s, f.col[j]);
    UnlinkStatesMember(f, s, js[..last], f.col[j], j);
  }

  lemma {:induction false} UnlinkStatesLinked(f: Shape, s: State, js: seq<nat>)
    requires Linked(f, s) && Removable(f, s, js)
    ensures Linked(f, UnlinkStates(f, s, js))
  {
    hide WellShaped, RowLinked, HorizontalRing, VerticalRing, UnlinkState, ColumnOk;
    if js != [] {
      StillInColumn(f, s, js);
      UnlinkStatesLinked(f, s, js[..|js| - 1]);
      UnlinkKeepsLinked(f, UnlinkStates(f, s, js[..|js| - 1]), js[|js| - 1]);
    }
  }

  /** The other nodes of the rows xs, in the order in which cover visits them. */
  function Victims(f: Shape, xs: seq<nat>): seq<nat>
    requires forall i :: 0 <= i < |xs| ==> xs[i] in f.ring && |f.ring[xs[i]]| > 0
  {
    if xs == [] then [] else Victims(f, xs[..|xs| - 1]) + f.ring[xs[|xs| - 1]][1..]
  }

  lemma {:induction false} VictimsMembers(f: Shape, xs: seq<nat>, y: nat)
    requires forall i :: 0 <= i < |xs| ==> xs[i] in f.ring && |f.ring[xs[i]]| > 0
    ensures y in Victims(f, xs) <==> exists i :: 0 <= i < |xs| && y in f.ring[xs[i]][1..]
  {
    if xs != [] {
      VictimsMembers(f, xs[..|xs| - 1], y);
    }
  }

  /** Two nodes of one column lie in rows that share no node. */
  lemma RowsApart(f: Shape, n: nat, x: nat, x': nat, y: nat)
    requires WellShaped(f, n) && x in f.ring && x' in f.ring && y in f.ring[x] && y in f.ring[x']
    requires f.col[x] == f.col[x']
    ensures x == x'
  {
    SameRow(f, n, x', y);
    SameRow(f, n, x, y);
    assert RowOk(f, x) && RowOk(f, x');
    assert f.ring[x][0] in f.ring[x] && f.ring[x'][0] in f.ring[x'];
    assert x' in f.ring[x] && x in f.ring[x];
  }

  /** The nodes of a row have the same row. */
  lemma SameRow(f: Shape, n: nat, x: nat, y: nat)
    requires WellShaped(f, n) && x in f.ring && y in f.ring[x]
    ensures y in f.ring && forall z :: z in f.ring[x] <==> z in f.ring[y]
  {
    assert RowOk(f, x);
    assert x in f.ring[y];
    assert RowOk(f, y);
    forall z | z in f.ring[x]
      ensures z in f.ring[y]
    {
    }
  }

  /** The nodes xs are different nodes of column c. */
  ghost predicate SameColumn(f: Shape, n: nat, xs: seq<nat>, c: nat)
  {
    && WellShaped(f, n) && NoDup(xs)
    && forall i :: 0 <= i < |xs| ==> xs[i] in f.ring && |f.ring[xs[i]]| > 0 && f.col[xs[i]] == c
  }

  lemma {:induction false} VictimsNoDup(f: Shape, n: nat, xs: seq<nat>, c: nat)
    requires SameColumn(f, n, xs, c)
    ensures NoDup(Victims(f, xs))
  {
    if xs != [] {
      var init, x := xs[..|xs| - 1], xs[|xs| - 1];
      VictimsNoDup(f, n, init, c);
      assert RowOk(f, x);
      forall y | y in Victims(f, init) && y in f.ring[x][1..]
        ensures false
      {
        VictimsMembers(f, init, y);
        var i :| 0 <= i < |init| && y in f.ring[init[i]][1..];
        RowsApart(f, n, init[i], x, y);
      }
      NoDupConcat(Victims(f, init), f.ring[x][1..]);
    }
  }

  lemma ActiveLinked(f: Shape, s: State, x: nat, y: nat)
    requires Inv(f, s) && x in f.ring && Active(f, s.heads, x) && y in f.ring[x]
    ensures y in f.ring && f.col[y] in s.heads && y in s.rows[f.col[y]]
  {
    SameRow(f, |s.m|, x, y);
    var i := IndexOf(f.ring[x], y);
    forall k | 0 <= k < |f.ring[y]|
      ensures f.ring[y][k] in f.col && f.col[f.ring[y][k]] in s.heads
    {
      var i' := IndexOf(f.ring[x], f.ring[y][k]);
    }
    assert Active(f, s.heads, y);
  }

  /** The nodes cover unlinks are linked, pairwise different and outside the column itself. */
  lemma VictimsRemovable(f: Shape, s: State, c: nat)
    requires Inv(f, s) && c in s.heads
    ensures SameColumn(f, |s.m|, s.rows[c], c)
    ensures Removable(f, s, Victims(f, s.rows[c]))
    ensures forall y :: y in Victims(f, s.rows[c]) ==> y in f.col && f.col[y] != c
  {
    var xs := s.rows[c];
    assert ColumnOk(f, s, c);
    forall i | 0 <= i < |xs|
      ensures xs[i] in f.ring && |f.ring[xs[i]]| > 0 && f.col[xs[i]] == c
    {
      assert xs[i] in s.rows[c];
      assert RowOk(f, xs[i]);
    }
    VictimsNoDup(f, |s.m|, xs, c);
    forall y | y in Victims(f, xs)
      ensures y in f.ring && y in f.col && f.col[y] in s.rows && y < |s.m|
      ensures y in s.rows[f.col[y]] && f.col[y] != c
    {
      VictimsMembers(f, xs, y);
      var i :| 0 <= i < |xs| && y in f.ring[xs[i]][1..];
      assert xs[i] in s.rows[c];
      ActiveLinked(f, s, xs[i], y);
      assert RowOk(f, xs[i]);
      assert f.ring[xs[i]][0] == xs[i];
    }
  }

  ghost function HeaderOff(s: State, c: nat): (r: State)
    requires InRange(s.m) && c < |s.m|
    ensures InRange(r.m) && |r.m| == |s.m|
  {
    State(UnlinkHeader(s.m, c), Without(s.heads, c), s.rows)
  }

  /** Only horizontal links of headers change. */
  ghost predicate HeaderMove(f: Shape, s: State, r: State)
  {
    && |r.m| == |s.m| && r.rows == s.rows
    && (forall i {:trigger r.m[i]} :: 0 <= i < |s.m| ==>
          && r.m[i].up == s.m[i].up && r.m[i].down == s.m[i].down && r.m[i].size == s.m[i].size
          && r.m[i].col == s.m[i].col && r.m[i].name == s.m[i].name
          && (i in f.ring ==> r.m[i].left == s.m[i].left && r.m[i].right == s.m[i].right))
  }

  lemma HeaderMoveColumn(f: Shape, s: State, r: State, c: nat)
    requires HeaderMove(f, s, r) && c in s.rows && ColumnOk(f, s, c)
    ensures ColumnOk(f, r, c)
  {
    VerticalFrame(s.m, r.m, [c] + s.rows[c]);
  }

  lemma HeaderMoveRow(f: Shape, s: State, r: State, x: nat)
    requires HeaderMove(f, s, r) && WellShaped(f, |s.m|) && x in f.ring && RowLinked(f, s.m, x)
    ensures RowLinked(f, r.m, x)
  {
    assert RowOk(f, x);
    HorizontalFrame(s.m, r.m, f.ring[x]);
  }

  lemma HeaderMoveLinked(f: Shape, s: State, r: State)
    requires Linked(f, s) && HeaderMove(f, s, r) && InRange(r.m)
    requires NoDup(r.heads) && forall i :: 0 <= i < |r.heads| ==> r.heads[i] in f.heads
    requires HorizontalRing(r.m, [ROOT] + r.heads)
    ensures Linked(f, r)
  {
    forall d | d in f.heads
      ensures ColumnOk(f, r, d)
    {
      assert ColumnOk(f, s, d);
      HeaderMoveColumn(f, s, r, d);
    }
    forall x | x in f.ring
      ensures RowLinked(f, r.m, x)
    {
      assert RowLinked(f, s.m, x);
      HeaderMoveRow(f, s, r, x);
    }
  }

  lemma RingInside(m: Pool, s: seq<nat>, k: nat)
    requires HorizontalRing(m, s) && k < |s|
    ensures s[k] < |m|
  {
  }

  lemma HeaderRingRemove(m: Pool, heads: seq<nat>, c: nat)
    requires InRange(m) && NoDup(heads) && ROOT !in heads && HorizontalRing(m, [ROOT] + heads) && c in heads
    ensures c < |m| && HorizontalRing(UnlinkHeader(m, c), [ROOT] + Without(heads, c))
  {
    hide HorizontalRing, UnlinkHeader;
    var k := IndexOf(heads, c);
    assert ([ROOT] + heads)[k + 1] == c;
    NoDupCons(ROOT, heads);
    RingInside(m, [ROOT] + heads, k + 1);
    HorizontalRemove(m, [ROOT] + heads, k + 1);
    ConsRemove(ROOT, heads, k);
  }

  lemma HeaderOffMove(f: Shape, s: State, c: nat)
    requires InRange(s.m) && c < |s.m| && s.m[c].right !in f.ring && s.m[c].left !in f.ring
    ensures HeaderMove(f, s, HeaderOff(s, c))
  {
    forall i {:trigger HeaderOff(s, c).m[i]} | 0 <= i < |s.m|
      ensures var r := HeaderOff(s, c);
        && r.m[i].up == s.m[i].up && r.m[i].down == s.m[i].down && r.m[i].size == s.m[i].size
        && r.m[i].col == s.m[i].col && r.m[i].name == s.m[i].name
        && (i in f.ring ==> r.m[i].left == s.m[i].left && r.m[i].right == s.m[i].right)
    {
      HeaderEffect(s.m, c, i);
    }
  }

  lemma HeaderOffLinked(f: Shape, s: State, c: nat)
    requires Linked(f, s) && c in s.heads
    ensures c < |s.m| && Linked(f, HeaderOff(s, c))
    ensures s.m[s.m[c].right].left == c && s.m[s.m[c].left].right == c
  {
    var k := IndexOf(s.heads, c);
    assert ([ROOT] + s.heads)[k + 1] == c;
    HeaderNeighbours(f, s, c, k + 1);
    WithoutMembers(s.heads, c);
    HeaderRingRemove(s.m, s.heads, c);
    HeaderOffMove(f, s, c);
    var r := HeaderOff(s, c);
    assert r.heads == Without(s.heads, c) && HorizontalRing(r.m, [ROOT] + r.heads);
    forall i | 0 <= i < |r.heads|
      ensures r.heads[i] in f.heads
    {
      assert r.heads[i] in s.heads;
    }
    HeaderMoveLinked(f, s, r);
  }

  lemma HeaderNeighbours(f: Shape, s: State, c: nat, k: nat)
    requires Linked(f, s) && 1 <= k <= |s.heads| && ([ROOT] + s.heads)[k] == c
    ensures c < |s.m| && s.m[s.m[c].right].left == c && s.m[s.m[c].left].right == c
    ensures s.m[c].right !in f.ring && s.m[c].left !in f.ring
  {
    var v := [ROOT] + s.heads;
    assert s.m[v[k]].right == After(v, k) && s.m[v[k]].left == Before(v, k);
    var kd := if k + 1 < |v| then k + 1 else 0;
    assert s.m[v[kd]].left == Before(v, kd);
    assert s.m[v[k - 1]].right == After(v, k - 1);
    assert kd > 0 ==> v[kd] == s.heads[kd - 1];
    assert k > 1 ==> v[k - 1] == s.heads[k - 2];
  }

  /** The state cover leaves behind. */
  ghost function CoverState(f: Shape, s: State, c: nat): (r: State)
    requires Inv(f, s) && c in s.heads
    ensures |r.m| == |s.m|
  {
    HeaderOffLinked(f, s, c);
    VictimsRemovable(f, s, c);
    UnlinkStates(f, HeaderOff(s, c), Victims(f, s.rows[c]))
  }

  /** Cover unlinks exactly the nodes of other columns whose rows meet column c. */
  lemma VictimsAreTheRowsOf(f: Shape, s: State, c: nat, x: nat)
    requires Inv(f, s) && c in s.heads && x in f.ring && f.col[x] != c && Active(f, s.heads, x)
    requires SameColumn(f, |s.m|, s.rows[c], c)
    ensures x in Victims(f, s.rows[c]) <==> !Active(f, Without(s.heads, c), x)
  {
    var xs := s.rows[c];
    VictimsMembers(f, xs, x);
    WithoutMembers(s.heads, c);
    if x in Victims(f, xs) {
      var i :| 0 <= i < |xs| && x in f.ring[xs[i]][1..];
      assert RowOk(f, xs[i]);
      assert xs[i] in f.ring[x];
      var k := IndexOf(f.ring[x], xs[i]);
      assert f.col[f.ring[x][k]] !in Without(s.heads, c);
    }
    if !Active(f, Without(s.heads, c), x) {
      assert RowOk(f, x);
      var k :| 0 <= k < |f.ring[x]| && f.col[f.ring[x][k]] !in Without(s.heads, c);
      var y := f.ring[x][k];
      assert f.col[y] == c;
      ActiveLinked(f, s, x, y);
      assert RowOk(f, y);
      var i := IndexOf(xs, y);
      assert x in f.ring[y] && f.ring[y][0] != x;
      var k' := IndexOf(f.ring[y], x);
      assert f.ring[y][k'] == f.ring[y][1..][k' - 1];
    }
  }

  lemma CoverKeepsLinked(f: Shape, s: State, c: nat)
    requires Inv(f, s) && c in s.heads
    ensures Linked(f, CoverState(f, s, c))
    ensures CoverState(f, s, c).heads == Without(s.heads, c)
  {
    HeaderOffLinked(f, s, c);
    VictimsRemovable(f, s, c);
    UnlinkStatesLinked(f, HeaderOff(s, c), Victims(f, s.rows[c]));
  }

  lemma CoverFreezes(f: Shape, s: State, c: nat)
    requires Inv(f, s) && c in s.heads
    ensures c in CoverState(f, s, c).rows && CoverState(f, s, c).rows[c] == s.rows[c]
  {
    hide WellShaped, RowLinked, HorizontalRing, VerticalRing, UnlinkState, Victims;
    HeaderOffLinked(f, s, c);
    VictimsRemovable(f, s, c);
    assert ColumnOk(f, s, c);
    UnlinkStatesMember(f, HeaderOff(s, c), Victims(f, s.rows[c]), c, c);
  }

  lemma CoverCloses(f: Shape, s: State, c: nat)
    requires Inv(f, s) && c in s.heads
    requires CoverState(f, s, c).heads == Without(s.heads, c)
    ensures Closed(f, CoverState(f, s, c))
  {
    hide Linked, CoverState;
    forall d, x | d in Without(s.heads, c)
      ensures d in CoverState(f, s, c).rows
      ensures x in CoverState(f, s, c).rows[d] <==>
              x in f.ring && x in f.col && f.col[x] == d && Active(f, Without(s.heads, c), x)
    {
      CoverMember(f, s, c, d, x);
    }
  }

  /** cover keeps the representation, drops c from the header list and freezes column c. */
  lemma CoverKeepsInv(f: Shape, s: State, c: nat)
    requires Inv(f, s) && c in s.heads
    ensures c in s.rows && Inv(f, CoverState(f, s, c))
    ensures CoverState(f, s, c).heads == Without(s.heads, c)
    ensures c in CoverState(f, s, c).rows && CoverState(f, s, c).rows[c] == s.rows[c]
  {
    CoverKeepsLinked(f, s, c);
    CoverFreezes(f, s, c);
    CoverCloses(f, s, c);
  }

  lemma ActiveMonotone(f: Shape, heads: seq<nat>, c: nat, x: nat)
    requires NoDup(heads) && x in f.ring && Active(f, Without(heads, c), x)
    ensures Active(f, heads, x)
  {
    WithoutMembers(heads, c);
  }

  lemma CoverMember(f: Shape, s: State, c: nat, d: nat, x: nat)
    requires Inv(f, s) && c in s.heads && d in Without(s.heads, c)
    ensures d in CoverState(f, s, c).rows
    ensures x in CoverState(f, s, c).rows[d] <==>
              x in f.ring && x in f.col && f.col[x] == d && Active(f, Without(s.heads, c), x)
  {
    HeaderOffLinked(f, s, c);
    VictimsRemovable(f, s, c);
    WithoutMembers(s.heads, c);
    assert ColumnOk(f, s, d);
    UnlinkStatesMember(f, HeaderOff(s, c), Victims(f, s.rows[c]), d, x);
    assert x in s.rows[d] <==> x in f.ring && x in f.col && f.col[x] == d && Active(f, s.heads, x);
    if x in f.ring && f.col[x] == d {
      if Active(f, s.heads, x) {
        VictimsAreTheRowsOf(f, s, c, x);
      } else if Active(f, Without(s.heads, c), x) {
        ActiveMonotone(f, s.heads, c, x);
      }
    }
  }

  // ---------- undoing ----------

  /** Relinking the last unlinked node goes one step back. */
  lemma RelinkLast(f: Shape, s: State, js: seq<nat>)
    requires Linked(f, s) && Removable(f, s, js) && js != []
    ensures var last := |js| - 1;
      Relink(UnlinkAll(s.m, js), js[last]) == UnlinkAll(s.m, js[..last])
  {
    hide WellShaped, RowLinked, HorizontalRing, VerticalRing, UnlinkState, ColumnOk, Unlink, Relink;
    var last := |js| - 1;
    StillInColumn(f, s, js);
    UnlinkStatesLinked(f, s, js[..last]);
    var t := UnlinkStates(f, s, js[..last]);
    var k := Neighbours(f, t, js[last]);
    RelinkUndoes(t.m, js[last]);
  }

  function RelinkAll(m: Pool, js: seq<nat>): (r: Pool)
    requires InRange(m) && forall i :: 0 <= i < |js| ==> js[i] < |m|
    ensures InRange(r) && |r| == |m|
    decreases |js|
  {
    if js == [] then m else RelinkAll(Relink(m, js[|js| - 1]), js[..|js| - 1])
  }

  lemma {:induction false} RelinkAllUndoes(f: Shape, s: State, js: seq<nat>)
    requires Linked(f, s) && Removable(f, s, js)
    ensures RelinkAll(UnlinkAll(s.m, js), js) == s.m
  {
    hide Linked, UnlinkState, Relink;
    if js != [] {
      RelinkLast(f, s, js);
      RelinkAllUndoes(f, s, js[..|js| - 1]);
    }
  }

  /** uncover undoes cover on every link and every size, stale links included. */
  lemma UncoverUndoesCover(f: Shape, s: State, c: nat)
    requires Inv(f, s) && c in s.heads
    ensures c < |s.m| && SameColumn(f, |s.m|, s.rows[c], c)
    ensures forall i :: 0 <= i < |Victims(f, s.rows[c])| ==> Victims(f, s.rows[c])[i] < |s.m|
    ensures RelinkHeader(RelinkAll(CoverState(f, s, c).m, Victims(f, s.rows[c])), c) == s.m
  {
    HeaderOffLinked(f, s, c);
    VictimsRemovable(f, s, c);
    RelinkAllUndoes(f, HeaderOff(s, c), Victims(f, s.rows[c]));
    RelinkHeaderUndoes(s.m, c);
  }

  // ---------- several columns ----------

  ghost predicate Coverings(s: State, cs: seq<nat>)
  {
    NoDup(cs) && forall i :: 0 <= i < |cs| ==> cs[i] in s.heads
  }

  lemma LastStillLinked(s: State, cs: seq<nat>)
    requires NoDup(s.heads) && Coverings(s, cs) && cs != []
    ensures Coverings(s, cs[..|cs| - 1]) && cs[|cs| - 1] in WithoutAll(s.heads, cs[..|cs| - 1])
  {
    WithoutAllMembers(s.heads, cs[..|cs| - 1]);
    assert cs[|cs| - 1] !in cs[..|cs| - 1];
  }

  /** The state after covering the columns cs one after the other. */
  ghost function CoverColumns(f: Shape, s: State, cs: seq<nat>): (r: State)
    requires Inv(f, s) && Coverings(s, cs)
    ensures Inv(f, r) && |r.m| == |s.m| && r.heads == WithoutAll(s.heads, cs)
    decreases |cs|
  {
    if cs == [] then s
    else
      LastStillLinked(s, cs);
      CoverKeepsInv(f, CoverColumns(f, s, cs[..|cs| - 1]), cs[|cs| - 1]);
      CoverState(f, CoverColumns(f, s, cs[..|cs| - 1]), cs[|cs| - 1])
  }

  /** What uncover of column c makes of pool m, when c was covered in state s. */
  ghost function UncoverPool(f: Shape, s: State, c: nat, m: Pool): (r: Pool)
    requires Inv(f, s) && c in s.heads && InRange(m) && |m| == |s.m|
    ensures InRange(r) && |r| == |m|
  {
    UncoverUndoesCover(f, s, c);
    RelinkHeader(RelinkAll(m, Victims(f, s.rows[c])), c)
  }

  /** Uncovering the columns of cs, last covered first. */
  ghost function UncoverColumns(f: Shape, s: State, cs: seq<nat>, m: Pool): (r: Pool)
    requires Inv(f, s) && Coverings(s, cs) && InRange(m) && |m| == |s.m|
    decreases |cs|
  {
    if cs == [] then m
    else
      LastStillLinked(s, cs);
      UncoverColumns(f, s, cs[..|cs| - 1],
                     UncoverPool(f, CoverColumns(f, s, cs[..|cs| - 1]), cs[|cs| - 1], m))
  }

  /** Any columns covered one after the other and uncovered last first leave every link and every size as before. */
  lemma {:induction false} LifoRestores(f: Shape, s: State, cs: seq<nat>)
    requires Inv(f, s) && Coverings(s, cs)
    ensures InRange(CoverColumns(f, s, cs).m)
    ensures UncoverColumns(f, s, cs, CoverColumns(f, s, cs).m) == s.m
    decreases |cs|
  {
    hide WellShaped, HorizontalRing, ColumnOk, RowLinked, Closed, CoverState;
    if cs != [] {
      LastStillLinked(s, cs);
      var before := CoverColumns(f, s, cs[..|cs| - 1]);
      UncoverUndoesCover(f, before, cs[|cs| - 1]);
      LifoRestores(f, s, cs[..|cs| - 1]);
    }
  }

  // ---------- halfway through cover ----------

  lemma {:induction false} VictimsPrefix(f: Shape, xs: seq<nat>, i: nat)
    requires forall k :: 0 <= k < |xs| ==> xs[k] in f.ring && |f.ring[xs[k]]| > 0
    requires i <= |xs|
    ensures Victims(f, xs[..i]) <= Victims(f, xs)
    decreases |xs|
  {
    if i < |xs| {
      VictimsPrefix(f, xs[..|xs| - 1], i);
      assert xs[..|xs| - 1][..i] == xs[..i];
    } else {
      assert xs[..i] == xs;
    }
  }

  /** The nodes unlinked once rows xs[..i] are done and t nodes of row i are done too. */
  function Done(f: Shape, xs: seq<nat>, i: nat, t: nat): seq<nat>
    requires forall k :: 0 <= k < |xs| ==> xs[k] in f.ring && |f.ring[xs[k]]| > 0
    requires i < |xs| && 1 <= t <= |f.ring[xs[i]]|
  {
    Victims(f, xs[..i]) + f.ring[xs[i]][1..t]
  }

  lemma DonePrefix(f: Shape, xs: seq<nat>, i: nat, t: nat)
    requires forall k :: 0 <= k < |xs| ==> xs[k] in f.ring && |f.ring[xs[k]]| > 0
    requires i < |xs| && 1 <= t <= |f.ring[xs[i]]|
    ensures Done(f, xs, i, t) <= Victims(f, xs)
    ensures Done(f, xs, i, 1) == Victims(f, xs[..i])
    ensures Done(f, xs, i, |f.ring[xs[i]]|) == Victims(f, xs[..i + 1])
    ensures t < |f.ring[xs[i]]| ==> Done(f, xs, i, t + 1) == Done(f, xs, i, t) + [f.ring[xs[i]][t]]
  {
    VictimsPrefix(f, xs, i + 1);
    assert xs[..i + 1][..i] == xs[..i] && xs[..i + 1][i] == xs[i];
    assert Done(f, xs, i, t) <= Victims(f, xs[..i + 1]);
  }

  /** What a pool halfway through cover (or uncover) of c still tells. */
  lemma Halfway(f: Shape, s: State, c: nat, js: seq<nat>)
    requires Inv(f, s) && c in s.heads && c < |s.m|
    requires SameColumn(f, |s.m|, s.rows[c], c) && js <= Victims(f, s.rows[c])
    ensures Removable(f, HeaderOff(s, c), js)
    ensures Linked(f, UnlinkStates(f, HeaderOff(s, c), js))
    ensures UnlinkStates(f, HeaderOff(s, c), js).rows[c] == s.rows[c]
  {
    HeaderOffLinked(f, s, c);
    VictimsRemovable(f, s, c);
    var h := HeaderOff(s, c);
    assert Removable(f, h, js);
    UnlinkStatesLinked(f, h, js);
    assert ColumnOk(f, h, c);
    forall i | 0 <= i < |js|
      ensures f.col[js[i]] != c
    {
      assert js[i] in Victims(f, s.rows[c]);
    }
    UnlinkStatesMember(f, h, js, c, c);
  }

  /** The state between header unlinking and the end of cover, with js unlinked so far. */
  ghost function Midway(f: Shape, s: State, c: nat, js: seq<nat>): (r: State)
    requires Inv(f, s) && c in s.heads && c < |s.m|
    requires SameColumn(f, |s.m|, s.rows[c], c) && js <= Victims(f, s.rows[c])
    ensures Linked(f, r) && r.rows[c] == s.rows[c] && |r.m| == |s.m|
  {
    Halfway(f, s, c, js);
    UnlinkStates(f, HeaderOff(s, c), js)
  }

  lemma MidwayStep(f: Shape, s: State, c: nat, js: seq<nat>, j: nat)
    requires Inv(f, s) && c in s.heads && c < |s.m|
    requires SameColumn(f, |s.m|, s.rows[c], c) && js + [j] <= Victims(f, s.rows[c])
    ensures j < |s.m|
    ensures Midway(f, s, c, js + [j]).m == Unlink(Midway(f, s, c, js).m, j)
    ensures Midway(f, s, c, js).m == Relink(Midway(f, s, c, js + [j]).m, j)
  {
    Halfway(f, s, c, js + [j]);
    var ks := js + [j];
    assert ks[|ks| - 1] == j && ks[..|ks| - 1] == js;
    HeaderOffLinked(f, s, c);
    RelinkLast(f, HeaderOff(s, c), ks);
  }

  /** Node t of row i of column c is the next to go when Done(.., i, t) are gone. */
  lemma NextVictim(f: Shape, s: State, c: nat, i: nat, t: nat)
    requires Inv(f, s) && c in s.heads && c < |s.m| && SameColumn(f, |s.m|, s.rows[c], c)
    requires i < |s.rows[c]| && 1 <= t < |f.ring[s.rows[c][i]]|
    ensures Done(f, s.rows[c], i, t) <= Victims(f, s.rows[c])
    ensures f.ring[s.rows[c][i]][t] < |s.m|
    ensures Done(f, s.rows[c], i, t + 1) <= Victims(f, s.rows[c])
    ensures InRange(Midway(f, s, c, Done(f, s.rows[c], i, t)).m)
    ensures InRange(Midway(f, s, c, Done(f, s.rows[c], i, t + 1)).m)
    ensures Midway(f, s, c, Done(f, s.rows[c], i, t + 1)).m ==
            Unlink(Midway(f, s, c, Done(f, s.rows[c], i, t)).m, f.ring[s.rows[c][i]][t])
    ensures Midway(f, s, c, Done(f, s.rows[c], i, t)).m ==
            Relink(Midway(f, s, c, Done(f, s.rows[c], i, t + 1)).m, f.ring[s.rows[c][i]][t])
  {
    DonePrefix(f, s.rows[c], i, t);
    DonePrefix(f, s.rows[c], i, t + 1);
    MidwayStep(f, s, c, Done(f, s.rows[c], i, t), f.ring[s.rows[c][i]][t]);
  }

  lemma MidwayEnds(f: Shape, s: State, c: nat)
    requires Inv(f, s) && c in s.heads
    ensures c < |s.m| && c in s.rows && c in f.heads && InRange(s.m) && SameColumn(f, |s.m|, s.rows[c], c)
    ensures forall i :: 0 <= i < |s.rows[c]| ==>
              s.rows[c][i] != c && s.rows[c][i] in f.ring && |f.ring[s.rows[c][i]]| > 0
    ensures [] <= Victims(f, s.rows[c]) && Victims(f, []) == []
    ensures Midway(f, s, c, []).m == UnlinkHeader(s.m, c)
    ensures InRange(Midway(f, s, c, []).m)
    ensures Midway(f, s, c, Victims(f, s.rows[c])) == CoverState(f, s, c)
    ensures s.m == RelinkHeader(Midway(f, s, c, []).m, c)
  {
    HeaderOffLinked(f, s, c);
    VictimsRemovable(f, s, c);
    RelinkHeaderUndoes(s.m, c);
  }

  lemma ReadHeader(f: Shape, s: State, c: nat)
    requires Linked(f, s) && c in f.heads
    ensures c < |s.m|
    ensures s.m[c].down == (if s.rows[c] == [] then c else s.rows[c][0])
    ensures s.m[c].up == (if s.rows[c] == [] then c else s.rows[c][|s.rows[c]| - 1])
  {
    assert ColumnOk(f, s, c);
    var v := [c] + s.rows[c];
    assert s.m[v[0]].down == After(v, 0) && s.m[v[0]].up == Before(v, 0);
  }

  lemma ReadColumn(f: Shape, s: State, c: nat, i: nat)
    requires Linked(f, s) && c in f.heads && i < |s.rows[c]|
    ensures s.rows[c][i] < |s.m| && s.rows[c][i] != c
    ensures s.m[s.rows[c][i]].down == (if i + 1 < |s.rows[c]| then s.rows[c][i + 1] else c)
    ensures s.m[s.rows[c][i]].up == (if i > 0 then s.rows[c][i - 1] else c)
  {
    assert ColumnOk(f, s, c);
    var v := [c] + s.rows[c];
    assert v[i + 1] == s.rows[c][i];
    assert s.m[v[i + 1]].down == After(v, i + 1) && s.m[v[i + 1]].up == Before(v, i + 1);
  }

  lemma ReadRow(f: Shape, s: State, x: nat, i: nat)
    requires Linked(f, s) && x in f.ring && i < |f.ring[x]|
    ensures f.ring[x][0] == x < |s.m| && f.ring[x][i] < |s.m|
    ensures i + 1 < |f.ring[x]| ==> f.ring[x][i + 1] != x
    ensures i > 0 ==> f.ring[x][i] != x
    ensures f.ring[x][i] in f.col && s.m[f.ring[x][i]].col == f.col[f.ring[x][i]]
    ensures f.ring[x][i] in f.name && s.m[f.ring[x][i]].name == f.name[f.ring[x][i]]
    ensures s.m[f.ring[x][i]].right == (if i + 1 < |f.ring[x]| then f.ring[x][i + 1] else x)
    ensures s.m[f.ring[x][i]].left == (if i > 0 then f.ring[x][i - 1] else f.ring[x][|f.ring[x]| - 1])
  {
    assert RowLinked(f, s.m, x) && RowOk(f, x);
    assert s.m[f.ring[x][i]].right == After(f.ring[x], i);
    assert RowLinked(f, s.m, f.ring[x][i]);
  }

  lemma ReadHeads(f: Shape, s: State)
    requires Inv(f, s)
    ensures ROOT < |s.m| && s.m[ROOT].right == (if s.heads == [] then ROOT else s.heads[0])
    ensures s.m[ROOT].left == (if s.heads == [] then ROOT else s.heads[|s.heads| - 1])
    ensures s.heads != [] ==> s.m[s.heads[0]].right == (if 1 < |s.heads| then s.heads[1] else ROOT)
    ensures forall i :: 0 <= i < |s.heads| ==> s.heads[i] < |s.m| && s.heads[i] != ROOT
    ensures forall i :: 0 <= i < |s.heads| ==>
              s.m[s.heads[i]].right == (if i + 1 < |s.heads| then s.heads[i + 1] else ROOT)
  {
    var v := [ROOT] + s.heads;
    assert s.m[v[0]].right == After(v, 0) && s.m[v[0]].left == Before(v, 0);
    forall i | 0 <= i < |s.heads|
      ensures s.heads[i] < |s.m| && s.heads[i] != ROOT
      ensures s.m[s.heads[i]].right == (if i + 1 < |s.heads| then s.heads[i + 1] else ROOT)
    {
      assert v[i + 1] == s.heads[i];
      assert s.m[v[i + 1]].right == After(v, i + 1);
    }
    assert s.heads != [] ==> s.m[s.heads[0]].right == After(v, 1);
  }
}
