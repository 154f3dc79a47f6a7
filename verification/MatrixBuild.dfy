/** How the linked matrix is put together: put_left, put_up and the nodes they link in. */
module MatrixBuild {
  import opened Cycles
  import opened LinkedMatrix

  function PutLeft(m: Pool, at: nat, nnew: nat): (r: Pool)
    requires InRange(m) && at < |m| && nnew < |m|
    ensures InRange(r) && |r| == |m|
  {
    var a := m[nnew := m[nnew].(left := m[at].left)];
    var b := a[nnew := a[nnew].(right := at)];
    var c := b[b[at].left := b[b[at].left].(right := nnew)];
    c[at := c[at].(left := nnew)]
  }

  function PutUp(m: Pool, at: nat, nnew: nat): (r: Pool)
    requires InRange(m) && at < |m| && nnew < |m|
    ensures InRange(r) && |r| == |m|
  {
    var a := m[nnew := m[nnew].(up := m[at].up)];
    var b := a[nnew := a[nnew].(down := at)];
    var c := b[b[at].up := b[b[at].up].(down := nnew)];
    var d := c[at := c[at].(up := nnew)];
    var e := d[at := d[at].(size := d[at].size + 1)];
    e[nnew := e[nnew].(col := at)]
  }

  /** A new header x, last in the header list. */
  function WithHeader(m: Pool, x: nat, name: nat): (r: Pool)
    requires InRange(m) && x < |m|
    ensures InRange(r) && |r| == |m|
  {
    PutLeft(m[x := Node(x, x, x, x, x, name, 0)], ROOT, x)
  }

  /** A new node x, last in column c. */
  function WithNode(m: Pool, x: nat, c: nat, name: nat): (r: Pool)
    requires InRange(m) && x < |m| && c < |m|
    ensures InRange(r) && |r| == |m|
  {
    PutUp(m[x := Node(x, x, x, x, c, name, 0)], c, x)
  }

  lemma WithHeaderEffect(m: Pool, x: nat, name: nat, i: nat)
    requires InRange(m) && x < |m| && i < |m| && x != ROOT && m[ROOT].left != x
    ensures var r, last := WithHeader(m, x, name), m[ROOT].left;
      && r[i].left == (if i == ROOT then x else if i == x then last else m[i].left)
      && r[i].right == (if i == last then x else if i == x then ROOT else m[i].right)
      && r[i].up == (if i == x then x else m[i].up) && r[i].down == (if i == x then x else m[i].down)
      && r[i].col == (if i == x then x else m[i].col) && r[i].name == (if i == x then name else m[i].name)
      && r[i].size == (if i == x then 0 else m[i].size)
  {
  }

  lemma WithNodeEffect(m: Pool, x: nat, c: nat, name: nat, i: nat)
    requires InRange(m) && x < |m| && c < |m| && i < |m| && x != c && m[c].up != x
    ensures var r, last := WithNode(m, x, c, name), m[c].up;
      && r[i].up == (if i == c then x else if i == x then last else m[i].up)
      && r[i].down == (if i == last then x else if i == x then c else m[i].down)
      && r[i].left == (if i == x then x else m[i].left) && r[i].right == (if i == x then x else m[i].right)
      && r[i].col == (if i == x then c else m[i].col) && r[i].name == (if i == x then name else m[i].name)
      && r[i].size == (if i == x then 0 else m[i].size) + (if i == c then 1 else 0)
  {
  }

  // ---------- a header more ----------

  ghost predicate Fresh(f: Shape, s: State, x: nat)
  {
    x < |s.m| && x != ROOT && x !in f.heads && x !in f.ring
  }

  ghost function AddHeader(s: State, x: nat, name: nat): State
    requires InRange(s.m) && x < |s.m|
  {
    State(WithHeader(s.m, x, name), s.heads + [x], s.rows[x := []])
  }

  ghost function HeaderShape(f: Shape, x: nat): Shape
  {
    f.(heads := f.heads + {x})
  }

  lemma HeaderAppendRing(m: Pool, heads: seq<nat>, x: nat, name: nat)
    requires InRange(m) && x < |m| && x != ROOT && x !in heads && NoDup(heads) && ROOT !in heads
    requires HorizontalRing(m, [ROOT] + heads)
    ensures m[ROOT].left != x
    ensures HorizontalRing(WithHeader(m, x, name), [ROOT] + (heads + [x]))
  {
    var v := [ROOT] + heads;
    assert m[v[0]].left == Before(v, 0);
    assert v[|v| - 1] == (if heads == [] then ROOT else heads[|heads| - 1]);
    var t := [ROOT] + (heads + [x]);
    forall i | 0 <= i < |t|
      ensures t[i] < |m|
      ensures WithHeader(m, x, name)[t[i]].right == After(t, i)
      ensures WithHeader(m, x, name)[t[i]].left == Before(t, i)
    {
      if i < |v| {
        assert t[i] == v[i];
        assert m[v[i]].right == After(v, i) && m[v[i]].left == Before(v, i);
        assert i > 0 ==> v[i] == heads[i - 1];
        assert i < |v| - 1 ==> v[i] != v[|v| - 1];
      }
      WithHeaderEffect(m, x, name, t[i]);
    }
  }

  /** No ring, column or header list of a linked matrix mentions a fresh node. */
  lemma FreshUnused(f: Shape, s: State, x: nat)
    requires Linked(f, s) && Fresh(f, s, x)
    ensures x !in s.heads && s.m[ROOT].left != x
    ensures forall c :: c in f.heads ==> c in s.rows && c < |s.m| && x !in [c] + s.rows[c] && s.m[c].up != x
    ensures forall y :: y in f.ring ==> x !in f.ring[y]
  {
    ReadHeadLinks(f, s);
    forall c | c in f.heads
      ensures x !in [c] + s.rows[c] && s.m[c].up != x
    {
      assert ColumnOk(f, s, c);
      ReadHeader(f, s, c);
      assert s.rows[c] != [] ==> s.rows[c][|s.rows[c]| - 1] in f.ring;
    }
    forall y | y in f.ring
      ensures x !in f.ring[y]
    {
      assert RowOk(f, y);
    }
  }

  lemma ReadHeadLinks(f: Shape, s: State)
    requires Linked(f, s)
    ensures s.m[ROOT].left == (if s.heads == [] then ROOT else s.heads[|s.heads| - 1])
  {
    var v := [ROOT] + s.heads;
    assert s.m[v[0]].left == Before(v, 0);
  }

  lemma NewHeaderColumn(f: Shape, s: State, x: nat, name: nat, d: nat)
    requires InRange(s.m) && x < |s.m| && x != ROOT && s.m[ROOT].left != x
    requires d == x || (d in s.rows && ColumnOk(f, s, d) && x !in [d] + s.rows[d])
    ensures ColumnOk(HeaderShape(f, x), AddHeader(s, x, name), d)
  {
    var r := AddHeader(s, x, name);
    WithHeaderEffect(s.m, x, name, d);
    if d != x {
      var v := [d] + s.rows[d];
      forall i | 0 <= i < |v|
        ensures r.m[v[i]].down == s.m[v[i]].down && r.m[v[i]].up == s.m[v[i]].up
      {
        WithHeaderEffect(s.m, x, name, v[i]);
      }
      VerticalFrame(s.m, r.m, v);
    } else {
      assert [x] + r.rows[x] == [x];
    }
  }

  lemma NewHeaderRow(f: Shape, s: State, x: nat, name: nat, y: nat)
    requires Linked(f, s) && x < |s.m| && x != ROOT && s.m[ROOT].left != x && s.m[ROOT].left !in f.ring
    requires y in f.ring && x !in f.ring[y] && x != y
    ensures RowLinked(HeaderShape(f, x), WithHeader(s.m, x, name), y)
  {
    assert RowOk(f, y) && RowLinked(f, s.m, y);
    var r := WithHeader(s.m, x, name);
    forall i | 0 <= i < |f.ring[y]|
      ensures r[f.ring[y][i]].left == s.m[f.ring[y][i]].left && r[f.ring[y][i]].right == s.m[f.ring[y][i]].right
    {
      WithHeaderEffect(s.m, x, name, f.ring[y][i]);
      assert f.ring[y][i] != x && f.ring[y][i] in f.ring;
    }
    HorizontalFrame(s.m, r, f.ring[y]);
    WithHeaderEffect(s.m, x, name, y);
  }

  lemma HeaderShapeOk(f: Shape, n: nat, x: nat)
    requires WellShaped(f, n) && x < n && x != ROOT && x !in f.ring
    ensures WellShaped(HeaderShape(f, x), n)
  {
    var g := HeaderShape(f, x);
    forall y | y in g.ring
      ensures RowOk(g, y)
    {
      assert RowOk(f, y);
    }
  }

  lemma AddHeaderLinked(f: Shape, s: State, x: nat, name: nat)
    requires Linked(f, s) && Fresh(f, s, x)
    ensures Linked(HeaderShape(f, x), AddHeader(s, x, name))
  {
    var g, r := HeaderShape(f, x), AddHeader(s, x, name);
    FreshUnused(f, s, x);
    HeaderShapeOk(f, |s.m|, x);
    HeaderAppendRing(s.m, s.heads, x, name);
    ReadHeadLinks(f, s);
    forall d | d in g.heads
      ensures ColumnOk(g, r, d)
    {
      assert d != x ==> ColumnOk(f, s, d);
      NewHeaderColumn(f, s, x, name, d);
    }
    forall y | y in g.ring
      ensures RowLinked(g, r.m, y)
    {
      NewHeaderRow(f, s, x, name, y);
    }
  }

  // ---------- a node more ----------

  ghost function AddNode(s: State, x: nat, c: nat, name: nat): State
    requires InRange(s.m) && x < |s.m| && c < |s.m| && c in s.rows
  {
    State(WithNode(s.m, x, c, name), s.heads, s.rows[c := s.rows[c] + [x]])
  }

  /** The new node is a row of its own until put_left joins it to others. */
  ghost function NodeShape(f: Shape, x: nat, c: nat, name: nat): Shape
  {
    Shape(f.heads, f.ring[x := [x]], f.col[x := c], f.name[x := name])
  }

  lemma NodeShapeOk(f: Shape, n: nat, x: nat, c: nat, name: nat)
    requires WellShaped(f, n) && x < n && x != ROOT && x !in f.ring && x !in f.heads && c in f.heads
    requires forall y :: y in f.ring ==> x !in f.ring[y]
    ensures WellShaped(NodeShape(f, x, c, name), n)
  {
    var g := NodeShape(f, x, c, name);
    forall y | y in g.ring
      ensures RowOk(g, y)
    {
      if y != x {
        assert RowOk(f, y);
        assert forall i :: 0 <= i < |f.ring[y]| ==> f.ring[y][i] in f.ring[y];
      }
    }
  }

  lemma ColumnAppendRing(m: Pool, xs: seq<nat>, x: nat, c: nat, name: nat)
    requires InRange(m) && x < |m| && c < |m| && x !in [c] + xs && NoDup([c] + xs) && m[c].up != x
    requires VerticalRing(m, [c] + xs)
    ensures VerticalRing(WithNode(m, x, c, name), [c] + (xs + [x]))
  {
    var v := [c] + xs;
    assert v[0] == c && x != v[0];
    assert m[v[0]].up == Before(v, 0);
    assert v[|v| - 1] == (if xs == [] then c else xs[|xs| - 1]);
    var t := [c] + (xs + [x]);
    forall i | 0 <= i < |t|
      ensures t[i] < |m|
      ensures WithNode(m, x, c, name)[t[i]].down == After(t, i)
      ensures WithNode(m, x, c, name)[t[i]].up == Before(t, i)
    {
      if i < |v| {
        assert t[i] == v[i];
        assert m[v[i]].down == After(v, i) && m[v[i]].up == Before(v, i);
        assert i < |v| - 1 ==> v[i] != v[|v| - 1];
        assert i > 0 ==> v[i] != v[0];
      }
      WithNodeEffect(m, x, c, name, t[i]);
    }
  }

  lemma NewNodeOwn(f: Shape, s: State, x: nat, c: nat, name: nat)
    requires InRange(s.m) && x < |s.m| && c < |s.m| && c in s.rows && ColumnOk(f, s, c) && s.m[c].up != x
    requires x !in [c] + s.rows[c] && c !in f.col
    ensures ColumnOk(NodeShape(f, x, c, name), AddNode(s, x, c, name), c)
  {
    var xs := s.rows[c];
    assert ([c] + xs)[0] == c;
    assert forall i :: 0 <= i < |xs| ==> ([c] + xs)[i + 1] == xs[i];
    NoDupCons(c, xs);
    ColumnAppendRing(s.m, xs, x, c, name);
    WithNodeEffect(s.m, x, c, name, c);
  }

  lemma NewNodeOther(f: Shape, s: State, x: nat, c: nat, name: nat, d: nat)
    requires InRange(s.m) && x < |s.m| && c < |s.m| && c in s.rows && d in s.rows && d != c
    requires ColumnOk(f, s, c) && ColumnOk(f, s, d) && x != c && s.m[c].up != x && s.m[c].up in [c] + s.rows[c]
    requires x !in [d] + s.rows[d] && d !in f.col && c !in f.col
    ensures ColumnOk(NodeShape(f, x, c, name), AddNode(s, x, c, name), d)
  {
    var r := AddNode(s, x, c, name);
    var v := [d] + s.rows[d];
    forall i | 0 <= i < |v|
      ensures r.m[v[i]].down == s.m[v[i]].down && r.m[v[i]].up == s.m[v[i]].up
    {
      WithNodeEffect(s.m, x, c, name, v[i]);
      assert i > 0 ==> v[i] == s.rows[d][i - 1];
      assert v[i] != x;
    }
    VerticalFrame(s.m, r.m, v);
    assert v[0] == d;
    WithNodeEffect(s.m, x, c, name, d);
    assert forall i :: 0 <= i < |s.rows[d]| ==> v[i + 1] == s.rows[d][i];
  }

  lemma NewNodeRow(f: Shape, s: State, x: nat, c: nat, name: nat, y: nat)
    requires Linked(f, s) && x < |s.m| && c < |s.m| && x != c && s.m[c].up != x
    requires y == x || (y in f.ring && x !in f.ring[y])
    ensures y in NodeShape(f, x, c, name).ring && RowLinked(NodeShape(f, x, c, name), WithNode(s.m, x, c, name), y)
  {
    var r := WithNode(s.m, x, c, name);
    WithNodeEffect(s.m, x, c, name, y);
    if y != x {
      assert RowLinked(f, s.m, y);
      forall i | 0 <= i < |f.ring[y]|
        ensures r[f.ring[y][i]].left == s.m[f.ring[y][i]].left && r[f.ring[y][i]].right == s.m[f.ring[y][i]].right
      {
        WithNodeEffect(s.m, x, c, name, f.ring[y][i]);
        assert f.ring[y][i] != x;
      }
      HorizontalFrame(s.m, r, f.ring[y]);
    }
  }

  lemma AddNodeColumns(f: Shape, s: State, x: nat, c: nat, name: nat, d: nat)
    requires Linked(f, s) && Fresh(f, s, x) && c in f.heads && d in f.heads
    ensures c in s.rows && c < |s.m| && d in s.rows
    ensures ColumnOk(NodeShape(f, x, c, name), AddNode(s, x, c, name), d)
  {
    FreshUnused(f, s, x);
    assert ColumnOk(f, s, c) && ColumnOk(f, s, d);
    ReadHeader(f, s, c);
    if d == c {
      NewNodeOwn(f, s, x, c, name);
    } else {
      assert s.m[c].up in [c] + s.rows[c];
      NewNodeOther(f, s, x, c, name, d);
    }
  }

  lemma NewNodeHeads(f: Shape, s: State, x: nat, c: nat, name: nat)
    requires InRange(s.m) && HorizontalRing(s.m, [ROOT] + s.heads) && x != ROOT && x !in s.heads
    requires x < |s.m| && c < |s.m| && x != c && s.m[c].up != x
    ensures HorizontalRing(WithNode(s.m, x, c, name), [ROOT] + s.heads)
  {
    var v := [ROOT] + s.heads;
    var r := WithNode(s.m, x, c, name);
    forall i | 0 <= i < |v|
      ensures r[v[i]].left == s.m[v[i]].left && r[v[i]].right == s.m[v[i]].right
    {
      WithNodeEffect(s.m, x, c, name, v[i]);
      assert i > 0 ==> v[i] == s.heads[i - 1];
    }
    HorizontalFrame(s.m, r, v);
  }

  /** The parts of Linked, one by one. */
  lemma LinkedParts(f: Shape, s: State)
    requires Linked(f, s)
    ensures InRange(s.m) && WellShaped(f, |s.m|)
    ensures NoDup(s.heads) && forall i :: 0 <= i < |s.heads| ==> s.heads[i] in f.heads
    ensures HorizontalRing(s.m, [ROOT] + s.heads)
    ensures s.rows.Keys == f.heads && forall c :: c in f.heads ==> c < |s.m|
  {
  }

  lemma LinkedFrom(f: Shape, s: State)
    requires InRange(s.m) && WellShaped(f, |s.m|)
    requires NoDup(s.heads) && forall i :: 0 <= i < |s.heads| ==> s.heads[i] in f.heads
    requires HorizontalRing(s.m, [ROOT] + s.heads)
    requires s.rows.Keys == f.heads
    requires forall c {:trigger ColumnOk(f, s, c)} :: c in f.heads ==> ColumnOk(f, s, c)
    requires forall x {:trigger RowLinked(f, s.m, x)} :: x in f.ring ==> x in f.col && x in f.name && RowLinked(f, s.m, x)
    ensures Linked(f, s)
  {
  }

  lemma AddNodeLinked(f: Shape, s: State, x: nat, c: nat, name: nat)
    requires Linked(f, s) && Fresh(f, s, x) && c in f.heads
    ensures c in s.rows && c < |s.m| && x < |s.m|
    ensures Linked(NodeShape(f, x, c, name), AddNode(s, x, c, name))
  {
    LinkedParts(f, s);
    FreshUnused(f, s, x);
    NodeShapeOk(f, |s.m|, x, c, name);
    var g, r := NodeShape(f, x, c, name), AddNode(s, x, c, name);
    assert g.heads == f.heads && r.heads == s.heads && r.rows.Keys == s.rows.Keys && x != c && x != ROOT;
    assert |r.m| == |s.m| && InRange(r.m) && r.m == WithNode(s.m, x, c, name);
    assert forall y :: y in g.ring ==> y == x || (y in f.ring && x !in f.ring[y]);
    AddNodeAssemble(f, s, x, c, name);
  }

  lemma AddNodeAssemble(f: Shape, s: State, x: nat, c: nat, name: nat)
    requires Linked(f, s) && Fresh(f, s, x) && c in f.heads
    requires c in s.rows && c < |s.m| && x < |s.m| && x != c && x != ROOT && x !in s.heads && s.m[c].up != x
    requires forall y :: y in f.ring ==> x !in f.ring[y]
    requires WellShaped(NodeShape(f, x, c, name), |s.m|)
    ensures Linked(NodeShape(f, x, c, name), AddNode(s, x, c, name))
  {
    hide Linked, WellShaped, InRange, NoDup, HorizontalRing, WithNode, ColumnOk, RowLinked, Fresh;
    LinkedParts(f, s);
    var g, r := NodeShape(f, x, c, name), AddNode(s, x, c, name);
    forall d | d in g.heads
      ensures d in r.rows && ColumnOk(g, r, d)
    {
      AddNodeColumns(f, s, x, c, name, d);
    }
    forall y | y in g.ring
      ensures y in g.col && y in g.name && RowLinked(g, r.m, y)
    {
      NewNodeRow(f, s, x, c, name, y);
    }
    NewNodeHeads(f, s, x, c, name);
    LinkedFrom(g, r);
  }

  // ---------- four nodes become one row ----------

  function JoinRow(m: Pool, a: nat, b: nat, c: nat, d: nat): (r: Pool)
    requires InRange(m) && a < |m| && b < |m| && c < |m| && d < |m|
    ensures InRange(r) && |r| == |m|
  {
    PutLeft(PutLeft(PutLeft(m, a, b), a, c), a, d)
  }

  lemma PutLeftEffect(m: Pool, at: nat, nnew: nat, i: nat)
    requires InRange(m) && at < |m| && nnew < |m| && i < |m| && nnew != at && m[at].left != nnew
    ensures var r, last := PutLeft(m, at, nnew), m[at].left;
      && r[i].left == (if i == at then nnew else if i == nnew then last else m[i].left)
      && r[i].right == (if i == last then nnew else if i == nnew then at else m[i].right)
      && r[i].up == m[i].up && r[i].down == m[i].down && r[i].col == m[i].col
      && r[i].name == m[i].name && r[i].size == m[i].size
  {
  }

  ghost predicate Lone(m: Pool, x: nat)
  {
    x < |m| && m[x].left == x && m[x].right == x
  }

  ghost predicate Distinct4(a: nat, b: nat, c: nat, d: nat)
  {
    a != b && a != c && a != d && b != c && b != d && c != d
  }

  lemma JoinRowEffect(m: Pool, a: nat, b: nat, c: nat, d: nat, i: nat)
    requires InRange(m) && Lone(m, a) && Lone(m, b) && Lone(m, c) && Lone(m, d) && Distinct4(a, b, c, d)
    requires i < |m|
    ensures var r := JoinRow(m, a, b, c, d);
      && r[i].right == (if i == a then b else if i == b then c else if i == c then d else if i == d then a else m[i].right)
      && r[i].left == (if i == a then d else if i == b then a else if i == c then b else if i == d then c else m[i].left)
      && r[i].up == m[i].up && r[i].down == m[i].down && r[i].col == m[i].col
      && r[i].name == m[i].name && r[i].size == m[i].size
  {
    var m1 := PutLeft(m, a, b);
    PutLeftEffect(m, a, b, a);
    PutLeftEffect(m, a, b, b);
    PutLeftEffect(m, a, b, c);
    PutLeftEffect(m, a, b, d);
    PutLeftEffect(m, a, b, i);
    var m2 := PutLeft(m1, a, c);
    PutLeftEffect(m1, a, c, a);
    PutLeftEffect(m1, a, c, i);
    PutLeftEffect(m2, a, d, i);
  }

  ghost function JoinState(s: State, a: nat, b: nat, c: nat, d: nat): State
    requires InRange(s.m) && a < |s.m| && b < |s.m| && c < |s.m| && d < |s.m|
  {
    State(JoinRow(s.m, a, b, c, d), s.heads, s.rows)
  }

  ghost function JoinShape(f: Shape, a: nat, b: nat, c: nat, d: nat): Shape
  {
    f.(ring := f.ring[a := [a, b, c, d]][b := [b, c, d, a]][c := [c, d, a, b]][d := [d, a, b, c]])
  }

  /** a, b, c and d are rows of their own in four different columns. */
  ghost predicate Joinable(f: Shape, a: nat, b: nat, c: nat, d: nat)
  {
    && Distinct4(a, b, c, d)
    && a in f.ring && b in f.ring && c in f.ring && d in f.ring
    && f.ring[a] == [a] && f.ring[b] == [b] && f.ring[c] == [c] && f.ring[d] == [d]
    && a in f.col && b in f.col && c in f.col && d in f.col
    && Distinct4(f.col[a], f.col[b], f.col[c], f.col[d])
  }

  lemma OldRowApart(f: Shape, n: nat, x: nat, y: nat)
    requires WellShaped(f, n) && x in f.ring && f.ring[x] == [x] && y in f.ring && y != x
    ensures x !in f.ring[y]
  {
    assert RowOk(f, y);
  }

  lemma JoinedRowOk(g: Shape, a: nat, b: nat, c: nat, d: nat)
    requires g.col.Keys == g.ring.Keys && a in g.ring && b in g.ring && c in g.ring && d in g.ring
    requires Distinct4(a, b, c, d) && Distinct4(g.col[a], g.col[b], g.col[c], g.col[d])
    requires g.ring[a] == [a, b, c, d] && g.ring[b] == [b, c, d, a]
    requires g.ring[c] == [c, d, a, b] && g.ring[d] == [d, a, b, c]
    ensures RowOk(g, a)
  {
  }

  lemma UntouchedRowOk(f: Shape, n: nat, a: nat, b: nat, c: nat, d: nat, y: nat)
    requires WellShaped(f, n) && Joinable(f, a, b, c, d) && y in f.ring && y !in [a, b, c, d]
    ensures f.ring.Keys == JoinShape(f, a, b, c, d).ring.Keys && RowOk(JoinShape(f, a, b, c, d), y)
  {
    var g := JoinShape(f, a, b, c, d);
    assert g.ring.Keys == f.ring.Keys;
    assert RowOk(f, y);
    OldRowApart(f, n, a, y);
    OldRowApart(f, n, b, y);
    OldRowApart(f, n, c, y);
    OldRowApart(f, n, d, y);
    forall i | 0 <= i < |f.ring[y]|
      ensures f.ring[y][i] in f.ring && g.ring[f.ring[y][i]] == f.ring[f.ring[y][i]]
    {
      assert f.ring[y][i] in f.ring[y];
    }
  }

  lemma FourRowsOk(g: Shape, a: nat, b: nat, c: nat, d: nat, y: nat)
    requires g.col.Keys == g.ring.Keys && a in g.ring && b in g.ring && c in g.ring && d in g.ring
    requires Distinct4(a, b, c, d) && Distinct4(g.col[a], g.col[b], g.col[c], g.col[d])
    requires g.ring[a] == [a, b, c, d] && g.ring[b] == [b, c, d, a]
    requires g.ring[c] == [c, d, a, b] && g.ring[d] == [d, a, b, c]
    requires y in [a, b, c, d]
    ensures RowOk(g, y)
  {
    hide RowOk;
    JoinedRowOk(g, a, b, c, d);
    JoinedRowOk(g, b, c, d, a);
    JoinedRowOk(g, c, d, a, b);
    JoinedRowOk(g, d, a, b, c);
  }

  lemma JoinShapeOk(f: Shape, n: nat, a: nat, b: nat, c: nat, d: nat)
    requires WellShaped(f, n) && Joinable(f, a, b, c, d)
    ensures WellShaped(JoinShape(f, a, b, c, d), n)
  {
    hide RowOk;
    var g := JoinShape(f, a, b, c, d);
    assert g.ring.Keys == f.ring.Keys;
    forall y | y in g.ring
      ensures RowOk(g, y)
    {
      if y in [a, b, c, d] {
        FourRowsOk(g, a, b, c, d, y);
      } else {
        UntouchedRowOk(f, n, a, b, c, d, y);
      }
    }
  }

  lemma LoneRow(f: Shape, s: State, x: nat)
    requires Linked(f, s) && x in f.ring && f.ring[x] == [x]
    ensures Lone(s.m, x)
  {
    assert RowLinked(f, s.m, x);
    assert s.m[f.ring[x][0]].right == After(f.ring[x], 0) && s.m[f.ring[x][0]].left == Before(f.ring[x], 0);
  }

  lemma JoinedRing(m: Pool, a: nat, b: nat, c: nat, d: nat)
    requires InRange(m) && Lone(m, a) && Lone(m, b) && Lone(m, c) && Lone(m, d) && Distinct4(a, b, c, d)
    ensures HorizontalRing(JoinRow(m, a, b, c, d), [a, b, c, d])
    ensures HorizontalRing(JoinRow(m, a, b, c, d), [b, c, d, a])
    ensures HorizontalRing(JoinRow(m, a, b, c, d), [c, d, a, b])
    ensures HorizontalRing(JoinRow(m, a, b, c, d), [d, a, b, c])
  {
    hide JoinRow;
    JoinRowEffect(m, a, b, c, d, a);
    JoinRowEffect(m, a, b, c, d, b);
    JoinRowEffect(m, a, b, c, d, c);
    JoinRowEffect(m, a, b, c, d, d);
  }

  lemma JoinRowLinked(f: Shape, s: State, a: nat, b: nat, c: nat, d: nat, y: nat)
    requires Linked(f, s) && Joinable(f, a, b, c, d) && y in f.ring
    requires Lone(s.m, a) && Lone(s.m, b) && Lone(s.m, c) && Lone(s.m, d)
    ensures RowLinked(JoinShape(f, a, b, c, d), JoinRow(s.m, a, b, c, d), y)
  {
    hide JoinRow;
    var g, r := JoinShape(f, a, b, c, d), JoinRow(s.m, a, b, c, d);
    assert RowLinked(f, s.m, y);
    JoinRowEffect(s.m, a, b, c, d, y);
    if y in [a, b, c, d] {
      JoinedRing(s.m, a, b, c, d);
    } else {
      OldRowApart(f, |s.m|, a, y);
      OldRowApart(f, |s.m|, b, y);
      OldRowApart(f, |s.m|, c, y);
      OldRowApart(f, |s.m|, d, y);
      forall i | 0 <= i < |f.ring[y]|
        ensures r[f.ring[y][i]].left == s.m[f.ring[y][i]].left && r[f.ring[y][i]].right == s.m[f.ring[y][i]].right
      {
        JoinRowEffect(s.m, a, b, c, d, f.ring[y][i]);
        assert f.ring[y][i] in f.ring[y];
      }
      HorizontalFrame(s.m, r, f.ring[y]);
    }
  }

  lemma JoinLinked(f: Shape, s: State, a: nat, b: nat, c: nat, d: nat)
    requires Linked(f, s) && Joinable(f, a, b, c, d)
    ensures a < |s.m| && b < |s.m| && c < |s.m| && d < |s.m|
    ensures Linked(JoinShape(f, a, b, c, d), JoinState(s, a, b, c, d))
  {
    LoneRow(f, s, a);
    LoneRow(f, s, b);
    LoneRow(f, s, c);
    LoneRow(f, s, d);
    var g, r := JoinShape(f, a, b, c, d), JoinState(s, a, b, c, d);
    JoinShapeOk(f, |s.m|, a, b, c, d);
    forall y | y in g.ring
      ensures RowLinked(g, r.m, y)
    {
      JoinRowLinked(f, s, a, b, c, d, y);
    }
    JoinColumnsHeads(f, s, a, b, c, d);
  }

  lemma JoinColumnsHeads(f: Shape, s: State, a: nat, b: nat, c: nat, d: nat)
    requires Linked(f, s) && Joinable(f, a, b, c, d)
    requires Lone(s.m, a) && Lone(s.m, b) && Lone(s.m, c) && Lone(s.m, d)
    ensures HorizontalRing(JoinRow(s.m, a, b, c, d), [ROOT] + s.heads)
    ensures forall e {:trigger ColumnOk(JoinShape(f, a, b, c, d), JoinState(s, a, b, c, d), e)} ::
              e in f.heads ==> ColumnOk(JoinShape(f, a, b, c, d), JoinState(s, a, b, c, d), e)
  {
    var g, r := JoinShape(f, a, b, c, d), JoinState(s, a, b, c, d);
    var v := [ROOT] + s.heads;
    forall i | 0 <= i < |v|
      ensures r.m[v[i]].left == s.m[v[i]].left && r.m[v[i]].right == s.m[v[i]].right
    {
      JoinRowEffect(s.m, a, b, c, d, v[i]);
      assert i > 0 ==> v[i] == s.heads[i - 1];
    }
    HorizontalFrame(s.m, r.m, v);
    forall e | e in f.heads
      ensures ColumnOk(g, r, e)
    {
      assert ColumnOk(f, s, e);
      forall i | 0 <= i < |s.m|
        ensures r.m[i].down == s.m[i].down && r.m[i].up == s.m[i].up && r.m[i].size == s.m[i].size
      {
        JoinRowEffect(s.m, a, b, c, d, i);
      }
      VerticalFrame(s.m, r.m, [e] + s.rows[e]);
    }
  }

  // ---------- nothing is covered yet ----------

  /** Every header is linked and every node is in its column. */
  ghost predicate Full(f: Shape, s: State)
  {
    && s.rows.Keys == f.heads && f.col.Keys == f.ring.Keys
    && (forall c :: c in f.heads ==> c in s.heads)
    && (forall x {:trigger f.col[x]} :: x in f.ring ==> f.col[x] in s.rows && x in s.rows[f.col[x]])
  }

  lemma FullInv(f: Shape, s: State)
    requires Linked(f, s) && Full(f, s)
    ensures Inv(f, s)
  {
    forall c, x | c in s.heads
      ensures x in s.rows[c] <==> x in f.ring && x in f.col && f.col[x] == c && Active(f, s.heads, x)
    {
      assert ColumnOk(f, s, c);
      if x in f.ring {
        assert RowOk(f, x);
        assert Active(f, s.heads, x);
      }
    }
  }
}
