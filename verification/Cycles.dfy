/** Finite sequences without repetition, and their reading as cycles. */
module Cycles {

  ghost predicate NoDup<T>(s: seq<T>)
  {
    forall i, j :: 0 <= i < j < |s| ==> s[i] != s[j]
  }

  /** The element after, respectively before, position i when s is read as a cycle. */
  function After<T>(s: seq<T>, i: nat): T
    requires i < |s|
  {
    if i + 1 < |s| then s[i + 1] else s[0]
  }

  function Before<T>(s: seq<T>, i: nat): T
    requires i < |s|
  {
    if i > 0 then s[i - 1] else s[|s| - 1]
  }

  function RemoveAt<T>(s: seq<T>, k: nat): seq<T>
    requires k < |s|
  {
    s[..k] + s[k + 1..]
  }

  function IndexOf<T(==)>(s: seq<T>, x: T): (k: nat)
    requires x in s
    ensures k < |s| && s[k] == x
  {
    if s[0] == x then 0 else 1 + IndexOf(s[1..], x)
  }

  /** s without its first occurrence of x. */
  function Without<T(==)>(s: seq<T>, x: T): seq<T>
  {
    if x in s then RemoveAt(s, IndexOf(s, x)) else s
  }

  lemma WithoutMembers<T>(s: seq<T>, x: T)
    requires NoDup(s)
    ensures NoDup(Without(s, x))
    ensures forall y :: y in Without(s, x) <==> y in s && y != x
    ensures |Without(s, x)| == if x in s then |s| - 1 else |s|
  {
    if x in s {
      var k := IndexOf(s, x);
      var t := RemoveAt(s, k);
      forall y | y in s && y != x
        ensures y in t
      {
        var i :| 0 <= i < |s| && s[i] == y;
        if i < k {
          assert t[i] == y;
        } else {
          assert t[i - 1] == y;
        }
      }
    }
  }

  function Elements<T(==)>(s: seq<T>): set<T>
  {
    set x | x in s
  }

  lemma NoDupCons<T>(x: T, s: seq<T>)
    requires NoDup(s) && x !in s
    ensures NoDup([x] + s)
  {
  }

  lemma NoDupUncons<T>(x: T, s: seq<T>)
    requires NoDup([x] + s)
    ensures NoDup(s) && x !in s
  {
    forall i | 0 <= i < |s|
      ensures s[i] != x
      ensures forall j :: i < j < |s| ==> s[i] != s[j]
    {
      assert ([x] + s)[0] == x && ([x] + s)[i + 1] == s[i];
      assert forall j :: i < j < |s| ==> ([x] + s)[j + 1] == s[j];
    }
  }

  lemma ConsRemove<T>(x: T, s: seq<T>, k: nat)
    requires k < |s|
    ensures RemoveAt([x] + s, k + 1) == [x] + RemoveAt(s, k)
  {
  }

  lemma NoDupConcat<T>(s: seq<T>, t: seq<T>)
    requires NoDup(s) && NoDup(t) && forall i :: 0 <= i < |t| ==> t[i] !in s
    ensures NoDup(s + t)
  {
  }

  /** s without the elements of xs. */
  function WithoutAll<T(==)>(s: seq<T>, xs: seq<T>): seq<T>
  {
    if xs == [] then s else Without(WithoutAll(s, xs[..|xs| - 1]), xs[|xs| - 1])
  }

  lemma {:induction false} WithoutAllMembers<T>(s: seq<T>, xs: seq<T>)
    requires NoDup(s)
    ensures NoDup(WithoutAll(s, xs))
    ensures forall y :: y in WithoutAll(s, xs) <==> y in s && y !in xs
    ensures NoDup(xs) && (forall i :: 0 <= i < |xs| ==> xs[i] in s) ==> |WithoutAll(s, xs)| == |s| - |xs|
  {
    if xs != [] {
      var init, x := xs[..|xs| - 1], xs[|xs| - 1];
      assert xs == init + [x];
      WithoutAllMembers(s, init);
      WithoutMembers(WithoutAll(s, init), x);
    }
  }

  lemma {:induction false} CountElements<T>(s: seq<T>)
    ensures |Elements(s)| <= |s|
    ensures |Elements(s)| == |s| <==> NoDup(s)
  {
    if s != [] {
      var rest := s[1..];
      CountElements(rest);
      assert s == [s[0]] + rest;
      assert Elements(s) == {s[0]} + Elements(rest);
      if NoDup(s) {
        assert NoDup(rest);
        assert s[0] !in rest;
      } else if NoDup(rest) {
        assert s[0] in rest;
      }
    }
  }

  lemma {:induction false} SubsetIsSmaller<T>(a: set<T>, b: set<T>)
    requires a <= b
    ensures |a| <= |b|
    decreases |a|
  {
    if a != {} {
      var x :| x in a;
      SubsetIsSmaller(a - {x}, b - {x});
    }
  }
}
