/** The ordering facts the model needs about Python's `sorted`: a stable
    insertion sort over a caller-supplied "less or equal" test, and the one
    lemma every user relies on, that a strictly ordered arrangement of some
    elements is the only ordered one. */
module Sorting {

  ghost predicate TotalPreorder<T(!new)>(le: (T, T) -> bool) {
    && (forall x, y :: le(x, y) || le(y, x))
    && (forall x, y, z :: le(x, y) && le(y, z) ==> le(x, z))
  }

  ghost predicate Ordered<T>(le: (T, T) -> bool, s: seq<T>) {
    forall i, j :: 0 <= i < j < |s| ==> le(s[i], s[j])
  }

  /** Ordered, with no two elements comparing equal. */
  ghost predicate StrictlyOrdered<T>(le: (T, T) -> bool, s: seq<T>) {
    forall i, j :: 0 <= i < j < |s| ==> le(s[i], s[j]) && !le(s[j], s[i])
  }

  ghost predicate Distinct<T>(s: seq<T>) {
    forall i, j :: 0 <= i < j < |s| ==> s[i] != s[j]
  }

  lemma DistinctCons<T>(x: T, s: seq<T>)
    ensures Distinct([x] + s) <==> x !in s && Distinct(s)
  {
    var r := [x] + s;
    if Distinct(r) {
      forall i | 0 <= i < |s|
        ensures x != s[i]
      {
        assert r[0] != r[i + 1];
      }
      forall i, j | 0 <= i < j < |s|
        ensures s[i] != s[j]
      {
        assert r[i + 1] != r[j + 1];
      }
    }
    if x !in s && Distinct(s) {
      forall i, j | 0 <= i < j < |r|
        ensures r[i] != r[j]
      {
        assert r[j] == s[j - 1];
      }
    }
  }

  lemma DistinctConcat<T>(a: seq<T>, b: seq<T>)
    requires Distinct(a) && Distinct(b)
    requires forall x :: x in a ==> x !in b
    ensures Distinct(a + b)
  {
    forall i, j | 0 <= i < j < |a + b|
      ensures (a + b)[i] != (a + b)[j]
    {
      if i < |a| <= j {
        assert a[i] in a && b[j - |a|] in b;
      }
    }
  }

  function Insert<T>(le: (T, T) -> bool, x: T, s: seq<T>): seq<T> {
    if s == [] then [x]
    else if le(x, s[0]) then [x] + s
    else [s[0]] + Insert(le, x, s[1..])
  }

  function Sort<T>(le: (T, T) -> bool, s: seq<T>): seq<T> {
    if s == [] then [] else Insert(le, s[0], Sort(le, s[1..]))
  }

  lemma {:induction false} InsertAdds<T>(le: (T, T) -> bool, x: T, s: seq<T>)
    ensures multiset(Insert(le, x, s)) == multiset(s) + multiset{x}
  {
    if s != [] {
      assert s == [s[0]] + s[1..];
      InsertAdds(le, x, s[1..]);
    }
  }

  lemma {:induction false} SortRearranges<T>(le: (T, T) -> bool, s: seq<T>)
    ensures multiset(Sort(le, s)) == multiset(s)
    ensures |Sort(le, s)| == |s|
    ensures forall x :: x in Sort(le, s) <==> x in s
  {
    if s != [] {
      assert s == [s[0]] + s[1..];
      SortRearranges(le, s[1..]);
      InsertAdds(le, s[0], Sort(le, s[1..]));
    }
    SameElements(Sort(le, s), s);
  }

  lemma {:induction false} InsertOrdered<T(!new)>(le: (T, T) -> bool, x: T, s: seq<T>)
    requires TotalPreorder(le) && Ordered(le, s)
    ensures Ordered(le, Insert(le, x, s))
  {
    if s != [] && !le(x, s[0]) {
      InsertOrdered(le, x, s[1..]);
      InsertAdds(le, x, s[1..]);
      var r := Insert(le, x, s[1..]);
      forall j | 0 <= j < |r|
        ensures le(s[0], r[j])
      {
        assert r[j] in multiset(r);
        assert r[j] == x || r[j] in s[1..];
      }
    }
  }

  lemma {:induction false} SortOrdered<T(!new)>(le: (T, T) -> bool, s: seq<T>)
    requires TotalPreorder(le)
    ensures Ordered(le, Sort(le, s))
    ensures multiset(Sort(le, s)) == multiset(s)
  {
    SortRearranges(le, s);
    if s != [] {
      SortOrdered(le, s[1..]);
      InsertOrdered(le, s[0], Sort(le, s[1..]));
    }
  }

  /** Membership is all a multiset equation says about single elements. */
  lemma SameElements<T>(a: seq<T>, b: seq<T>)
    requires multiset(a) == multiset(b)
    ensures |a| == |b|
    ensures forall x :: x in a <==> x in b
  {
    assert |a| == |multiset(a)| == |multiset(b)| == |b|;
    forall x
      ensures x in a <==> x in b
    {
      assert x in a <==> x in multiset(a);
      assert x in b <==> x in multiset(b);
    }
  }

  lemma HeadIsLeast<T(!new)>(le: (T, T) -> bool, s: seq<T>, x: T)
    requires TotalPreorder(le) && Ordered(le, s)
    requires x in s
    ensures le(s[0], x)
  {}

  lemma TailMultiset<T>(s: seq<T>, t: seq<T>)
    requires multiset(s) == multiset(t)
    requires s != [] && t != [] && s[0] == t[0]
    ensures multiset(s[1..]) == multiset(t[1..])
  {
    assert s == [s[0]] + s[1..] && t == [t[0]] + t[1..];
    assert multiset(s[1..]) == multiset(s) - multiset{s[0]};
    assert multiset(t[1..]) == multiset(t) - multiset{t[0]};
  }

  /** The head of `a` stands somewhere in a rearrangement `b`; what is left of both
      is again a rearrangement. */
  lemma MatchHead<T>(a: seq<T>, b: seq<T>) returns (front: seq<T>, back: seq<T>)
    requires multiset(a) == multiset(b) && a != []
    ensures b == front + ([a[0]] + back)
    ensures multiset(a[1..]) == multiset(front + back)
  {
    SameElements(a, b);
    assert a[0] in a;
    var k :| 0 <= k < |b| && b[k] == a[0];
    front, back := b[..k], b[k + 1..];
    assert b == front + ([a[0]] + back);
    var moved := [a[0]] + (front + back);
    assert multiset(moved) == multiset(b);
    TailMultiset(a, moved);
    assert moved[1..] == front + back;
  }

  /** If `t` arranges the elements of `s` so that no two compare equal, then
      every ordered arrangement of them is `t`. */
  lemma {:induction false} OrderedIsUnique<T(!new)>(le: (T, T) -> bool, s: seq<T>, t: seq<T>)
    requires TotalPreorder(le)
    requires Ordered(le, s) && StrictlyOrdered(le, t)
    requires multiset(s) == multiset(t)
    ensures s == t
  {
    SameElements(s, t);
    if s != [] {
      HeadIsLeast(le, s, t[0]);
      assert s[0] in s;
      var k :| 0 <= k < |t| && t[k] == s[0];
      TailMultiset(s, t);
      OrderedIsUnique(le, s[1..], t[1..]);
    }
  }

  /** For an antisymmetric order the sorted form depends on the multiset only. */
  lemma {:induction false} OrderedByMultiset<T(!new)>(le: (T, T) -> bool, s: seq<T>, t: seq<T>)
    requires TotalPreorder(le)
    requires forall x, y :: le(x, y) && le(y, x) ==> x == y
    requires Ordered(le, s) && Ordered(le, t)
    requires multiset(s) == multiset(t)
    ensures s == t
  {
    SameElements(s, t);
    if s != [] {
      HeadIsLeast(le, s, t[0]);
      HeadIsLeast(le, t, s[0]);
      TailMultiset(s, t);
      OrderedByMultiset(le, s[1..], t[1..]);
    }
  }

  lemma SortByMultiset<T(!new)>(le: (T, T) -> bool, s: seq<T>, t: seq<T>)
    requires TotalPreorder(le)
    requires forall x, y :: le(x, y) && le(y, x) ==> x == y
    requires multiset(s) == multiset(t)
    ensures Sort(le, s) == Sort(le, t)
  {
    SortOrdered(le, s);
    SortOrdered(le, t);
    OrderedByMultiset(le, Sort(le, s), Sort(le, t));
  }

  function AtMost(a: nat, b: nat): bool { a <= b }

  /** Distinct numbers come out of the sort in strictly ascending order. */
  lemma SortDistinct(s: seq<nat>)
    requires Distinct(s)
    ensures var r := Sort(AtMost, s);
            && Distinct(r)
            && (forall i, j :: 0 <= i < j < |r| ==> r[i] < r[j])
            && (forall x :: x in r <==> x in s)
  {
    SortOrdered(AtMost, s);
    var r := Sort(AtMost, s);
    SameElements(s, r);
    forall i, j | 0 <= i < j < |r|
      ensures r[i] < r[j]
    {
      assert AtMost(r[i], r[j]);
      if r[i] == r[j] {
        DistinctCount(s, r[i]);
        RepeatedCount(r, i, j);
      }
    }
  }

  lemma {:induction false} DistinctCount<T>(s: seq<T>, x: T)
    requires Distinct(s)
    ensures multiset(s)[x] <= 1
  {
    if s != [] {
      assert s == [s[0]] + s[1..];
      DistinctCount(s[1..], x);
      if x == s[0] {
        assert x !in s[1..];
      }
    }
  }

  lemma RepeatedCount<T>(s: seq<T>, i: nat, j: nat)
    requires i < j < |s| && s[i] == s[j]
    ensures multiset(s)[s[i]] >= 2
  {
    assert s == s[..j] + s[j..];
    assert s[..j][i] == s[i] && s[j..][0] == s[i];
    assert s[i] in multiset(s[..j]) && s[i] in multiset(s[j..]);
  }
}
