/** Stable sorting by a total preorder, as the program's `sorted` does it. */
module Sorting {

  ghost predicate IsPreorder<T(!new)>(le: (T, T) -> bool) {
    && (forall a, b :: le(a, b) || le(b, a))
    && (forall a, b, c :: le(a, b) && le(b, c) ==> le(a, c))
  }

  /** Things that are equal in rank are equal. */
  ghost predicate IsOrder<T(!new)>(le: (T, T) -> bool) {
    IsPreorder(le) && forall a, b :: le(a, b) && le(b, a) ==> a == b
  }

  function Insert<T>(le: (T, T) -> bool, x: T, s: seq<T>): seq<T> {
    if s == [] || le(x, s[0]) then [x] + s else [s[0]] + Insert(le, x, s[1..])
  }

  function Sort<T>(le: (T, T) -> bool, s: seq<T>): seq<T> {
    if s == [] then [] else Insert(le, s[0], Sort(le, s[1..]))
  }

  predicate Sorted<T>(le: (T, T) -> bool, s: seq<T>) {
    forall i, j :: 0 <= i < j < |s| ==> le(s[i], s[j])
  }

  lemma Through<T(!new)>(le: (T, T) -> bool, a: T, b: T, c: T)
    requires IsPreorder(le)
    ensures le(a, b) && le(b, c) ==> le(a, c)
    ensures le(a, b) || le(b, a)
  {
  }

  predicate AtMost<T>(le: (T, T) -> bool, x: T, s: seq<T>) {
    forall i :: 0 <= i < |s| ==> le(x, s[i])
  }

  lemma SortedParts<T>(le: (T, T) -> bool, s: seq<T>)
    requires s != []
    ensures Sorted(le, s) <==> AtMost(le, s[0], s[1..]) && Sorted(le, s[1..])
  {
    var t := s[1..];
    assert forall i :: 0 <= i < |t| ==> t[i] == s[i + 1];
    if AtMost(le, s[0], t) && Sorted(le, t) {
      forall i, j | 0 <= i < j < |s|
        ensures le(s[i], s[j])
      {
        assert s[j] == t[j - 1];
        assert i > 0 ==> s[i] == t[i - 1];
      }
    }
  }

  lemma {:induction false} InsertSorts<T(!new)>(le: (T, T) -> bool, x: T, s: seq<T>)
    requires IsPreorder(le) && Sorted(le, s)
    ensures Sorted(le, Insert(le, x, s)) && multiset(Insert(le, x, s)) == multiset{x} + multiset(s)
  {
    hide IsPreorder, Sorted;
    var t := Insert(le, x, s);
    SortedParts(le, t);
    if s == [] {
      assert Sorted(le, t[1..]) by { SortedNone(le, t[1..]); }
    } else if le(x, s[0]) {
      SortedParts(le, s);
      assert t[1..] == s;
      forall i | 0 <= i < |s|
        ensures le(x, s[i])
      {
        assert i > 0 ==> s[i] == s[1..][i - 1];
        Through(le, x, s[0], s[i]);
      }
    } else {
      SortedParts(le, s);
      InsertSorts(le, x, s[1..]);
      var rest := t[1..];
      assert rest == Insert(le, x, s[1..]) && s == [s[0]] + s[1..];
      Through(le, x, s[0], x);
      forall i | 0 <= i < |rest|
        ensures le(s[0], rest[i])
      {
        assert rest[i] in multiset(rest);
        assert rest[i] == x || rest[i] in s[1..];
      }
    }
  }

  lemma SortedNone<T>(le: (T, T) -> bool, s: seq<T>)
    requires |s| == 0
    ensures Sorted(le, s)
  {
  }

  lemma {:induction false} SortSorts<T(!new)>(le: (T, T) -> bool, s: seq<T>)
    requires IsPreorder(le)
    ensures Sorted(le, Sort(le, s)) && multiset(Sort(le, s)) == multiset(s)
  {
    hide IsPreorder;
    if s != [] {
      SortSorts(le, s[1..]);
      InsertSorts(le, s[0], Sort(le, s[1..]));
      assert s == [s[0]] + s[1..];
    }
  }

  /** A collection has one sorted form. */
  lemma {:induction false} SortedUnique<T(!new)>(le: (T, T) -> bool, s: seq<T>, t: seq<T>)
    requires IsOrder(le) && Sorted(le, s) && Sorted(le, t) && multiset(s) == multiset(t)
    ensures s == t
  {
    hide IsOrder, Sorted;
    if s == [] {
      assert |multiset(t)| == 0;
    } else {
      assert |multiset(t)| == |s|;
      SortedParts(le, s);
      SortedParts(le, t);
      SameFirst(le, s, t);
      TailElements(s);
      TailElements(t);
      SortedUnique(le, s[1..], t[1..]);
      assert s == [s[0]] + s[1..] && t == [t[0]] + t[1..];
    }
  }

  /** The elements of the rank of `x`, in order. */
  function Peers<T>(le: (T, T) -> bool, x: T, s: seq<T>): seq<T> {
    if s == [] then []
    else (if le(x, s[0]) && le(s[0], x) then [s[0]] else []) + Peers(le, x, s[1..])
  }

  lemma {:induction false} InsertStable<T(!new)>(le: (T, T) -> bool, x: T, y: T, s: seq<T>)
    requires IsPreorder(le)
    ensures Peers(le, x, Insert(le, y, s)) == Peers(le, x, [y]) + Peers(le, x, s)
  {
    hide IsPreorder;
    assert [y][1..] == [] && Peers(le, x, []) == [];
    if s == [] {
    } else if le(y, s[0]) {
      assert ([y] + s)[0] == y && ([y] + s)[1..] == s;
    } else {
      var t := [s[0]] + Insert(le, y, s[1..]);
      assert t[1..] == Insert(le, y, s[1..]);
      InsertStable(le, x, y, s[1..]);
      Through(le, y, x, s[0]);
    }
  }

  /** Sorting leaves what has one rank in the order it had. */
  lemma {:induction false} SortStable<T(!new)>(le: (T, T) -> bool, x: T, s: seq<T>)
    requires IsPreorder(le)
    ensures Peers(le, x, Sort(le, s)) == Peers(le, x, s)
  {
    hide IsPreorder;
    if s != [] {
      SortStable(le, x, s[1..]);
      InsertStable(le, x, s[0], Sort(le, s[1..]));
      assert [s[0]][1..] == [] && Peers(le, x, []) == [];
    }
  }

  lemma TailElements<T>(s: seq<T>)
    requires s != []
    ensures multiset(s[1..]) == multiset(s) - multiset{s[0]}
  {
    assert s == [s[0]] + s[1..];
  }

  lemma SameFirst<T(!new)>(le: (T, T) -> bool, s: seq<T>, t: seq<T>)
    requires IsOrder(le) && s != [] && t != [] && multiset(s) == multiset(t)
    requires AtMost(le, s[0], s[1..]) && AtMost(le, t[0], t[1..])
    ensures s[0] == t[0]
  {
    assert s[0] in multiset(t) && t[0] in multiset(s);
    var i :| 0 <= i < |t| && t[i] == s[0];
    var j :| 0 <= j < |s| && s[j] == t[0];
    assert i > 0 ==> t[i] == t[1..][i - 1];
    assert j > 0 ==> s[j] == s[1..][j - 1];
  }
}
