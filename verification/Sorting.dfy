/** Sorting by a total preorder, and when its outcome is unique. */
module Sorting {

  ghost predicate TotalPreorder<T(!new)>(leq: (T, T) -> bool) {
    && (forall a, b :: leq(a, b) || leq(b, a))
    && (forall a, b, c :: leq(a, b) && leq(b, c) ==> leq(a, c))
  }

  predicate SortedBy<T>(leq: (T, T) -> bool, s: seq<T>) {
    forall i, j :: 0 <= i < j < |s| ==> leq(s[i], s[j])
  }

  /** leq separates any two different members of s. */
  ghost predicate Separates<T>(leq: (T, T) -> bool, s: seq<T>) {
    forall x, y :: x in s && y in s && leq(x, y) && leq(y, x) ==> x == y
  }

  function InsertBy<T>(leq: (T, T) -> bool, x: T, s: seq<T>): seq<T> {
    if s == [] || leq(x, s[0]) then [x] + s else [s[0]] + InsertBy(leq, x, s[1..])
  }

  function SortBy<T>(leq: (T, T) -> bool, s: seq<T>): seq<T> {
    if s == [] then [] else InsertBy(leq, s[0], SortBy(leq, s[1..]))
  }

  lemma {:induction false} InsertByKeeps<T>(leq: (T, T) -> bool, x: T, s: seq<T>)
    ensures multiset(InsertBy(leq, x, s)) == multiset{x} + multiset(s)
  {
    if s != [] && !leq(x, s[0]) {
      InsertByKeeps(leq, x, s[1..]);
      assert s == [s[0]] + s[1..];
    }
  }

  lemma {:induction false} InsertByBelow<T>(leq: (T, T) -> bool, x: T, s: seq<T>, y: T)
    requires leq(y, x) && forall i :: 0 <= i < |s| ==> leq(y, s[i])
    ensures forall i :: 0 <= i < |InsertBy(leq, x, s)| ==> leq(y, InsertBy(leq, x, s)[i])
  {
    if s != [] && !leq(x, s[0]) {
      InsertByBelow(leq, x, s[1..], y);
    }
  }

  lemma {:induction false} InsertBySorts<T(!new)>(leq: (T, T) -> bool, x: T, s: seq<T>)
    requires TotalPreorder(leq) && SortedBy(leq, s)
    ensures SortedBy(leq, InsertBy(leq, x, s))
  {
    if s != [] && !leq(x, s[0]) {
      InsertBySorts(leq, x, s[1..]);
      InsertByBelow(leq, x, s[1..], s[0]);
    }
  }

  lemma {:induction false} SortByFacts<T(!new)>(leq: (T, T) -> bool, s: seq<T>)
    requires TotalPreorder(leq)
    ensures SortedBy(leq, SortBy(leq, s)) && multiset(SortBy(leq, s)) == multiset(s)
  {
    if s != [] {
      SortByFacts(leq, s[1..]);
      InsertBySorts(leq, s[0], SortBy(leq, s[1..]));
      InsertByKeeps(leq, s[0], SortBy(leq, s[1..]));
      assert s == [s[0]] + s[1..];
    }
  }

  lemma HeadsAgree<T>(leq: (T, T) -> bool, s: seq<T>, t: seq<T>)
    requires SortedBy(leq, s) && SortedBy(leq, t) && multiset(s) == multiset(t) && Separates(leq, s) && s != []
    ensures t != [] && s[0] == t[0]
  {
    assert s[0] in multiset(t);
    assert t[0] in multiset(s);
    var i :| 0 <= i < |t| && t[i] == s[0];
    var j :| 0 <= j < |s| && s[j] == t[0];
  }

  lemma TailsAgree<T>(s: seq<T>, t: seq<T>)
    requires s != [] && t != [] && s[0] == t[0] && multiset(s) == multiset(t)
    ensures multiset(s[1..]) == multiset(t[1..])
  {
    assert s == [s[0]] + s[1..] && t == [t[0]] + t[1..];
    assert multiset(s[1..]) == multiset(s) - multiset{s[0]};
    assert multiset(t[1..]) == multiset(t) - multiset{t[0]};
  }

  lemma SameCons<T>(s: seq<T>, t: seq<T>)
    requires s != [] && t != [] && s[0] == t[0] && s[1..] == t[1..]
    ensures s == t
  {
    assert s == [s[0]] + s[1..] && t == [t[0]] + t[1..];
  }

  lemma TailSorted<T>(leq: (T, T) -> bool, s: seq<T>)
    requires SortedBy(leq, s) && Separates(leq, s) && s != []
    ensures SortedBy(leq, s[1..]) && Separates(leq, s[1..])
  {
  }

  lemma TailStaysSorted<T>(leq: (T, T) -> bool, s: seq<T>)
    requires SortedBy(leq, s) && s != []
    ensures SortedBy(leq, s[1..])
  {
  }

  /** A sorted arrangement of separated elements is unique. */
  lemma {:induction false} SortedUnique<T>(leq: (T, T) -> bool, s: seq<T>, t: seq<T>)
    requires SortedBy(leq, s) && SortedBy(leq, t) && multiset(s) == multiset(t) && Separates(leq, s)
    ensures s == t
  {
    if s == [] {
      assert |t| == |multiset(t)| == 0;
    } else {
      HeadsAgree(leq, s, t);
      TailsAgree(s, t);
      TailSorted(leq, s);
      TailStaysSorted(leq, t);
      SortedUnique(leq, s[1..], t[1..]);
      SameCons(s, t);
    }
  }

  /** Rearranging the input does not change the sorted list. */
  lemma SortOrderIndependent<T(!new)>(leq: (T, T) -> bool, s: seq<T>, t: seq<T>)
    requires TotalPreorder(leq) && multiset(s) == multiset(t) && Separates(leq, s)
    ensures SortBy(leq, s) == SortBy(leq, t)
  {
    SortByFacts(leq, s);
    SortByFacts(leq, t);
    forall x | x in SortBy(leq, s) ensures x in s {
      assert x in multiset(SortBy(leq, s));
    }
    SortedUnique(leq, SortBy(leq, s), SortBy(leq, t));
  }
}
