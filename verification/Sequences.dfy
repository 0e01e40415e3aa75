/** Sequences of sequences. */
module Sequences {
  function Flatten<T>(parts: seq<seq<T>>): seq<T> {
    if parts == [] then [] else parts[0] + Flatten(parts[1..])
  }

  lemma {:induction false} FlattenConcat<T>(a: seq<seq<T>>, b: seq<seq<T>>)
    ensures Flatten(a + b) == Flatten(a) + Flatten(b)
  {
    if a == [] {
      assert a + b == b;
    } else {
      assert (a + b)[1..] == a[1..] + b;
      FlattenConcat(a[1..], b);
    }
  }

  lemma FlattenOne<T>(part: seq<T>)
    ensures Flatten([part]) == part
  {
    assert [part][1..] == [];
  }

  lemma TakeNext<T>(s: seq<T>, i: nat)
    requires i < |s|
    ensures s[..i] + [s[i]] == s[..i + 1]
  {
  }

  lemma TakeAll<T>(s: seq<T>)
    ensures s[..|s|] == s
  {
  }

  lemma FlattenAt<T>(parts: seq<seq<T>>, i: nat)
    requires i <= |parts|
    ensures Flatten(parts) == Flatten(parts[..i]) + Flatten(parts[i..])
  {
    assert parts == parts[..i] + parts[i..];
    FlattenConcat(parts[..i], parts[i..]);
  }

  /** Binary search for the first index of n at which a predicate holds that
      stays true once it is. */
  method Search(n: nat, holds: int -> bool) returns (i: nat)
    requires forall a, b :: 0 <= a < b < n && holds(a) ==> holds(b)
    ensures i <= n && (forall j :: 0 <= j < i ==> !holds(j)) && (forall j :: i <= j < n ==> holds(j))
  {
    var lo: nat, hi: nat := 0, n;
    while lo < hi
      invariant lo <= hi <= n && (forall j :: 0 <= j < lo ==> !holds(j)) && (forall j :: hi <= j < n ==> holds(j))
    {
      var mid := (lo + hi) / 2;
      if holds(mid) {
        hi := mid;
      } else {
        lo := mid + 1;
      }
    }
    i := lo;
  }
}
