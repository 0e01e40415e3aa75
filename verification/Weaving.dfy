/** The in-order reading of a B-tree node: its own entries woven with what its
    children read. */
module Weaving {
  import opened Keys
  import opened SortedList

  function Weave(es: Entries, parts: seq<Entries>): Entries
    requires |parts| == |es| + 1
  {
    if es == [] then parts[0] else parts[0] + [es[0]] + Weave(es[1..], parts[1..])
  }

  /** What comes before part i, and what comes after it. */
  function Left(es: Entries, parts: seq<Entries>, i: nat): Entries
    requires |parts| == |es| + 1 && i <= |es|
  {
    if i == 0 then [] else parts[0] + [es[0]] + Left(es[1..], parts[1..], i - 1)
  }

  function Right(es: Entries, parts: seq<Entries>, i: nat): Entries
    requires |parts| == |es| + 1 && i <= |es|
  {
    if i == |es| then [] else [es[i]] + Weave(es[i + 1..], parts[i + 1..])
  }

  lemma {:induction false} AroundPart(es: Entries, parts: seq<Entries>, i: nat)
    requires |parts| == |es| + 1 && i <= |es|
    ensures Weave(es, parts) == Left(es, parts, i) + parts[i] + Right(es, parts, i)
  {
    if i == 0 {
      if es != [] {
        Reassociate(parts[0], [es[0]], Weave(es[1..], parts[1..]), []);
      }
      assert [] + parts[0] == parts[0] == parts[0] + [];
    } else {
      AroundPart(es[1..], parts[1..], i - 1);
      RightTail(es, parts, i);
      var l, r := Left(es[1..], parts[1..], i - 1), Right(es, parts, i);
      Reassociate(parts[0] + [es[0]], l, parts[i], r);
    }
  }

  lemma Reassociate(a: Entries, b: Entries, c: Entries, d: Entries)
    ensures a + (b + c + d) == a + b + c + d && a + b + c == a + (b + c)
  {
  }

  /** What comes before part i + 1. */
  lemma {:induction false} LeftStep(es: Entries, parts: seq<Entries>, i: nat)
    requires |parts| == |es| + 1 && i < |es|
    ensures Left(es, parts, i + 1) == Left(es, parts, i) + parts[i] + [es[i]]
  {
    if i > 0 {
      LeftStep(es[1..], parts[1..], i - 1);
    }
  }

  lemma RightTail(es: Entries, parts: seq<Entries>, i: nat)
    requires |parts| == |es| + 1 && 0 < i <= |es|
    ensures Right(es[1..], parts[1..], i - 1) == Right(es, parts, i)
  {
    if i < |es| {
      assert es[1..][i..] == es[i + 1..] && parts[1..][i..] == parts[i + 1..];
    }
  }

  /** The surroundings of part i do not depend on it. */
  lemma {:induction false} ReplacePart(es: Entries, parts: seq<Entries>, i: nat, p: Entries)
    requires |parts| == |es| + 1 && i <= |es|
    ensures Weave(es, parts[i := p]) == Left(es, parts, i) + p + Right(es, parts, i)
  {
    if i == 0 {
      assert parts[i := p][1..] == parts[1..];
    } else {
      ReplacePart(es[1..], parts[1..], i - 1, p);
      assert parts[i := p][1..] == parts[1..][i - 1 := p];
      RightTail(es, parts, i);
      var l, rest := Left(es[1..], parts[1..], i - 1), p + Right(es, parts, i);
      assert parts[0] + [es[0]] + (l + rest) == (parts[0] + [es[0]] + l) + rest;
      assert l + p + Right(es, parts, i) == l + rest;
    }
  }

  /** Entry i stands between what is left of part i + 1 and what follows part i. */
  lemma {:induction false} AroundEntry(es: Entries, parts: seq<Entries>, i: nat)
    requires |parts| == |es| + 1 && i < |es|
    ensures Weave(es, parts) == Weave(es[..i], parts[..i + 1]) + [es[i]] + Weave(es[i + 1..], parts[i + 1..])
  {
    if i == 0 {
      assert Weave(es[..0], parts[..1]) == parts[0];
    } else {
      AroundEntry(es[1..], parts[1..], i - 1);
      assert es[1..][..i - 1] == es[..i][1..] && parts[1..][..i] == parts[..i + 1][1..];
      assert es[1..][i..] == es[i + 1..] && parts[1..][i..] == parts[i + 1..];
    }
  }

  /** Splitting part i around an entry of its own reads the same. */
  lemma {:induction false} SplitPart(es: Entries, parts: seq<Entries>, i: nat, l: Entries, e: Entry, r: Entries)
    requires |parts| == |es| + 1 && i <= |es| && parts[i] == l + [e] + r
    ensures Weave(es[..i] + [e] + es[i..], parts[..i] + [l, r] + parts[i + 1..]) == Weave(es, parts)
  {
    var es', parts' := es[..i] + [e] + es[i..], parts[..i] + [l, r] + parts[i + 1..];
    if i == 0 {
      assert es' == [e] + es && parts' == [l, r] + parts[1..];
      assert es'[1..] == es && parts'[1..] == [r] + parts[1..];
      if es != [] {
        assert parts'[1..][1..] == parts[1..];
      }
    } else {
      SplitPart(es[1..], parts[1..], i - 1, l, e, r);
      assert es'[1..] == es[1..][..i - 1] + [e] + es[1..][i - 1..];
      assert parts'[1..] == parts[1..][..i - 1] + [l, r] + parts[1..][i..];
    }
  }

  // ---------------------------------------------------------------- a key's place

  lemma SortedPart(es: Entries, parts: seq<Entries>, i: nat)
    requires |parts| == |es| + 1 && i <= |es| && Sorted(Weave(es, parts))
    ensures Sorted(parts[i])
  {
    AroundPart(es, parts, i);
    SortedHead(Left(es, parts, i) + parts[i], Right(es, parts, i));
    SortedRest(Left(es, parts, i), parts[i]);
  }

  lemma {:induction false} LeftEnd(es: Entries, parts: seq<Entries>, i: nat)
    requires |parts| == |es| + 1 && 0 < i <= |es|
    ensures var l := Left(es, parts, i); l != [] && l[|l| - 1] == es[i - 1]
  {
    if i > 1 {
      LeftEnd(es[1..], parts[1..], i - 1);
    }
  }

  lemma BelowLast(s: Entries, k: Key)
    requires Sorted(s) && s != [] && Less(s[|s| - 1].key, k)
    ensures Below(s, k)
  {
    forall e | e in s ensures Less(e.key, k) {
      var i :| 0 <= i < |s| && s[i] == e;
      if i < |s| - 1 {
        LessTransitive(e.key, s[|s| - 1].key, k);
      }
    }
  }

  lemma AboveFirst(s: Entries, k: Key)
    requires Sorted(s) && s != [] && Less(k, s[0].key)
    ensures Above(s, k)
  {
    forall e | e in s ensures Less(k, e.key) {
      var i :| 0 <= i < |s| && s[i] == e;
      if i > 0 {
        LessTransitive(k, s[0].key, e.key);
      }
    }
  }

  /** i is where the scan over a node's keys stops for k without meeting it. */
  ghost predicate Slot(es: Entries, k: Key, i: nat) {
    i <= |es| && (i > 0 ==> Less(es[i - 1].key, k)) && (i < |es| ==> Less(k, es[i].key))
  }

  lemma SortedHead(a: Entries, b: Entries)
    requires Sorted(a + b)
    ensures Sorted(a)
  {
    var s := a + b;
    assert forall i :: 0 <= i < |a| ==> a[i] == s[i];
  }

  lemma SortedRest(a: Entries, b: Entries)
    requires Sorted(a + b)
    ensures Sorted(b)
  {
    var s := a + b;
    assert forall i :: 0 <= i < |b| ==> b[i] == s[|a| + i];
  }

  lemma AroundSlot(es: Entries, parts: seq<Entries>, i: nat, k: Key)
    requires |parts| == |es| + 1 && Sorted(Weave(es, parts)) && Slot(es, k, i)
    ensures Below(Left(es, parts, i), k) && Above(Right(es, parts, i), k)
  {
    var l, r := Left(es, parts, i), Right(es, parts, i);
    AroundPart(es, parts, i);
    SortedHead(l + parts[i], r);
    SortedHead(l, parts[i]);
    SortedRest(l + parts[i], r);
    if i > 0 {
      LeftEnd(es, parts, i);
      BelowLast(l, k);
    }
    if i < |es| {
      AboveFirst(r, k);
    }
  }

  /** Below a slot, searching and putting go on in the part. */
  lemma DescendFind(es: Entries, parts: seq<Entries>, i: nat, k: Key)
    requires |parts| == |es| + 1 && Sorted(Weave(es, parts)) && Slot(es, k, i)
    ensures Find(Weave(es, parts), k) == Find(parts[i], k)
  {
    AroundPart(es, parts, i);
    AroundSlot(es, parts, i, k);
    FindInMiddle(Left(es, parts, i), parts[i], Right(es, parts, i), k);
  }

  lemma DescendPut(es: Entries, parts: seq<Entries>, i: nat, e: Entry)
    requires |parts| == |es| + 1 && Sorted(Weave(es, parts)) && Slot(es, e.key, i)
    ensures Put(Weave(es, parts), e) == Weave(es, parts[i := Put(parts[i], e)])
  {
    AroundPart(es, parts, i);
    ReplacePart(es, parts, i, Put(parts[i], e));
    AroundSlot(es, parts, i, e.key);
    PutInMiddle(Left(es, parts, i), parts[i], Right(es, parts, i), e);
  }

  lemma AroundMet(es: Entries, parts: seq<Entries>, i: nat)
    requires |parts| == |es| + 1 && Sorted(Weave(es, parts)) && i < |es|
    ensures Below(Weave(es[..i], parts[..i + 1]), es[i].key)
    ensures Above(Weave(es[i + 1..], parts[i + 1..]), es[i].key)
  {
    var l, r := Weave(es[..i], parts[..i + 1]), Weave(es[i + 1..], parts[i + 1..]);
    AroundEntry(es, parts, i);
    var s := l + [es[i]] + r;
    assert forall j :: 0 <= j < |l| ==> s[j] == l[j];
    assert s[|l|] == es[i];
    assert forall j :: 0 <= j < |r| ==> s[|l| + 1 + j] == r[j];
  }

  /** A key met in the node itself is found and replaced there. */
  lemma MeetFind(es: Entries, parts: seq<Entries>, i: nat)
    requires |parts| == |es| + 1 && Sorted(Weave(es, parts)) && i < |es|
    ensures Find(Weave(es, parts), es[i].key) == Some(es[i].value)
  {
    AroundEntry(es, parts, i);
    AroundMet(es, parts, i);
    FindInMiddle(Weave(es[..i], parts[..i + 1]), [es[i]], Weave(es[i + 1..], parts[i + 1..]), es[i].key);
  }

  lemma MeetPut(es: Entries, parts: seq<Entries>, i: nat, v: Key)
    requires |parts| == |es| + 1 && Sorted(Weave(es, parts)) && i < |es|
    ensures var e := Entry(es[i].key, v); Put(Weave(es, parts), e) == Weave(es[i := e], parts)
  {
    var e := Entry(es[i].key, v);
    var l, r := Weave(es[..i], parts[..i + 1]), Weave(es[i + 1..], parts[i + 1..]);
    AroundEntry(es, parts, i);
    AroundEntry(es[i := e], parts, i);
    assert es[i := e][..i] == es[..i] && es[i := e][i + 1..] == es[i + 1..];
    AroundMet(es, parts, i);
    PutInMiddle(l, [es[i]], r, e);
    assert Put([es[i]], e) == [e];
  }
}
