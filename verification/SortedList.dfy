/** The plain thing a memtable and a table file stand for: a strictly sorted
    list of entries, which is a finite map written out. */
module SortedList {
  import opened Keys

  datatype Entry = Entry(key: Key, value: Key)

  datatype Option<T> = None | Some(value: T)

  type Entries = seq<Entry>

  ghost predicate Sorted(s: Entries) {
    forall i, j :: 0 <= i < j < |s| ==> Less(s[i].key, s[j].key)
  }

  /** All keys below k, all keys above k. */
  ghost predicate Below(s: Entries, k: Key) { forall e :: e in s ==> Less(e.key, k) }
  ghost predicate Above(s: Entries, k: Key) { forall e :: e in s ==> Less(k, e.key) }

  /** Linear search. */
  function Find(s: Entries, k: Key): Option<Key> {
    if s == [] then None else if s[0].key == k then Some(s[0].value) else Find(s[1..], k)
  }

  /** Replace the entry of this key, or put a new one in its place. */
  function Put(s: Entries, e: Entry): Entries {
    if s == [] then [e]
    else if s[0].key == e.key then [e] + s[1..]
    else if Less(e.key, s[0].key) then [e] + s
    else [s[0]] + Put(s[1..], e)
  }

  function AsMap(s: Entries): map<Key, Key> {
    if s == [] then map[] else AsMap(s[1..])[s[0].key := s[0].value]
  }

  /** Summed length of keys and values. */
  function Weight(s: Entries): nat {
    if s == [] then 0 else |s[0].key| + |s[0].value| + Weight(s[1..])
  }

  lemma SortedTail(s: Entries)
    requires Sorted(s) && s != []
    ensures Sorted(s[1..]) && Above(s[1..], s[0].key)
  {
  }

  lemma SortedCons(e: Entry, s: Entries)
    requires Sorted(s) && Above(s, e.key)
    ensures Sorted([e] + s)
  {
  }

  lemma AboveMeans(s: Entries, k: Key)
    requires Above(s, k)
    ensures k !in AsMap(s) && (forall x :: x in AsMap(s) ==> Less(k, x))
  {
    if s != [] {
      AboveMeans(s[1..], k);
      LessIrreflexive(k);
    }
  }

  lemma AboveWeaken(s: Entries, j: Key, k: Key)
    requires Above(s, k) && Less(j, k)
    ensures Above(s, j)
  {
    forall e | e in s ensures Less(j, e.key) {
      LessTransitive(j, k, e.key);
    }
  }

  lemma {:induction false} PutAbove(s: Entries, e: Entry, k: Key)
    requires Above(s, k) && Less(k, e.key)
    ensures Above(Put(s, e), k)
  {
    if s != [] {
      PutAbove(s[1..], e, k);
    }
  }

  /** Putting keeps the list sorted and is the map update. */
  lemma {:induction false} PutIsUpdate(s: Entries, e: Entry)
    requires Sorted(s)
    ensures Sorted(Put(s, e)) && AsMap(Put(s, e)) == AsMap(s)[e.key := e.value]
  {
    if s != [] {
      SortedTail(s);
      LessTotal(e.key, s[0].key);
      if s[0].key == e.key {
        SortedCons(e, s[1..]);
      } else if Less(e.key, s[0].key) {
        AboveWeaken(s[1..], e.key, s[0].key);
        SortedCons(e, s);
      } else {
        PutIsUpdate(s[1..], e);
        PutAbove(s[1..], e, s[0].key);
        SortedCons(s[0], Put(s[1..], e));
      }
    }
  }

  /** Searching the list is looking the key up in the map. */
  lemma {:induction false} FindIsLookup(s: Entries, k: Key)
    requires Sorted(s)
    ensures Find(s, k) == if k in AsMap(s) then Some(AsMap(s)[k]) else None
  {
    if s != [] {
      SortedTail(s);
      FindIsLookup(s[1..], k);
    }
  }

  lemma EmptyMap(s: Entries)
    ensures s == [] <==> AsMap(s) == map[]
  {
    if s != [] {
      assert s[0].key in AsMap(s);
    }
  }

  /** A map has one sorted listing. */
  lemma {:induction false} ListingUnique(s: Entries, t: Entries)
    requires Sorted(s) && Sorted(t) && AsMap(s) == AsMap(t)
    ensures s == t
  {
    EmptyMap(s);
    EmptyMap(t);
    if s != [] {
      SortedTail(s);
      SortedTail(t);
      AboveMeans(s[1..], s[0].key);
      AboveMeans(t[1..], t[0].key);
      assert s[0].key in AsMap(t) && t[0].key in AsMap(s);
      if s[0].key != t[0].key {
        LessTransitive(s[0].key, t[0].key, s[0].key);
        LessIrreflexive(s[0].key);
      }
      assert AsMap(s[1..]) == AsMap(s) - {s[0].key};
      assert AsMap(t[1..]) == AsMap(t) - {t[0].key};
      ListingUnique(s[1..], t[1..]);
      assert s == [s[0]] + s[1..] && t == [t[0]] + t[1..];
    }
  }

  // ---------------------------------------------------------------- working in the middle of a list

  lemma {:induction false} FindBeyond(left: Entries, rest: Entries, k: Key)
    requires Below(left, k)
    ensures Find(left + rest, k) == Find(rest, k)
  {
    if left == [] {
      assert left + rest == rest;
    } else {
      assert (left + rest)[1..] == left[1..] + rest;
      assert left[0] in left;
      LessIrreflexive(k);
      FindBeyond(left[1..], rest, k);
    }
  }

  lemma {:induction false} FindBefore(s: Entries, right: Entries, k: Key)
    requires Above(right, k)
    ensures Find(s + right, k) == Find(s, k)
  {
    if s == [] {
      assert s + right == right;
      FindAbove(right, k);
    } else {
      assert (s + right)[1..] == s[1..] + right;
      FindBefore(s[1..], right, k);
    }
  }

  lemma {:induction false} FindAbove(s: Entries, k: Key)
    requires Above(s, k)
    ensures Find(s, k) == None
  {
    if s != [] {
      assert s[0] in s;
      LessIrreflexive(k);
      FindAbove(s[1..], k);
    }
  }

  lemma FindInMiddle(left: Entries, s: Entries, right: Entries, k: Key)
    requires Below(left, k) && Above(right, k)
    ensures Find(left + s + right, k) == Find(s, k)
  {
    FindBefore(left + s, right, k);
    FindBeyond(left, s, k);
  }

  lemma {:induction false} PutBeyond(left: Entries, rest: Entries, e: Entry)
    requires Below(left, e.key)
    ensures Put(left + rest, e) == left + Put(rest, e)
  {
    if left == [] {
      assert left + rest == rest;
    } else {
      assert (left + rest)[1..] == left[1..] + rest;
      assert left[0] in left;
      LessNotBoth(left[0].key, e.key);
      PutBeyond(left[1..], rest, e);
      assert left == [left[0]] + left[1..];
    }
  }

  lemma LessNotBoth(a: Key, b: Key)
    requires Less(a, b)
    ensures !Less(b, a) && a != b
  {
    LessIrreflexive(a);
    if Less(b, a) {
      LessTransitive(a, b, a);
    }
  }

  lemma {:induction false} PutBefore(s: Entries, right: Entries, e: Entry)
    requires Above(right, e.key)
    ensures Put(s + right, e) == Put(s, e) + right
  {
    if s == [] {
      assert s + right == right;
      if right != [] {
        assert right[0] in right;
        LessNotBoth(e.key, right[0].key);
      }
    } else {
      assert (s + right)[1..] == s[1..] + right;
      PutBefore(s[1..], right, e);
      assert s == [s[0]] + s[1..];
    }
  }

  lemma PutInMiddle(left: Entries, s: Entries, right: Entries, e: Entry)
    requires Below(left, e.key) && Above(right, e.key)
    ensures Put(left + s + right, e) == left + Put(s, e) + right
  {
    PutBefore(left + s, right, e);
    PutBeyond(left, s, e);
  }

  // ---------------------------------------------------------------- weight

  /** The weight changes by the new entry and the one it replaces. */
  lemma {:induction false} PutWeight(s: Entries, e: Entry)
    requires Sorted(s)
    ensures Weight(Put(s, e)) == Weight(s) + |e.value|
                               + (if Find(s, e.key).Some? then -|Find(s, e.key).value| else |e.key|)
  {
    if s != [] {
      SortedTail(s);
      if s[0].key != e.key {
        if Less(e.key, s[0].key) {
          AboveWeaken(s[1..], e.key, s[0].key);
          FindAbove(s, e.key);
        } else {
          PutWeight(s[1..], e);
        }
      }
    }
  }

  /** What a sorted list says about a key is what stands in it. */
  lemma {:induction false} MapMembers(s: Entries, k: Key, v: Key)
    requires Sorted(s)
    ensures k in AsMap(s) && AsMap(s)[k] == v <==> Entry(k, v) in s
  {
    if s != [] {
      SortedTail(s);
      MapMembers(s[1..], k, v);
      AboveMeans(s[1..], s[0].key);
      assert s == [s[0]] + s[1..];
      if k == s[0].key && Entry(k, v) in s[1..] {
        LessIrreflexive(k);
      }
    }
  }

  lemma FoundMembers(s: Entries, k: Key)
    requires Sorted(s)
    ensures forall v :: Find(s, k) == Some(v) <==> Entry(k, v) in s
  {
    FindIsLookup(s, k);
    forall v ensures Find(s, k) == Some(v) <==> Entry(k, v) in s {
      MapMembers(s, k, v);
    }
  }
}
