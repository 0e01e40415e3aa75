/** The memtable over the B-tree (src/memtable/btree.go) and its frozen copy
    (src/memtable/immutable.go): both are a finite map, with deleted keys kept
    but hidden. */
module Memtable {
  import opened Keys
  import opened Sequences
  import opened SortedList
  import opened BTreeSpec
  import opened BTree

  /** A tombstone is stored like any value but never handed out. */
  function Visible(tombstone: Key, o: Option<Key>): Option<Key> {
    if o == Some(tombstone) then None else o
  }

  class Memtree {
    const tombstone: Key
    const order: nat
    var root: Node
    var byteSize: int

    /** A B-tree of this order: every node but the root holds order - 1 to
        2 * order - 1 keys, all leaves lie equally deep, the reading is sorted. */
    ghost predicate Shape()
      reads this, root, root.repr
    {
      && order >= 2 && root.Valid(order)
      && |root.keys| <= 2 * order - 1 && (!root.isLeaf ==> root.keys != [])
      && Sorted(Contents())
    }

    /** The size counter is the weight of the contents. */
    ghost predicate Valid()
      reads this, root, root.repr
    {
      Shape() && byteSize == Weight(Contents())
    }

    ghost function Contents(): Entries
      reads this, root
    {
      InOrder(root.tree)
    }

    constructor (order: int, tombstone: Key)
      ensures Valid() && fresh(root.repr) && Contents() == []
      ensures this.order == (if order < 2 then 2 else order) && this.tombstone == tombstone
    {
      this.order, this.tombstone := if order < 2 then 2 else order, tombstone;
      root := new Node();
      byteSize := 0;
    }

    method GetSize() returns (n: int)
      requires Valid()
      ensures n == Weight(Contents())
    {
      n := byteSize;
    }

    method Get(key: Key) returns (r: Option<Key>)
      requires Valid()
      ensures var m := AsMap(Contents()); r == if key in m && m[key] != tombstone then Some(m[key]) else None
    {
      var found := root.Lookup(key, order);
      FindIsLookup(Contents(), key);
      r := Visible(tombstone, found);
    }

    /** A full root becomes the only child of a new one and is split. */
    method GrowRoot()
      requires Shape() && |root.keys| == 2 * order - 1
      modifies this`root, root
      ensures Shape() && |root.keys| < 2 * order - 1 && fresh(root.repr - old(root.repr))
      ensures Contents() == old(Contents())
    {
      var child := root;
      var above := new Node.Above(child, order);
      GrownReads(child.tree);
      SplitReads(above.tree, 0, order);
      above.SplitChild(0, order);
      root := above;
    }

    /** Insert a key that is not there. */
    method Insert(key: Key, value: Key)
      requires Shape() && Find(Contents(), key) == None
      modifies this`root, root.repr
      ensures Shape() && fresh(root.repr - old(root.repr))
      ensures Contents() == Put(old(Contents()), Entry(key, value))
    {
      PutIsUpdate(Contents(), Entry(key, value));
      if |root.keys| == 2 * order - 1 {
        GrowRoot();
      }
      root.InsertNonFull(key, value, order);
    }

    /** Add is the map update. */
    method Add(key: Key, value: Key)
      requires Valid()
      modifies this`root, this`byteSize, root.repr
      ensures Valid() && fresh(root.repr - old(root.repr))
      ensures Contents() == Put(old(Contents()), Entry(key, value))
      ensures AsMap(Contents()) == old(AsMap(Contents()))[key := value]
    {
      PutIsUpdate(Contents(), Entry(key, value));
      PutWeight(Contents(), Entry(key, value));
      var existing := root.Lookup(key, order);
      if existing.Some? {
        byteSize := byteSize + (|key| + |value|) - (|key| + |existing.value|);
        root.UpdateExisting(key, value, order);
      } else {
        byteSize := byteSize + |key| + |value|;
        Insert(key, value);
      }
    }

    /** Any run of additions is the same run of map updates. */
    method AddAll(adds: seq<Entry>)
      requires Valid()
      modifies this`root, this`byteSize, root.repr
      ensures Valid() && fresh(root.repr - old(root.repr))
      ensures AsMap(Contents()) == UpdateAll(old(AsMap(Contents())), adds)
    {
      for i := 0 to |adds|
        invariant Valid() && fresh(root.repr - old(root.repr))
        invariant AsMap(Contents()) == UpdateAll(old(AsMap(Contents())), adds[..i])
      {
        Add(adds[i].key, adds[i].value);
        assert adds[..i + 1][..i] == adds[..i];
      }
      assert adds[..|adds|] == adds;
    }

    /** The sorted listing of the map, tombstones included. */
    method ToRaw() returns (pairs: Entries)
      requires Valid()
      ensures Sorted(pairs) && AsMap(pairs) == AsMap(Contents())
      ensures forall s: Entries :: Sorted(s) && AsMap(s) == AsMap(Contents()) ==> s == pairs
    {
      pairs := root.Collect([], order);
      assert pairs == Contents();
      forall s: Entries | Sorted(s) && AsMap(s) == AsMap(Contents()) ensures s == pairs {
        ListingUnique(s, pairs);
      }
    }

    /** Hand out the listing and start over. */
    method TakeSnapshot() returns (pairs: Entries)
      requires Valid()
      modifies this`root, this`byteSize
      ensures Valid() && fresh(root.repr) && Contents() == []
      ensures Sorted(pairs) && AsMap(pairs) == old(AsMap(Contents()))
    {
      pairs := ToRaw();
      root := new Node();
      byteSize := 0;
    }
  }

  lemma GrownReads(t: Tree)
    ensures InOrder(Tree([], [t])) == InOrder(t)
  {
    assert Parts(Tree([], [t])) == [InOrder(t)];
  }

  // ---------------------------------------------------------------- runs of additions

  /** The map after a list of additions. */
  function UpdateAll(m: map<Key, Key>, adds: seq<Entry>): map<Key, Key> {
    if adds == [] then m
    else UpdateAll(m, adds[..|adds| - 1])[adds[|adds| - 1].key := adds[|adds| - 1].value]
  }

  /** Of several additions of a key the last one counts. */
  lemma {:induction false} LastAdditionCounts(m: map<Key, Key>, adds: seq<Entry>, i: nat)
    requires i < |adds| && forall j :: i < j < |adds| ==> adds[j].key != adds[i].key
    ensures adds[i].key in UpdateAll(m, adds) && UpdateAll(m, adds)[adds[i].key] == adds[i].value
  {
    if i < |adds| - 1 {
      LastAdditionCounts(m, adds[..|adds| - 1], i);
    }
  }

  // ---------------------------------------------------------------- the frozen copy

  /** Binary search for the first key not below the wanted one. */
  method ImmutableGet(data: Entries, key: Key, tombstone: Key) returns (r: Option<Key>)
    requires Sorted(data)
    ensures r == Visible(tombstone, Find(data, key))
    ensures forall v :: r == Some(v) <==> v != tombstone && Entry(key, v) in data
  {
    FoundMembers(data, key);
    OrderLaws();
    var reached := i => 0 <= i < |data| && AtMost(key, data[i].key);
    var lo := Search(|data|, reached);
    assert (lo > 0 ==> !reached(lo - 1)) && (lo < |data| ==> reached(lo));
    FindFrom(data, key, lo);
    r := Visible(tombstone, if lo < |data| && data[lo].key == key then Some(data[lo].value) else None);
  }

  lemma FindFrom(data: Entries, key: Key, i: nat)
    requires Sorted(data) && i <= |data|
    requires (i > 0 ==> Less(data[i - 1].key, key)) && (i < |data| ==> AtMost(key, data[i].key))
    ensures Find(data, key) == if i < |data| && data[i].key == key then Some(data[i].value) else None
  {
    assert data == data[..i] + data[i..];
    if i > 0 {
      Weaving.BelowLast(data[..i], key);
    }
    FindBeyond(data[..i], data[i..], key);
    if i < |data| && data[i].key != key {
      Weaving.AboveFirst(data[i..], key);
      FindAbove(data[i..], key);
    }
  }
}
