/** Reading a table file through its filters, its sparse index and its blocks
    (src/sstable/reader.go): every access gives what a linear search of the
    sorted list of entries would. */
module TableReader {
  import opened Keys
  import opened Sequences
  import opened SortedList
  import opened TableCodec
  import opened TableBlocks
  import opened TableWriter
  import opened TableIndex
  import Bloom

  datatype Result<T> = Failed | Done(value: T)

  /** The index holds the first key of every group. */
  ghost predicate FirstKeys(groups: Groups, index: Index) {
    |index| == |groups| && forall i :: 0 <= i < |groups| ==> groups[i] != [] && index[i].key == groups[i][0].key
  }

  /** Every group can be read where the index says. */
  ghost predicate Readable(file: seq<byte>, size: nat, index: Index, groups: Groups) {
    && size > 3 && |index| == |groups|
    && forall i :: 0 <= i < |groups| ==>
         Small(groups[i]) && ReadUnit(file, index[i].offset, size) == Some(EncodeEntries(groups[i]))
  }

  /** A sorted list in readable groups. */
  ghost predicate Holds(file: seq<byte>, size: nat, index: Index, groups: Groups) {
    Readable(file, size, index, groups) && FirstKeys(groups, index) && Sorted(Flatten(groups))
  }

  lemma GroupBack(file: seq<byte>, size: nat, index: Index, groups: Groups, i: nat)
    requires 3 < size <= 65538 && Layout(size, Encoded(groups)) <= file && IsIndex(size, groups, index) && i < |groups|
    ensures ReadUnit(file, index[i].offset, size) == Some(EncodeEntries(groups[i]))
    ensures groups[i] != [] && index[i].key == groups[i][0].key
  {
    var us := Encoded(groups);
    UnitAt(size, us, i, file);
    StartInLayout(size, groups, i);
    assert Marks(index[i], groups[i], Start(size, groups, i));
    UnitBack(file, index[i].offset, EncodeEntries(groups[i]), size);
  }

  /** A file that begins with the layout of these groups, indexed as it was written. */
  lemma WrittenHolds(file: seq<byte>, size: nat, index: Index, groups: Groups)
    requires 3 < size <= 65538 && Layout(size, Encoded(groups)) <= file && IsIndex(size, groups, index)
    requires Sorted(Flatten(groups)) && Small(Flatten(groups))
    ensures Holds(file, size, index, groups)
  {
    forall i | 0 <= i < |groups|
      ensures Small(groups[i]) && ReadUnit(file, index[i].offset, size) == Some(EncodeEntries(groups[i]))
      ensures groups[i] != [] && index[i].key == groups[i][0].key
    {
      GroupBack(file, size, index, groups, i);
      SmallGroup(groups, i);
    }
  }

  // ---------------------------------------------------------------- groups of a sorted list

  /** Where group i begins and ends in the list. */
  function From(groups: Groups, i: nat): nat
    requires i <= |groups|
  {
    |Flatten(groups[..i])|
  }

  lemma GroupSlice(groups: Groups, i: nat)
    requires i < |groups|
    ensures From(groups, i + 1) == From(groups, i) + |groups[i]| <= |Flatten(groups)|
    ensures Flatten(groups)[From(groups, i)..From(groups, i + 1)] == groups[i]
  {
    FlattenAt(groups, i + 1);
    TakeNext(groups, i);
    FlattenConcat(groups[..i], [groups[i]]);
    FlattenOne(groups[i]);
  }

  lemma {:induction false} FromMonotone(groups: Groups, i: nat, j: nat)
    requires i <= j <= |groups|
    ensures From(groups, i) <= From(groups, j) <= |Flatten(groups)|
    decreases j - i
  {
    if i == j {
      FlattenAt(groups, i);
    } else {
      GroupSlice(groups, i);
      FromMonotone(groups, i + 1, j);
    }
  }

  lemma FromAll(groups: Groups)
    ensures From(groups, |groups|) == |Flatten(groups)|
  {
    TakeAll(groups);
  }

  /** The index key of group i is the key of the list entry the group begins with. */
  lemma FirstKey(groups: Groups, index: Index, i: nat)
    requires FirstKeys(groups, index) && i < |groups|
    ensures From(groups, i) < |Flatten(groups)| && index[i].key == Flatten(groups)[From(groups, i)].key
  {
    GroupSlice(groups, i);
    var list, p := Flatten(groups), From(groups, i);
    assert list[p..p + |groups[i]|][0] == list[p];
  }

  lemma IndexIncreases(groups: Groups, index: Index, i: nat, j: nat)
    requires FirstKeys(groups, index) && Sorted(Flatten(groups)) && i < j < |groups|
    ensures Less(index[i].key, index[j].key)
  {
    FirstKey(groups, index, i);
    FirstKey(groups, index, j);
    GroupSlice(groups, i);
    FromMonotone(groups, i + 1, j);
  }

  // ---------------------------------------------------------------- Get

  /** Between an entry not above the key and one above it is the only place to look. */
  lemma OnlyPlace(list: Entries, p: nat, q: nat, key: Key)
    requires Sorted(list) && p < q <= |list| && AtMost(list[p].key, key) && (q < |list| ==> Less(key, list[q].key))
    ensures Find(list, key) == Find(list[p..q], key)
  {
    BelowUpTo(list, p, key);
    if q < |list| {
      AboveFrom(list, q, key);
    }
    assert list == list[..p] + list[p..q] + list[q..];
    FindInMiddle(list[..p], list[p..q], list[q..], key);
  }

  /** Where the key can only be, given the number of index keys not above it. */
  lemma OneGroup(groups: Groups, index: Index, i: nat, key: Key)
    requires FirstKeys(groups, index) && Sorted(Flatten(groups)) && i <= |groups|
    requires i > 0 ==> !Less(key, index[i - 1].key)
    requires i < |groups| ==> Less(key, index[i].key)
    ensures Find(Flatten(groups), key) == if i == 0 then None else Find(groups[i - 1], key)
  {
    var list := Flatten(groups);
    FromMonotone(groups, i, |groups|);
    FromAll(groups);
    if i < |groups| {
      FirstKey(groups, index, i);
    }
    if i > 0 {
      GroupSlice(groups, i - 1);
      FirstKey(groups, index, i - 1);
      LessTotal(key, index[i - 1].key);
      OnlyPlace(list, From(groups, i - 1), From(groups, i), key);
    } else if list != [] {
      FirstOfAll(groups);
      AboveFrom(list, 0, key);
      assert list[0..] == list;
      FindAbove(list, key);
    }
  }

  lemma FirstOfAll(groups: Groups)
    requires Flatten(groups) != []
    ensures groups != [] && From(groups, 0) == 0
  {
  }

  lemma AboveFrom(list: Entries, q: nat, key: Key)
    requires Sorted(list) && q < |list| && Less(key, list[q].key)
    ensures Above(list[q..], key)
  {
    forall e | e in list[q..] ensures Less(key, e.key) {
      var i :| q <= i < |list| && list[i] == e;
      if i > q {
        LessTransitive(key, list[q].key, e.key);
      }
    }
  }

  lemma BelowUpTo(list: Entries, p: nat, key: Key)
    requires Sorted(list) && p < |list| && AtMost(list[p].key, key)
    ensures Below(list[..p], key)
  {
    forall e | e in list[..p] ensures Less(e.key, key) {
      var i :| 0 <= i < p && list[i] == e;
      if list[p].key != key {
        LessTransitive(e.key, list[p].key, key);
      }
    }
  }

  /** Scan one block for a key. */
  method FindInBlock(data: seq<byte>, key: Key, ghost group: Entries) returns (r: Option<Key>)
    requires data == EncodeEntries(group) && Small(group)
    ensures r == Find(group, key)
  {
    var rest := data;
    ghost var left := group;
    while |rest| > 0
      invariant rest == EncodeEntries(left) && Small(left) && Find(left, key) == Find(group, key)
      decreases |rest|
    {
      EntriesBack(left);
      var e := ReadEntry(rest);
      if e.Short? {
        break;
      }
      if e.value.key == key {
        return Some(e.value.value);
      }
      rest, left := e.rest, left[1..];
    }
    return None;
  }

  /** How many index keys are not above the key. */
  method CountUpTo(index: Index, key: Key, ghost groups: Groups) returns (i: nat)
    requires FirstKeys(groups, index) && Sorted(Flatten(groups))
    ensures i <= |index| && (i > 0 ==> !Less(key, index[i - 1].key)) && (i < |index| ==> Less(key, index[i].key))
  {
    var above := j => 0 <= j < |index| && Less(key, index[j].key);
    forall a, b | 0 <= a < b < |index| && above(a) ensures above(b) {
      IndexIncreases(groups, index, a, b);
      LessTransitive(key, index[a].key, index[b].key);
    }
    i := Search(|index|, above);
    assert (i > 0 ==> !above(i - 1)) && (i < |index| ==> above(i));
  }

  /** Read the block of group i. */
  method ReadGroup(file: seq<byte>, size: nat, index: Index, i: nat,
                   ghost groups: Groups) returns (data: Option<seq<byte>>)
    requires Readable(file, size, index, groups) && i < |index|
    ensures data == Some(EncodeEntries(groups[i])) && Small(groups[i])
  {
    data := ReadDataBlock(file, index[i].offset, size);
  }

  /** Binary search in the index, then a scan of one block. */
  method Lookup(file: seq<byte>, size: nat, index: Index, key: Key,
                ghost groups: Groups) returns (r: Result<Option<Key>>)
    requires Holds(file, size, index, groups)
    ensures r == Done(Find(Flatten(groups), key))
  {
    var i := CountUpTo(index, key, groups);
    OneGroup(groups, index, i, key);
    if i == 0 {
      return Done(None);
    }
    var block := ReadGroup(file, size, index, i - 1, groups);
    if block.None? {
      return Failed;
    }
    var v := FindInBlock(block.value, key, groups[i - 1]);
    return Done(v);
  }

  method Get(digest: Bloom.Digest, filter: Bloom.Filter, file: seq<byte>, size: nat, index: Index, key: Key,
             ghost groups: Groups) returns (r: Result<Option<Key>>)
    requires Holds(file, size, index, groups) && filter.bits != []
    requires forall e :: e in Flatten(groups) ==> Bloom.Covers(digest, filter, e.key)
    ensures r == Done(Find(Flatten(groups), key))
  {
    var found := Bloom.Check(digest, filter, key);
    if !found {
      NotFiltered(digest, filter, Flatten(groups), key);
      return Done(None);
    }
    r := Lookup(file, size, index, key, groups);
  }

  lemma InFlatten(groups: Groups, i: nat, e: Entry)
    requires i < |groups| && e in groups[i]
    ensures e in Flatten(groups)
  {
    FlattenAt(groups, i);
    assert Flatten(groups[i..]) == groups[i] + Flatten(groups[i..][1..]);
  }

  lemma SmallGroup(groups: Groups, i: nat)
    requires i < |groups| && Small(Flatten(groups))
    ensures Small(groups[i])
  {
    forall e | e in groups[i] ensures e in Flatten(groups) {
      InFlatten(groups, i, e);
    }
  }

  lemma {:induction false} NotFiltered(digest: Bloom.Digest, filter: Bloom.Filter, list: Entries, key: Key)
    requires filter.bits != [] && !Bloom.Covers(digest, filter, key)
    requires forall e :: e in list ==> Bloom.Covers(digest, filter, e.key)
    ensures Find(list, key) == None
  {
    if list != [] {
      assert list[0] in list;
      NotFiltered(digest, filter, list[1..], key);
    }
  }

  // ---------------------------------------------------------------- whole scans

  /** Hand on every entry of every block. */
  method ScanAll(file: seq<byte>, size: nat, index: Index, ghost groups: Groups) returns (r: Result<Entries>)
    requires Holds(file, size, index, groups)
    ensures r == Done(Flatten(groups))
  {
    var all: Entries := [];
    for i := 0 to |index|
      invariant all == Flatten(groups[..i])
    {
      var block := ReadGroup(file, size, index, i, groups);
      if block.None? {
        return Failed;
      }
      all := ScanBlock(block.value, all, groups[i]);
      TakeNext(groups, i);
      FlattenConcat(groups[..i], [groups[i]]);
      FlattenOne(groups[i]);
    }
    TakeAll(groups);
    return Done(all);
  }

  method ScanBlock(data: seq<byte>, before: Entries, ghost group: Entries) returns (all: Entries)
    requires data == EncodeEntries(group) && Small(group)
    ensures all == before + group
  {
    all := before;
    var rest := data;
    ghost var left := group;
    while |rest| > 0
      invariant rest == EncodeEntries(left) && Small(left) && all + left == before + group
      decreases |rest|
    {
      EntriesBack(left);
      var e := ReadEntry(rest);
      if e.Short? {
        break;
      }
      HeadMoves(all, left);
      all := all + [e.value];
      rest, left := e.rest, left[1..];
    }
  }

  lemma HeadMoves(a: Entries, b: Entries)
    requires b != []
    ensures (a + [b[0]]) + b[1..] == a + b
  {
  }
}
