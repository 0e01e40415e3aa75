/** Range and prefix scans of a table file (src/sstable/reader.go): they start
    one block early, stop at the first key past the end, and still pick exactly
    the entries a pass over the whole list would. */
module TableScans {
  import opened Keys
  import opened Sequences
  import opened SortedList
  import opened TableCodec
  import opened TableIndex
  import opened TableReader

  /** The entries of a list whose keys are wanted. */
  function Picked(list: Entries, keep: Key -> bool): map<Key, Key> {
    map k | k in AsMap(list) && keep(k) :: AsMap(list)[k]
  }

  lemma {:induction false} AsMapSnoc(s: Entries, e: Entry)
    requires forall x :: x in s ==> x.key != e.key
    ensures AsMap(s + [e]) == AsMap(s)[e.key := e.value]
  {
    if s == [] {
      assert s + [e] == [e];
    } else {
      assert (s + [e])[1..] == s[1..] + [e];
      assert s[0] in s;
      AsMapSnoc(s[1..], e);
    }
  }

  /** What one more entry of the list adds. */
  lemma PickedNext(list: Entries, p: nat, keep: Key -> bool)
    requires Sorted(list) && p < |list|
    ensures Picked(list[..p + 1], keep)
         == if keep(list[p].key) then Picked(list[..p], keep)[list[p].key := list[p].value] else Picked(list[..p], keep)
  {
    TakeNext(list, p);
    forall x | x in list[..p] ensures x.key != list[p].key {
      var i :| 0 <= i < p && list[i] == x;
      LessIrreflexive(x.key);
    }
    AsMapSnoc(list[..p], list[p]);
  }

  /** Once a key is past, nothing that follows is wanted. */
  ghost predicate Ends(list: Entries, keep: Key -> bool, past: Key -> bool) {
    forall i, j :: 0 <= i <= j < |list| && past(list[i].key) && !keep(list[i].key) ==> !keep(list[j].key)
  }

  /** What is picked from the first so many entries of the list. */
  type Picks = int -> map<Key, Key>

  ghost predicate Steps(list: Entries, keep: Key -> bool, pick: Picks) {
    forall p, q :: 0 <= p < |list| && q == p + 1 ==>
      pick(q) == if keep(list[p].key) then pick(p)[list[p].key := list[p].value] else pick(p)
  }

  lemma StepAt(list: Entries, keep: Key -> bool, pick: Picks, p: nat)
    requires Steps(list, keep, pick) && p < |list|
    ensures pick(p + 1) == if keep(list[p].key) then pick(p)[list[p].key := list[p].value] else pick(p)
  {
  }

  /** A stretch without wanted keys adds nothing. */
  lemma {:induction false} StepsSkip(list: Entries, keep: Key -> bool, pick: Picks, p: nat, q: nat)
    requires Steps(list, keep, pick) && p <= q <= |list| && forall i :: p <= i < q ==> !keep(list[i].key)
    ensures pick(q) == pick(p)
    decreases q - p
  {
    if p < q {
      StepsSkip(list, keep, pick, p, q - 1);
      StepAt(list, keep, pick, q - 1);
    }
  }

  /** part stands in list from position p on. */
  ghost predicate FoundAt(list: Entries, p: nat, part: Entries) {
    p + |part| <= |list| && forall i :: 0 <= i < |part| ==> part[i] == list[p + i]
  }

  /** Pick from one block; `done` when a key was past. */
  method PickFromBlock(data: seq<byte>, keep: Key -> bool, past: Key -> bool, before: map<Key, Key>,
                       ghost group: Entries, ghost list: Entries, ghost base: nat, ghost pick: Picks)
    returns (results: map<Key, Key>, done: bool)
    requires data == EncodeEntries(group) && Small(group) && Steps(list, keep, pick) && Ends(list, keep, past)
    requires FoundAt(list, base, group) && before == pick(base)
    ensures results == pick(if done then |list| else base + |group|)
  {
    results, done := before, false;
    var rest := data;
    ghost var left: Entries, p: nat := group, base;
    while |rest| > 0
      invariant rest == EncodeEntries(left) && Small(left)
      invariant p + |left| == base + |group| && FoundAt(list, p, left)
      invariant results == pick(p)
      decreases |rest|
    {
      EntriesBack(left);
      var e := ReadEntry(rest);
      if e.Short? {
        break;
      }
      InGroup(list, p, left);
      StepAt(list, keep, pick, p);
      if keep(e.value.key) {
        results := results[e.value.key := e.value.value];
      } else if past(e.value.key) {
        StepsSkip(list, keep, pick, p, |list|);
        return results, true;
      }
      rest, left, p := e.rest, left[1..], p + 1;
    }
  }

  lemma InGroup(list: Entries, p: nat, left: Entries)
    requires left != [] && FoundAt(list, p, left)
    ensures list[p] == left[0] && FoundAt(list, p + 1, left[1..])
  {
  }

  /** The block before the first index key that reaches the start. */
  method StartIndex(index: Index, start: Key, ghost groups: Groups) returns (i: nat)
    requires FirstKeys(groups, index) && Sorted(Flatten(groups))
    ensures i <= |groups| && (index != [] ==> i < |index|) && (i > 0 ==> Less(index[i].key, start))
  {
    var reached := j => 0 <= j < |index| && AtMost(start, index[j].key);
    forall a, b | 0 <= a < b < |index| && reached(a) ensures reached(b) {
      IndexIncreases(groups, index, a, b);
      OrderLaws();
    }
    i := Search(|index|, reached);
    if i > 0 {
      i := i - 1;
      assert !reached(i);
      LessTotal(index[i].key, start);
    }
  }

  /** Everything before the starting block lies below the start. */
  lemma BeforeStart(groups: Groups, index: Index, i: nat, start: Key, p: nat)
    requires FirstKeys(groups, index) && Sorted(Flatten(groups)) && i < |groups| && Less(index[i].key, start)
    requires p < From(groups, i)
    ensures p < |Flatten(groups)| && Less(Flatten(groups)[p].key, start)
  {
    FirstKey(groups, index, i);
    LessTransitive(Flatten(groups)[p].key, index[i].key, start);
  }

  /** The list cut into its groups at these places. */
  ghost predicate Cut(list: Entries, groups: Groups, bounds: seq<nat>) {
    && |bounds| == |groups| + 1 && bounds[|groups|] == |list|
    && (forall i :: 0 <= i <= |groups| ==> bounds[i] <= |list|)
    && (forall i, j :: 0 <= i < |groups| && j == i + 1 ==>
          bounds[j] == bounds[i] + |groups[i]| && FoundAt(list, bounds[i], groups[i]))
  }

  lemma CutAt(list: Entries, groups: Groups, bounds: seq<nat>, i: nat)
    requires Cut(list, groups, bounds) && i < |groups|
    ensures bounds[i + 1] == bounds[i] + |groups[i]| && FoundAt(list, bounds[i], groups[i])
  {
  }

  ghost function Bounds(groups: Groups): (bounds: seq<nat>)
    ensures |bounds| == |groups| + 1 && forall i :: 0 <= i <= |groups| ==> bounds[i] == From(groups, i)
  {
    seq(|groups| + 1, i requires 0 <= i <= |groups| => From(groups, i))
  }

  lemma BoundsCut(groups: Groups)
    ensures Cut(Flatten(groups), groups, Bounds(groups))
  {
    FromAll(groups);
    forall i, j | 0 <= i < |groups| && j == i + 1
      ensures From(groups, j) == From(groups, i) + |groups[i]| <= |Flatten(groups)|
      ensures Flatten(groups)[From(groups, i)..From(groups, j)] == groups[i]
    {
      GroupSlice(groups, i);
    }
    forall i | 0 <= i <= |groups| ensures From(groups, i) <= |Flatten(groups)| {
      FromMonotone(groups, i, |groups|);
    }
  }

  /** Read block i and pick from it. */
  method PickOne(file: seq<byte>, size: nat, index: Index, i: nat, keep: Key -> bool, past: Key -> bool,
                 before: map<Key, Key>, ghost groups: Groups, ghost list: Entries, ghost base: nat, ghost pick: Picks)
    returns (results: map<Key, Key>, done: bool, ok: bool)
    requires Readable(file, size, index, groups) && i < |index| && FoundAt(list, base, groups[i])
    requires Steps(list, keep, pick) && Ends(list, keep, past) && before == pick(base)
    ensures ok && results == pick(if done then |list| else base + |groups[i]|)
  {
    var block := ReadGroup(file, size, index, i, groups);
    if block.None? {
      return before, false, false;
    }
    results, done := PickFromBlock(block.value, keep, past, before, groups[i], list, base, pick);
    ok := true;
  }

  /** Pick from group i, unless its first key already says stop. */
  method PickGroup(file: seq<byte>, size: nat, index: Index, i: nat, keep: Key -> bool, past: Key -> bool,
                   stop: Key -> bool, before: map<Key, Key>, ghost groups: Groups, ghost list: Entries,
                   ghost bounds: seq<nat>, ghost pick: Picks)
    returns (results: map<Key, Key>, done: bool, ok: bool)
    requires Readable(file, size, index, groups) && i < |index| && Cut(list, groups, bounds)
    requires Steps(list, keep, pick) && Ends(list, keep, past) && before == pick(bounds[i])
    requires stop(index[i].key) ==> forall p :: bounds[i] <= p < |list| ==> !keep(list[p].key)
    ensures ok && results == pick(if done then |list| else bounds[i + 1])
  {
    CutAt(list, groups, bounds, i);
    if stop(index[i].key) {
      StepsSkip(list, keep, pick, bounds[i], |list|);
      return before, true, true;
    }
    results, done, ok := PickOne(file, size, index, i, keep, past, before, groups, list, bounds[i], pick);
  }

  /** From a starting block on, block after block, until a key is past. */
  method PickFrom(file: seq<byte>, size: nat, index: Index, first: nat, keep: Key -> bool, past: Key -> bool,
                  stop: Key -> bool, ghost groups: Groups, ghost list: Entries, ghost bounds: seq<nat>,
                  ghost pick: Picks)
    returns (r: Result<map<Key, Key>>)
    requires Readable(file, size, index, groups) && first <= |index| && Cut(list, groups, bounds)
    requires Steps(list, keep, pick) && Ends(list, keep, past) && pick(0) == map[]
    requires forall p :: 0 <= p < bounds[first] ==> !keep(list[p].key)
    requires forall i, p :: 0 <= i < |index| && stop(index[i].key) && bounds[i] <= p < |list| ==> !keep(list[p].key)
    ensures r == Done(pick(|list|))
  {
    var results: map<Key, Key> := map[];
    StepsSkip(list, keep, pick, 0, bounds[first]);
    for i := first to |index|
      invariant results == pick(bounds[i])
    {
      var done, ok;
      results, done, ok := PickGroup(file, size, index, i, keep, past, stop, results, groups, list, bounds, pick);
      if !ok {
        return Failed;
      }
      if done {
        return Done(results);
      }
    }
    return Done(results);
  }

  ghost function PicksOf(list: Entries, keep: Key -> bool): Picks {
    p => if 0 <= p <= |list| then Picked(list[..p], keep) else map[]
  }

  lemma PicksStep(list: Entries, keep: Key -> bool)
    requires Sorted(list)
    ensures var pick := PicksOf(list, keep);
            Steps(list, keep, pick) && pick(0) == map[] && pick(|list|) == Picked(list, keep)
  {
    forall p, q | 0 <= p < |list| && q == p + 1
      ensures Picked(list[..q], keep)
           == if keep(list[p].key) then Picked(list[..p], keep)[list[p].key := list[p].value]
              else Picked(list[..p], keep)
    {
      PickedNext(list, p, keep);
    }
    TakeAll(list);
  }

  // ---------------------------------------------------------------- ranges

  /** Both ends belong to the range. */
  predicate InRange(start: Key, end: Key, k: Key) { AtMost(start, k) && AtMost(k, end) }

  lemma RangeEnds(list: Entries, start: Key, end: Key)
    requires Sorted(list)
    ensures Ends(list, k => InRange(start, end, k), k => Less(end, k))
  {
    forall i, j | 0 <= i <= j < |list| && Less(end, list[i].key) ensures !InRange(start, end, list[j].key) {
      AfterEnd(list, i, j, end);
    }
  }

  lemma AfterEnd(list: Entries, i: nat, j: nat, end: Key)
    requires Sorted(list) && i <= j < |list| && Less(end, list[i].key)
    ensures !AtMost(list[j].key, end)
  {
    OrderLaws();
  }

  method RangeScan(file: seq<byte>, size: nat, index: Index, start: Key, end: Key, ghost groups: Groups)
    returns (r: Result<map<Key, Key>>)
    requires Holds(file, size, index, groups)
    ensures r == Done(Picked(Flatten(groups), k => InRange(start, end, k)))
  {
    ghost var list := Flatten(groups);
    var keep, past := k => InRange(start, end, k), k => Less(end, k);
    var first := StartIndex(index, start, groups);
    RangeEnds(list, start, end);
    BoundsCut(groups);
    PicksStep(list, keep);
    forall p | 0 <= p < From(groups, first) && p < |list| ensures !keep(list[p].key) {
      if first > 0 {
        BeforeStart(groups, index, first, start, p);
        NotBoth(list[p].key, start);
      }
    }
    forall i, p | 0 <= i < |index| && past(index[i].key) && From(groups, i) <= p < |list| ensures !keep(list[p].key) {
      FirstKey(groups, index, i);
      AfterEnd(list, From(groups, i), p, end);
    }
    r := PickFrom(file, size, index, first, keep, past, past, groups, list, Bounds(groups), PicksOf(list, keep));
  }

  lemma NotBoth(a: Key, b: Key)
    requires Less(a, b)
    ensures !AtMost(b, a)
  {
    LessNotBoth(a, b);
  }

  // ---------------------------------------------------------------- prefixes

  predicate Matches(prefix: Key, k: Key) { |k| >= |prefix| && k[..|prefix|] == prefix }

  /** The common length of both is already above the prefix. */
  predicate PastPrefix(prefix: Key, k: Key) {
    var n := if |k| < |prefix| then |k| else |prefix|;
    Less(prefix[..n], k[..n])
  }

  lemma {:induction false} LessTruncated(a: Key, b: Key, n: nat)
    requires Less(a, b) && n <= |a| && n <= |b|
    ensures AtMost(a[..n], b[..n])
  {
    if n > 0 && a[0] == b[0] {
      LessTruncated(a[1..], b[1..], n - 1);
      assert a[..n][1..] == a[1..][..n - 1] && b[..n][1..] == b[1..][..n - 1];
      assert a[..n] == [a[0]] + a[1..][..n - 1] && b[..n] == [b[0]] + b[1..][..n - 1];
    }
  }

  /** A key with the prefix is not below it, and a key past it stays past. */
  lemma AfterPast(prefix: Key, a: Key, b: Key)
    requires PastPrefix(prefix, a) && AtMost(a, b)
    ensures !Matches(prefix, b)
  {
    if Matches(prefix, b) {
      var n := if |a| < |prefix| then |a| else |prefix|;
      assert b[..n] == b[..|prefix|][..n] == prefix[..n];
      OrderLaws();
      if a != b {
        LessTruncated(a, b, n);
      }
    }
  }

  lemma {:induction false} MatchNotBelow(prefix: Key, k: Key)
    requires Matches(prefix, k)
    ensures !Less(k, prefix)
  {
    if prefix != [] {
      assert k[..|prefix|][0] == k[0] && prefix[1..] == k[..|prefix|][1..] == k[1..][..|prefix| - 1];
      MatchNotBelow(prefix[1..], k[1..]);
    }
  }

  /** Past the prefix are the keys above it that do not have it. */
  lemma PastPrefixIff(prefix: Key, k: Key)
    ensures PastPrefix(prefix, k) <==> Less(prefix, k) && !Matches(prefix, k)
  {
    var n := if |k| < |prefix| then |k| else |prefix|;
    OrderLaws();
    if PastPrefix(prefix, k) {
      AfterPast(prefix, k, k);
      if Less(k, prefix) {
        LessTruncated(k, prefix, n);
      }
    } else if Less(prefix, k) {
      LessTruncated(prefix, k, n);
      CutBelow(prefix, k);
    }
  }

  /** A key above the prefix that agrees with it as far as both go has the prefix. */
  lemma {:induction false} CutBelow(prefix: Key, k: Key)
    requires Less(prefix, k) && var n := if |k| < |prefix| then |k| else |prefix|; prefix[..n] == k[..n]
    ensures Matches(prefix, k)
  {
    if |k| < |prefix| {
      assert prefix[..|k|] == k;
      MatchNotBelow(k, prefix);
    }
  }

  lemma PrefixEnds(list: Entries, prefix: Key)
    requires Sorted(list)
    ensures Ends(list, k => Matches(prefix, k), k => PastPrefix(prefix, k))
  {
    forall i, j | 0 <= i <= j < |list| && PastPrefix(prefix, list[i].key) ensures !Matches(prefix, list[j].key) {
      AfterPast(prefix, list[i].key, list[j].key);
    }
  }

  lemma NothingMatches(digest: Bloom.Digest, filter: Bloom.Filter, lo: nat, hi: nat, list: Entries, prefix: Key)
    requires filter.bits != [] && Sorted(list) && !Bloom.MayContain(digest, filter, lo, hi, prefix)
    requires forall e, p :: e in list && Bloom.IsPrefix(p, e.key) ==> Bloom.MayContain(digest, filter, lo, hi, p)
    ensures Picked(list, k => Matches(prefix, k)) == map[]
  {
    forall i | 0 <= i < |list| ensures !Matches(prefix, list[i].key) {
      if Matches(prefix, list[i].key) {
        assert list[i] in list && Bloom.IsPrefix(prefix, list[i].key);
      }
    }
    var keep := k => Matches(prefix, k);
    PicksStep(list, keep);
    StepsSkip(list, keep, PicksOf(list, keep), 0, |list|);
  }

  method PrefixScan(digest: Bloom.Digest, filter: Bloom.Filter, lo: nat, hi: nat, file: seq<byte>, size: nat,
                    index: Index,
                    prefix: Key, ghost groups: Groups) returns (r: Result<map<Key, Key>>)
    requires Holds(file, size, index, groups) && filter.bits != []
    requires forall e, p :: e in Flatten(groups) && Bloom.IsPrefix(p, e.key) ==>
              Bloom.MayContain(digest, filter, lo, hi, p)
    ensures r == Done(Picked(Flatten(groups), k => Matches(prefix, k)))
  {
    ghost var list := Flatten(groups);
    var possible := Bloom.PrefixContains(digest, filter, lo, hi, prefix);
    if !possible {
      NothingMatches(digest, filter, lo, hi, list, prefix);
      return Done(map[]);
    }
    var keep, past := k => Matches(prefix, k), k => PastPrefix(prefix, k);
    var first := StartIndex(index, prefix, groups);
    PrefixEnds(list, prefix);
    BoundsCut(groups);
    PicksStep(list, keep);
    forall p | 0 <= p < From(groups, first) && p < |list| ensures !keep(list[p].key) {
      if first > 0 {
        BeforeStart(groups, index, first, prefix, p);
        if keep(list[p].key) {
          MatchNotBelow(prefix, list[p].key);
        }
      }
    }
    r := PickFrom(file, size, index, first, keep, past, _ => false, groups, list, Bounds(groups), PicksOf(list, keep));
  }

  // ---------------------------------------------------------------- what the scans answer

  /** The picked entries are those of the list whose keys are wanted. */
  lemma PickedMembers(list: Entries, keep: Key -> bool, k: Key, v: Key)
    requires Sorted(list)
    ensures k in Picked(list, keep) && Picked(list, keep)[k] == v <==> Entry(k, v) in list && keep(k)
  {
    MapMembers(list, k, v);
  }

  /** Both ends belong to the range. */
  lemma PickedRange(list: Entries, start: Key, end: Key)
    requires Sorted(list)
    ensures var r := Picked(list, k => InRange(start, end, k));
            forall k, v :: k in r && r[k] == v <==> Entry(k, v) in list && !Less(k, start) && !Less(end, k)
  {
    OrderLaws();
    var keep := k => InRange(start, end, k);
    forall k, v ensures k in Picked(list, keep) && Picked(list, keep)[k] == v <==> Entry(k, v) in list && keep(k) {
      PickedMembers(list, keep, k, v);
    }
  }

  lemma PickedPrefix(list: Entries, prefix: Key)
    requires Sorted(list)
    ensures var r := Picked(list, k => Matches(prefix, k));
            forall k, v :: k in r && r[k] == v <==> Entry(k, v) in list && prefix <= k
  {
    var keep := k => Matches(prefix, k);
    forall k, v ensures k in Picked(list, keep) && Picked(list, keep)[k] == v <==> Entry(k, v) in list && keep(k) {
      PickedMembers(list, keep, k, v);
    }
  }
}
