/** The background scheduler that proposes tablet splits and merges. */
module TabletScheduler {
  import opened Keys
  import opened Ring
  import opened RingLaws
  import opened RingTable
  import opened Assignment
  import opened Tablets
  import opened Sorting

  // ---------------------------------------------------------------- choosing a boundary

  datatype Scan<T> = ScanFailed | Scanned(value: T)

  datatype Entry = Entry(key: Key, size: nat)

  datatype Boundary = NoScan | CannotSplit | SplitAt(key: Key)

  predicate EntryOrder(a: Entry, b: Entry) {
    AtMost(a.key, b.key)
  }

  function SizeOf(s: seq<Entry>): nat {
    if s == [] then 0 else SizeOf(s[..|s| - 1]) + s[|s| - 1].size
  }

  /** The bytes of the entries below k. */
  function SizeBelow(s: seq<Entry>, k: Key): nat {
    if s == [] then 0
    else SizeBelow(s[..|s| - 1], k) + if Less(s[|s| - 1].key, k) then s[|s| - 1].size else 0
  }

  /** How unevenly a boundary with the given bytes below it divides the total. */
  function Imbalance(total: nat, below: nat): nat {
    if total < 2 * below then 2 * below - total else total - 2 * below
  }

  function Gap(s: seq<Entry>, k: Key): nat {
    Imbalance(SizeOf(s), SizeBelow(s, k))
  }

  /** The key of an entry that leaves an entry below it. */
  ghost predicate Divides(s: seq<Entry>, k: Key) {
    exists d, e :: d in s && e in s && Less(d.key, k) && e.key == k
  }

  /** Of the keys that divide the entries, k does so most evenly, and is the least such key. */
  ghost predicate IsBestBoundary(s: seq<Entry>, k: Key) {
    && Divides(s, k)
    && forall l :: Divides(s, l) ==> Gap(s, k) < Gap(s, l) || (Gap(s, k) == Gap(s, l) && AtMost(k, l))
  }

  lemma BestBoundaryUnique(s: seq<Entry>, k: Key, l: Key)
    requires IsBestBoundary(s, k) && IsBestBoundary(s, l)
    ensures k == l
  {
    OrderLaws();
  }

  // The sizes depend on the entries only, not on their order.

  lemma {:induction false} SizeWithout(s: seq<Entry>, i: nat, k: Key)
    requires i < |s|
    ensures var t := s[..i] + s[i + 1..];
            && SizeOf(s) == SizeOf(t) + s[i].size
            && SizeBelow(s, k) == SizeBelow(t, k) + if Less(s[i].key, k) then s[i].size else 0
  {
    var n := |s| - 1;
    var t := s[..i] + s[i + 1..];
    if i == n {
      assert t == s[..n];
    } else {
      SizeWithout(s[..n], i, k);
      assert t[..n - 1] == s[..n][..i] + s[..n][i + 1..];
    }
  }

  lemma {:induction false} SizesOrderFree(s: seq<Entry>, t: seq<Entry>, k: Key)
    requires multiset(s) == multiset(t)
    ensures SizeOf(s) == SizeOf(t) && SizeBelow(s, k) == SizeBelow(t, k)
  {
    if s == [] {
      assert |t| == |multiset(t)| == 0;
    } else {
      var n := |s| - 1;
      var i := PositionOf(s, t);
      SizeWithout(t, i, k);
      SizesOrderFree(s[..n], t[..i] + t[i + 1..], k);
    }
  }

  /** The last entry of s somewhere in a rearrangement of s. */
  lemma PositionOf(s: seq<Entry>, t: seq<Entry>) returns (i: nat)
    requires multiset(s) == multiset(t) && s != []
    ensures i < |t| && t[i] == s[|s| - 1] && multiset(s[..|s| - 1]) == multiset(t[..i] + t[i + 1..])
  {
    var n := |s| - 1;
    assert s[n] in multiset(t);
    i :| 0 <= i < |t| && t[i] == s[n];
    RemoveAt(s, n);
    RemoveAt(t, i);
  }

  lemma RemoveAt(s: seq<Entry>, i: nat)
    requires i < |s|
    ensures multiset(s[..i] + s[i + 1..]) == multiset(s) - multiset{s[i]}
    ensures i == |s| - 1 ==> s[..i] + s[i + 1..] == s[..i]
  {
    assert s == s[..i] + [s[i]] + s[i + 1..];
  }

  /** The best boundary does not depend on the order in which the store yields the entries. */
  lemma BoundaryOrderFree(s: seq<Entry>, t: seq<Entry>, k: Key)
    requires multiset(s) == multiset(t)
    ensures IsBestBoundary(s, k) <==> IsBestBoundary(t, k)
  {
    forall l ensures Divides(s, l) <==> Divides(t, l) {
      SameMembers(s, t);
    }
    forall l ensures Gap(s, l) == Gap(t, l) {
      SizesOrderFree(s, t, l);
    }
  }

  lemma SameMembers(s: seq<Entry>, t: seq<Entry>)
    requires multiset(s) == multiset(t)
    ensures forall e :: e in s <==> e in t
  {
    assert forall e :: e in s <==> e in multiset(s);
    assert forall e :: e in t <==> e in multiset(t);
  }

  // The search goes over the cuts of the sorted entries.

  predicate IsCut(s: seq<Entry>, i: int) {
    0 < i < |s| && s[i - 1].key != s[i].key
  }

  lemma SizeOfNext(sorted: seq<Entry>, i: nat)
    requires i < |sorted|
    ensures SizeOf(sorted[..i + 1]) == SizeOf(sorted[..i]) + sorted[i].size
  {
    assert sorted[..i + 1][..i] == sorted[..i];
  }

  method TotalSize(sorted: seq<Entry>) returns (total: nat)
    ensures total == SizeOf(sorted)
  {
    total := 0;
    for i := 0 to |sorted|
      invariant total == SizeOf(sorted[..i])
    {
      SizeOfNext(sorted, i);
      total := total + sorted[i].size;
    }
    assert sorted[..|sorted|] == sorted;
  }

  lemma SizeBelowNext(s: seq<Entry>, i: nat, k: Key)
    requires i < |s|
    ensures SizeBelow(s[..i + 1], k) == SizeBelow(s[..i], k) + if Less(s[i].key, k) then s[i].size else 0
  {
    assert s[..i + 1][..i] == s[..i];
  }

  /** At a cut, the entries before it are those below its key. */
  lemma CutSize(sorted: seq<Entry>, i: nat)
    requires SortedBy(EntryOrder, sorted) && IsCut(sorted, i)
    ensures SizeBelow(sorted, sorted[i].key) == SizeOf(sorted[..i])
  {
    var n := 0;
    while n < |sorted|
      invariant 0 <= n <= |sorted|
      invariant SizeBelow(sorted[..n], sorted[i].key) == SizeOf(sorted[..if n < i then n else i])
    {
      SizeBelowNext(sorted, n, sorted[i].key);
      SizeOfNext(sorted, n);
      BelowCut(sorted, i, n);
      n := n + 1;
    }
    assert sorted[..n] == sorted;
  }

  lemma BelowCut(sorted: seq<Entry>, i: nat, j: nat)
    requires SortedBy(EntryOrder, sorted) && IsCut(sorted, i) && j < |sorted|
    ensures Less(sorted[j].key, sorted[i].key) <==> j < i
  {
    assert EntryOrder(sorted[i - 1], sorted[i]);
    assert j < i - 1 ==> EntryOrder(sorted[j], sorted[i - 1]);
    assert i < j ==> EntryOrder(sorted[i], sorted[j]);
    OrderLaws();
  }

  /** The cuts of the sorted entries are the keys that divide them. */
  lemma CutDivides(sorted: seq<Entry>, i: nat)
    requires SortedBy(EntryOrder, sorted) && IsCut(sorted, i)
    ensures Divides(sorted, sorted[i].key)
            && Gap(sorted, sorted[i].key) == Imbalance(SizeOf(sorted), SizeOf(sorted[..i]))
  {
    BelowCut(sorted, i, i - 1);
    assert sorted[i - 1] in sorted && sorted[i] in sorted;
    CutSize(sorted, i);
  }

  lemma NotAtMost(a: Key, b: Key)
    requires Less(a, b)
    ensures !AtMost(b, a)
  {
    LessIrreflexive(a);
    if Less(b, a) {
      LessTransitive(a, b, a);
    }
  }

  lemma DividerPlaces(sorted: seq<Entry>, k: Key) returns (j: nat, i: nat)
    requires SortedBy(EntryOrder, sorted) && Divides(sorted, k)
    ensures j < i < |sorted| && sorted[i].key == k && sorted[j].key != k
  {
    var d, e :| d in sorted && e in sorted && Less(d.key, k) && e.key == k;
    i :| 0 <= i < |sorted| && sorted[i] == e;
    j :| 0 <= j < |sorted| && sorted[j] == d;
    NotAtMost(d.key, k);
    assert i < j ==> EntryOrder(sorted[i], sorted[j]);
  }

  lemma DividerIsCut(sorted: seq<Entry>, k: Key) returns (i: nat)
    requires SortedBy(EntryOrder, sorted) && Divides(sorted, k)
    ensures IsCut(sorted, i) && sorted[i].key == k
  {
    var j;
    j, i := DividerPlaces(sorted, k);
    while sorted[i - 1].key == k
      invariant j < i < |sorted| && sorted[i].key == k
      decreases i
    {
      i := i - 1;
    }
  }

  lemma NoCutNoDivider(sorted: seq<Entry>)
    requires SortedBy(EntryOrder, sorted) && forall j :: 0 < j < |sorted| ==> !IsCut(sorted, j)
    ensures forall k :: !Divides(sorted, k)
  {
    forall k ensures !Divides(sorted, k) {
      if Divides(sorted, k) {
        var i := DividerIsCut(sorted, k);
      }
    }
  }

  /** Among the cuts before i, best is the first of least imbalance; zero means there is none. */
  ghost predicate BestBefore(sorted: seq<Entry>, i: nat, best: nat) {
    if best == 0 then forall j :: 0 < j < i ==> !IsCut(sorted, j)
    else
      && best < i && IsCut(sorted, best)
      && (forall j :: 0 < j < i && IsCut(sorted, j) ==> CutGap(sorted, best) <= CutGap(sorted, j))
      && (forall j :: 0 < j < best && IsCut(sorted, j) ==> CutGap(sorted, best) < CutGap(sorted, j))
  }

  function CutGap(sorted: seq<Entry>, i: nat): nat
    requires i <= |sorted|
  {
    Imbalance(SizeOf(sorted), SizeOf(sorted[..i]))
  }

  lemma BestNext(sorted: seq<Entry>, i: nat, best: nat)
    requires 0 < i && BestBefore(sorted, i, best)
    ensures !IsCut(sorted, i) ==> BestBefore(sorted, i + 1, best)
    ensures IsCut(sorted, i) ==>
              BestBefore(sorted, i + 1, if best == 0 || CutGap(sorted, i) < CutGap(sorted, best) then i else best)
  {
  }

  lemma BestCutIsBest(sorted: seq<Entry>, best: nat)
    requires SortedBy(EntryOrder, sorted) && best != 0 && BestBefore(sorted, |sorted|, best)
    ensures IsBestBoundary(sorted, sorted[best].key)
  {
    var k := sorted[best].key;
    CutDivides(sorted, best);
    forall l | Divides(sorted, l)
      ensures Gap(sorted, k) < Gap(sorted, l) || (Gap(sorted, k) == Gap(sorted, l) && AtMost(k, l))
    {
      var j := DividerIsCut(sorted, l);
      CutDivides(sorted, j);
      assert best < j ==> EntryOrder(sorted[best], sorted[j]);
    }
  }

  /** Scan a range, sort the entries and cut them where the two halves are most alike. */
  method PickSplitBoundary(r: Range, scan: Scan<seq<Entry>>) returns (b: Boundary)
    ensures b.NoScan? <==> scan.ScanFailed?
    ensures b.CannotSplit? <==> scan.Scanned? && forall k :: !Divides(scan.value, k)
    ensures b.SplitAt? ==> IsBestBoundary(scan.value, b.key)
    ensures b.SplitAt? && (forall e :: e in scan.value ==> r.Contains(e.key)) ==> Inside(r, b.key)
  {
    if scan.ScanFailed? {
      return NoScan;
    }
    var entries := scan.value;
    if |entries| < 2 {
      OrderLaws();
      return CannotSplit;
    }
    var sorted := SortBy(EntryOrder, entries);
    EntriesSorted(entries);
    b := BestCut(sorted);
    if b.SplitAt? {
      BoundaryOrderFree(sorted, entries, b.key);
      DividerIsInside(entries, r, b.key);
    }
  }

  lemma EntriesSorted(entries: seq<Entry>)
    ensures var sorted := SortBy(EntryOrder, entries);
            && SortedBy(EntryOrder, sorted) && multiset(sorted) == multiset(entries) && |sorted| == |entries|
            && (forall k :: Divides(sorted, k) <==> Divides(entries, k))
  {
    OrderLaws();
    SortByFacts(EntryOrder, entries);
    SameMembers(SortBy(EntryOrder, entries), entries);
    assert |multiset(SortBy(EntryOrder, entries))| == |multiset(entries)|;
  }

  /** The search itself; zero means that there is no cut. */
  method FindCut(sorted: seq<Entry>) returns (best: nat)
    requires |sorted| >= 2
    ensures BestBefore(sorted, |sorted|, best)
  {
    var total := TotalSize(sorted);
    var prefix, bestDifference := 0, 0;
    best := 0;
    for i := 1 to |sorted|
      invariant prefix == SizeOf(sorted[..i - 1]) && BestBefore(sorted, i, best)
      invariant best != 0 ==> bestDifference == CutGap(sorted, best)
    {
      SizeOfNext(sorted, i - 1);
      BestNext(sorted, i, best);
      prefix := prefix + sorted[i - 1].size;
      assert prefix == SizeOf(sorted[..i]);
      if sorted[i - 1].key == sorted[i].key {
        continue;
      }
      var difference := total - 2 * prefix;
      if difference < 0 {
        difference := -difference;
      }
      assert difference == CutGap(sorted, i) && IsCut(sorted, i);
      if best == 0 || difference < bestDifference {
        best, bestDifference := i, difference;
      }
    }
  }

  method BestCut(sorted: seq<Entry>) returns (b: Boundary)
    requires SortedBy(EntryOrder, sorted) && |sorted| >= 2
    ensures !b.NoScan?
    ensures b.CannotSplit? <==> forall k :: !Divides(sorted, k)
    ensures b.SplitAt? ==> IsBestBoundary(sorted, b.key)
  {
    var best := FindCut(sorted);
    if best == 0 {
      NoCutNoDivider(sorted);
      return CannotSplit;
    }
    BestCutIsBest(sorted, best);
    return SplitAt(sorted[best].key);
  }

  /** A key that divides entries of a range cuts that range in two. */
  lemma DividerIsInside(entries: seq<Entry>, r: Range, k: Key)
    requires Divides(entries, k)
    ensures (forall e :: e in entries ==> r.Contains(e.key)) ==> Inside(r, k)
  {
    OrderLaws();
  }

  // ---------------------------------------------------------------- settling

  datatype SettledRange = SettledRange(start: Key, end: Key, generation: uint64, proposalId: Key)

  function Identity(r: Range): SettledRange {
    SettledRange(r.start, r.end, r.generation, r.proposalId)
  }

  /** The ranges of a snapshot that the node replicates. */
  function Held(node: Key, snapshot: RangeMap): set<SettledRange> {
    set r | r in snapshot && node in r.replicas :: Identity(r)
  }

  function CountOf(settled: map<SettledRange, nat>, id: SettledRange): nat {
    if id in settled then settled[id] else 0
  }

  function Settle(settled: map<SettledRange, nat>, node: Key, snapshot: RangeMap): map<SettledRange, nat> {
    map id | id in Held(node, snapshot) :: CountOf(settled, id) + 1
  }

  lemma SettleStep(settled: map<SettledRange, nat>, node: Key, s: RangeMap, r: Range)
    ensures Settle(settled, node, s + [r]) ==
            if node in r.replicas then Settle(settled, node, s)[Identity(r) := CountOf(settled, Identity(r)) + 1]
            else Settle(settled, node, s)
  {
    assert Held(node, s + [r]) == Held(node, s) + (if node in r.replicas then {Identity(r)} else {}) by {
      forall id
        ensures id in Held(node, s + [r]) <==> id in Held(node, s) || (node in r.replicas && id == Identity(r))
      {
        assert forall x :: x in s + [r] <==> x in s || x == r;
      }
    }
  }

  method CountSettled(settled: map<SettledRange, nat>, node: Key, snapshot: RangeMap)
      returns (next: map<SettledRange, nat>)
    ensures next == Settle(settled, node, snapshot)
  {
    next := map[];
    for i := 0 to |snapshot|
      invariant next == Settle(settled, node, snapshot[..i])
    {
      var r := snapshot[i];
      SettleStep(settled, node, snapshot[..i], r);
      assert snapshot[..i + 1] == snapshot[..i] + [r];
      if node in r.replicas {
        next := next[Identity(r) := CountOf(settled, Identity(r)) + 1];
      }
    }
    assert snapshot[..|snapshot|] == snapshot;
  }

  function SettledAfter(node: Key, snapshots: seq<RangeMap>): map<SettledRange, nat> {
    if snapshots == [] then map[]
    else Settle(SettledAfter(node, snapshots[..|snapshots| - 1]), node, snapshots[|snapshots| - 1])
  }

  /** In how many of the latest snapshots, without interruption, the node held the range. */
  function Streak(node: Key, snapshots: seq<RangeMap>, id: SettledRange): nat {
    if snapshots == [] || id !in Held(node, snapshots[|snapshots| - 1]) then 0
    else 1 + Streak(node, snapshots[..|snapshots| - 1], id)
  }

  /** The counter of a range is the length of its uninterrupted streak. */
  lemma {:induction false} SettledCountsStreak(node: Key, snapshots: seq<RangeMap>, id: SettledRange)
    ensures CountOf(SettledAfter(node, snapshots), id) == Streak(node, snapshots, id)
  {
    if snapshots != [] {
      SettledCountsStreak(node, snapshots[..|snapshots| - 1], id);
    }
  }

  // ---------------------------------------------------------------- proposing

  method ProposeSplit(hash: seq<byte> -> uint64, digest: Digest, snapshot: RangeMap, index: nat, boundary: Key,
                      candidates: seq<Key>, count: int) returns (attempt: Attempt)
    requires index < |snapshot|
    ensures attempt == SplitAttempt(hash, digest, snapshot, index, boundary, Elements(candidates) - {[]}, count)
  {
    var current := snapshot[index];
    if current.generation == MAX_UINT64 || boundary == [] || boundary == current.start || boundary == current.end {
      return NoProposal;
    }
    var left := AssignReplicas(Score(hash, current.start, boundary), candidates, current.replicas, count);
    if !left.Replicas? {
      return NoProposal;
    }
    var right := AssignReplicas(Score(hash, boundary, current.end), candidates, current.replicas, count);
    if !right.Replicas? {
      return NoProposal;
    }
    var id := SplitId(digest, current, boundary, left.ids, right.ids);
    return Proposed(snapshot[..index] + Children(current, boundary, left.ids, right.ids, id) + snapshot[index + 1..]);
  }

  method ProposeMerge(hash: seq<byte> -> uint64, digest: Digest, snapshot: RangeMap, leftIndex: nat,
                      candidates: seq<Key>, count: int) returns (attempt: Attempt)
    requires leftIndex + 1 < |snapshot|
    ensures attempt == MergeAttempt(hash, digest, snapshot, leftIndex, Elements(candidates) - {[]}, count)
  {
    var left, right := snapshot[leftIndex], snapshot[leftIndex + 1];
    if left.generation == MAX_UINT64 || right.generation == MAX_UINT64 {
      return NoProposal;
    }
    var retained := IntersectReplicas(left.replicas, right.replicas);
    var replicas := AssignReplicas(Score(hash, left.start, right.end), candidates, retained, count);
    if !replicas.Replicas? {
      return NoProposal;
    }
    var id := MergeId(digest, left, right, replicas.ids);
    return Proposed(snapshot[..leftIndex] + [MergedRange(left, right, replicas.ids, id)] + snapshot[leftIndex + 2..]);
  }

  /** Two nodes that split the same range of the same map at the same key, and
      know the same nodes to be alive, in whatever order, make one and the same
      proposal; merging one decision into the other changes nothing. */
  lemma IndependentDecidersAgree(hash: seq<byte> -> uint64, digest: Digest, m: RangeMap, index: nat, boundary: Key,
                                 mine: seq<Key>, theirs: seq<Key>, count: int)
    requires Canonical(m) && index < |m| && Inside(m[index], boundary)
    requires Elements(mine) - {[]} == Elements(theirs) - {[]}
    requires SplitAttempt(hash, digest, m, index, boundary, Elements(mine) - {[]}, count).Proposed?
    ensures var a := SplitAttempt(hash, digest, m, index, boundary, Elements(mine) - {[]}, count).ranges;
            var b := SplitAttempt(hash, digest, m, index, boundary, Elements(theirs) - {[]}, count);
            b == Proposed(a) && Canonical(a) && TableMerge(a, b.ranges, a, false)
  {
    SplitKeepsDataReachable(hash, digest, m, index, boundary, Elements(mine) - {[]}, count);
    var a := SplitAttempt(hash, digest, m, index, boundary, Elements(mine) - {[]}, count).ranges;
    SelfMerge(a);
    forall k: Key ensures !PickAt(a, a, k).tied {
    }
  }

  datatype Config = Config(nodeId: Key, hash: seq<byte> -> uint64, digest: Digest, splitBytes: int, mergeBytes: int,
                           replicationFactor: int, settlingTicks: int)

  /** Replicated here, and seen unchanged for enough ticks. */
  predicate Eligible(cfg: Config, settled: map<SettledRange, nat>, r: Range) {
    cfg.nodeId in r.replicas && CountOf(settled, Identity(r)) >= cfg.settlingTicks
  }

  /** What the node's scans of the store say about a range, if they succeed. */
  datatype Store = Store(estimate: (Key, Key) -> Scan<int>, boundary: (Key, Key) -> Scan<Key>)

  datatype Plan = Nothing | SplitHere(boundary: Key) | MergeNext

  /** What the scheduler wants at range i: the split of an eligible range that is
      large enough, or the merge of two eligible neighbours that are both small
      enough. */
  function PlanAt(cfg: Config, store: Store, settled: map<SettledRange, nat>, snapshot: RangeMap, i: nat): (p: Plan)
    requires i < |snapshot|
    ensures p.MergeNext? ==> i + 1 < |snapshot|
  {
    var r := snapshot[i];
    var size := store.estimate(r.start, r.end);
    if !Eligible(cfg, settled, r) || size.ScanFailed? then Nothing
    else if size.value >= cfg.splitBytes then
      match store.boundary(r.start, r.end)
      case ScanFailed => Nothing
      case Scanned(b) => SplitHere(b)
    else if size.value <= cfg.mergeBytes && i + 1 < |snapshot| && Eligible(cfg, settled, snapshot[i + 1]) then
      match store.estimate(snapshot[i + 1].start, snapshot[i + 1].end)
      case ScanFailed => Nothing
      case Scanned(next) => if next <= cfg.mergeBytes then MergeNext else Nothing
    else Nothing
  }

  /** What it proposes. */
  ghost function Decision(cfg: Config, store: Store, settled: map<SettledRange, nat>, snapshot: RangeMap,
                          alive: set<Key>, i: nat): Attempt
    requires i < |snapshot|
  {
    match PlanAt(cfg, store, settled, snapshot, i)
    case Nothing => NoProposal
    case SplitHere(b) => SplitAttempt(cfg.hash, cfg.digest, snapshot, i, b, alive, cfg.replicationFactor)
    case MergeNext => MergeAttempt(cfg.hash, cfg.digest, snapshot, i, alive, cfg.replicationFactor)
  }

  /** The attempt would leave the table as it is. */
  ghost predicate Idle(snapshot: RangeMap, attempt: Attempt)
    requires Validate(snapshot)
  {
    attempt.Proposed? ==> TableMerge(snapshot, attempt.ranges, snapshot, false)
  }

  datatype Publication = Quiet | Published(epoch: uint64)

  /** The table before and after a map arrives from another node. */
  ghost predicate Arrives(before: RangeMap, incoming: RangeMap, after: RangeMap)
    requires Validate(before)
  {
    Validate(after) && exists changed :: TableMerge(before, incoming, after, changed)
  }

  /** held[i] is the table that the proposal for range i meets; it is decided on
      the snapshot, and maps may have arrived since. */
  ghost predicate Meets(snapshot: RangeMap, arrives: nat -> RangeMap, held: seq<RangeMap>)
    requires Validate(snapshot)
  {
    && (forall i :: 0 <= i < |held| ==> Validate(held[i]))
    && (held != [] ==> Arrives(snapshot, arrives(0), held[0]))
    && (forall i, j :: 0 <= i < j < |held| && j == i + 1 ==> Arrives(held[i], arrives(j), held[j]))
  }

  /** The first n proposals change nothing. */
  ghost predicate AllIdle(cfg: Config, store: Store, settled: map<SettledRange, nat>, snapshot: RangeMap,
                          alive: set<Key>,
                          held: seq<RangeMap>, n: nat)
    requires n <= |held| <= |snapshot| && forall i :: 0 <= i < |held| ==> Validate(held[i])
  {
    forall i :: 0 <= i < n ==> Idle(held[i], Decision(cfg, store, settled, snapshot, alive, i))
  }

  /** The first proposal that changes the table is the only one, and its epoch
      is published; if there is none, nothing is. */
  ghost predicate Ticked(cfg: Config, store: Store, settled: map<SettledRange, nat>, snapshot: RangeMap,
                         alive: set<Key>,
                         held: seq<RangeMap>, after: RangeMap, published: Publication)
    requires Validate(snapshot) && forall i :: 0 <= i < |held| ==> Validate(held[i])
  {
    && 0 < |held| <= |snapshot|
    && AllIdle(cfg, store, settled, snapshot, alive, held, if published.Quiet? then |held| else |held| - 1)
    && var n := |held| - 1;
       match published
       case Quiet => |held| == |snapshot| && after == held[n]
       case Published(epoch) =>
         var d := Decision(cfg, store, settled, snapshot, alive, n);
         d.Proposed? && TableMerge(held[n], d.ranges, after, true) && IsEpoch(after, epoch)
  }

  /** The ranges before |held| have been dealt with, and the table is now as given. */
  ghost predicate Ticking(cfg: Config, store: Store, settled: map<SettledRange, nat>, snapshot: RangeMap,
                          alive: set<Key>,
                          arrives: nat -> RangeMap, held: seq<RangeMap>, now: RangeMap)
  {
    && Validate(snapshot) && |held| <= |snapshot| && Meets(snapshot, arrives, held)
    && AllIdle(cfg, store, settled, snapshot, alive, held, |held|)
    && Validate(now) && now == if held == [] then snapshot else held[|held| - 1]
  }

  lemma MeetsNext(snapshot: RangeMap, arrives: nat -> RangeMap, held: seq<RangeMap>, t: RangeMap)
    requires Validate(snapshot) && Meets(snapshot, arrives, held)
    requires Arrives(if held == [] then snapshot else held[|held| - 1], arrives(|held|), t)
    ensures Meets(snapshot, arrives, held + [t])
  {
  }

  /** The next proposal changes nothing. */
  lemma TicksOn(cfg: Config, store: Store, settled: map<SettledRange, nat>, snapshot: RangeMap, alive: set<Key>,
                arrives: nat -> RangeMap, held: seq<RangeMap>, now: RangeMap, met: RangeMap)
    requires Ticking(cfg, store, settled, snapshot, alive, arrives, held, now) && |held| < |snapshot|
    requires Arrives(now, arrives(|held|), met) && Idle(met, Decision(cfg, store, settled, snapshot, alive, |held|))
    ensures Ticking(cfg, store, settled, snapshot, alive, arrives, held + [met], met)
  {
    MeetsNext(snapshot, arrives, held, met);
    IdleNext(cfg, store, settled, snapshot, alive, held, met);
  }

  lemma IdleNext(cfg: Config, store: Store, settled: map<SettledRange, nat>, snapshot: RangeMap, alive: set<Key>,
                 held: seq<RangeMap>, met: RangeMap)
    requires |held| < |snapshot| && (forall i :: 0 <= i < |held| ==> Validate(held[i])) && Validate(met)
    requires AllIdle(cfg, store, settled, snapshot, alive, held, |held|)
    requires Idle(met, Decision(cfg, store, settled, snapshot, alive, |held|))
    ensures AllIdle(cfg, store, settled, snapshot, alive, held + [met], |held| + 1)
  {
    var next := held + [met];
    forall i | 0 <= i <= |held| ensures Idle(next[i], Decision(cfg, store, settled, snapshot, alive, i)) {
      if i < |held| {
        assert next[i] == held[i];
      }
    }
  }

  /** The next proposal changes the table. */
  lemma TickEnds(cfg: Config, store: Store, settled: map<SettledRange, nat>, snapshot: RangeMap, alive: set<Key>,
                 arrives: nat -> RangeMap, held: seq<RangeMap>, now: RangeMap, met: RangeMap,
                 after: RangeMap, epoch: uint64)
    requires Ticking(cfg, store, settled, snapshot, alive, arrives, held, now) && |held| < |snapshot|
    requires Arrives(now, arrives(|held|), met) && IsEpoch(after, epoch)
    requires var d := Decision(cfg, store, settled, snapshot, alive, |held|);
             d.Proposed? && TableMerge(met, d.ranges, after, true)
    ensures Meets(snapshot, arrives, held + [met])
    ensures Ticked(cfg, store, settled, snapshot, alive, held + [met], after, Published(epoch))
  {
    MeetsNext(snapshot, arrives, held, met);
    var next := held + [met];
    assert forall i :: 0 <= i < |held| ==> next[i] == held[i];
  }

  class Scheduler {
    const cfg: Config
    const table: Table
    var settled: map<SettledRange, nat>

    constructor (cfg: Config, table: Table)
      ensures this.cfg == cfg && this.table == table && settled == SettledAfter(cfg.nodeId, [])
    {
      this.cfg, this.table, settled := cfg, table, map[];
    }

    method UpdateSettled(snapshot: RangeMap)
      modifies this
      ensures settled == Settle(old(settled), cfg.nodeId, snapshot)
    {
      var next := CountSettled(settled, cfg.nodeId, snapshot);
      settled := next;
    }

    method Decide(snapshot: RangeMap, i: nat, candidates: seq<Key>, store: Store) returns (attempt: Attempt)
      requires i < |snapshot|
      ensures attempt == Decision(cfg, store, settled, snapshot, Elements(candidates) - {[]}, i)
    {
      var r := snapshot[i];
      if !Eligible(cfg, settled, r) {
        return NoProposal;
      }
      var size := store.estimate(r.start, r.end);
      if size.ScanFailed? {
        return NoProposal;
      }
      if size.value >= cfg.splitBytes {
        var b := store.boundary(r.start, r.end);
        if b.ScanFailed? {
          return NoProposal;
        }
        attempt := ProposeSplit(cfg.hash, cfg.digest, snapshot, i, b.value, candidates, cfg.replicationFactor);
        return;
      }
      if size.value <= cfg.mergeBytes && i + 1 < |snapshot| {
        var next := snapshot[i + 1];
        if !Eligible(cfg, settled, next) {
          return NoProposal;
        }
        var nextSize := store.estimate(next.start, next.end);
        if nextSize.Scanned? && nextSize.value <= cfg.mergeBytes {
          attempt := ProposeMerge(cfg.hash, cfg.digest, snapshot, i, candidates, cfg.replicationFactor);
          return;
        }
      }
      return NoProposal;
    }

    /** Decide about one range and merge the proposal, if any, into the table, to
        which another node's map has been merged before. */
    method TickRange(snapshot: RangeMap, i: nat, candidates: seq<Key>, store: Store, arrival: RangeMap)
        returns (changed: bool, ghost met: RangeMap)
      requires Validate(table.rangeMap) && i < |snapshot|
      modifies table
      ensures Validate(table.rangeMap) && Arrives(old(table.rangeMap), arrival, met)
      ensures var d := Decision(cfg, store, settled, snapshot, Elements(candidates) - {[]}, i);
              if changed then d.Proposed? && TableMerge(met, d.ranges, table.rangeMap, true)
              else Idle(met, d) && table.rangeMap == met
    {
      changed := table.Merge(arrival);
      met := table.rangeMap;
      var attempt := Decide(snapshot, i, candidates, store);
      changed := false;
      if attempt.Proposed? {
        changed := table.Merge(attempt.ranges);
      }
    }

    /** One round: at most one proposal takes effect, and only for settled
        ranges that this node replicates. Size estimates and boundary picks
        are scans of the store, given here as functions of the range; arrives
        says which map another node's exchange merges in before each proposal
        (a malformed one stands for none). */
    method Tick(candidates: seq<Key>, store: Store, arrives: nat -> RangeMap)
        returns (published: Publication, ghost held: seq<RangeMap>)
      requires Validate(table.rangeMap)
      modifies this, table
      ensures settled == Settle(old(settled), cfg.nodeId, old(table.rangeMap))
      ensures Validate(table.rangeMap) && Meets(old(table.rangeMap), arrives, held)
      ensures Ticked(cfg, store, settled, old(table.rangeMap), Elements(candidates) - {[]}, held, table.rangeMap,
                     published)
    {
      var snapshot := table.rangeMap;
      UpdateSettled(snapshot);
      ghost var counts, alive := settled, Elements(candidates) - {[]};
      held := [];
      for i := 0 to |snapshot|
        invariant settled == counts && |held| == i
        invariant Ticking(cfg, store, counts, snapshot, alive, arrives, held, table.rangeMap)
      {
        ghost var now := table.rangeMap;
        var changed, met := TickRange(snapshot, i, candidates, store, arrives(i));
        if changed {
          var epoch := table.Epoch();
          TickEnds(cfg, store, counts, snapshot, alive, arrives, held, now, met, table.rangeMap, epoch);
          return Published(epoch), held + [met];
        }
        TicksOn(cfg, store, counts, snapshot, alive, arrives, held, now, met);
        held := held + [met];
      }
      published := Quiet;
    }
  }

  // ---------------------------------------------------------------- when a range is acted upon

  /** The snapshot has this very range, replicated at the node. */
  ghost predicate HeldIn(node: Key, snapshot: RangeMap, r: Range) {
    exists x :: x in snapshot && node in x.replicas && x.start == r.start && x.end == r.end
                && x.generation == r.generation && x.proposalId == r.proposalId
  }

  /** The node has held this range in each of the last ticks snapshots. */
  ghost predicate HeldFor(node: Key, snapshots: seq<RangeMap>, r: Range, ticks: int) {
    && ticks <= |snapshots|
    && forall j :: 0 <= j < |snapshots| && |snapshots| - ticks <= j ==> HeldIn(node, snapshots[j], r)
  }

  lemma HeldIffIn(node: Key, snapshot: RangeMap, r: Range)
    ensures Identity(r) in Held(node, snapshot) <==> HeldIn(node, snapshot, r)
  {
    if Identity(r) in Held(node, snapshot) {
      var x :| x in snapshot && node in x.replicas && Identity(x) == Identity(r);
    }
    if HeldIn(node, snapshot, r) {
      var x :| x in snapshot && node in x.replicas && x.start == r.start && x.end == r.end
               && x.generation == r.generation && x.proposalId == r.proposalId;
      assert Identity(x) == Identity(r);
    }
  }

  lemma {:induction false} StreakMeans(node: Key, snapshots: seq<RangeMap>, r: Range, ticks: int)
    ensures Streak(node, snapshots, Identity(r)) >= ticks <==> HeldFor(node, snapshots, r, ticks)
  {
    if snapshots != [] && ticks > 0 {
      var n := |snapshots| - 1;
      HeldIffIn(node, snapshots[n], r);
      StreakMeans(node, snapshots[..n], r, ticks - 1);
      assert HeldFor(node, snapshots, r, ticks) <==>
          HeldIn(node, snapshots[n], r) && HeldFor(node, snapshots[..n], r, ticks - 1) by {
        if HeldFor(node, snapshots, r, ticks) {
          forall j | 0 <= j < n && n - (ticks - 1) <= j ensures HeldIn(node, snapshots[..n][j], r) {
            assert HeldIn(node, snapshots[j], r);
          }
        }
        if HeldIn(node, snapshots[n], r) && HeldFor(node, snapshots[..n], r, ticks - 1) {
          forall j | 0 <= j < |snapshots| && |snapshots| - ticks <= j ensures HeldIn(node, snapshots[j], r) {
            assert j < n ==> HeldIn(node, snapshots[..n][j], r);
          }
        }
      }
    }
  }

  /** Replicated here, and held for the settling time. */
  ghost predicate Ready(cfg: Config, snapshots: seq<RangeMap>, r: Range) {
    cfg.nodeId in r.replicas && HeldFor(cfg.nodeId, snapshots, r, cfg.settlingTicks)
  }

  lemma ReadyIffEligible(cfg: Config, snapshots: seq<RangeMap>, r: Range)
    ensures Eligible(cfg, SettledAfter(cfg.nodeId, snapshots), r) <==> Ready(cfg, snapshots, r)
  {
    SettledCountsStreak(cfg.nodeId, snapshots, Identity(r));
    StreakMeans(cfg.nodeId, snapshots, r, cfg.settlingTicks);
  }

  /** The plan for range i, given whether it and its right neighbour are ready: a
      ready range of at least splitBytes is split at the boundary found; a ready
      range of at most mergeBytes is merged with a ready right neighbour that is
      as small; nothing else is done. */
  ghost predicate Wanted(cfg: Config, store: Store, s: RangeMap, i: nat, ready: bool, nextReady: bool, plan: Plan)
    requires i < |s|
  {
    var size, cut := store.estimate(s[i].start, s[i].end), store.boundary(s[i].start, s[i].end);
    && (forall b :: plan == SplitHere(b) <==>
          ready && size.Scanned? && size.value >= cfg.splitBytes && cut == Scanned(b))
    && (plan.MergeNext? <==>
          && ready && size.Scanned? && size.value < cfg.splitBytes && size.value <= cfg.mergeBytes
          && nextReady && i + 1 < |s|
          && var next := store.estimate(s[i + 1].start, s[i + 1].end); next.Scanned? && next.value <= cfg.mergeBytes)
  }

  lemma PlanIsWanted(cfg: Config, store: Store, settled: map<SettledRange, nat>, s: RangeMap, i: nat)
    requires i < |s|
    ensures Wanted(cfg, store, s, i, Eligible(cfg, settled, s[i]), i + 1 < |s| && Eligible(cfg, settled, s[i + 1]),
                   PlanAt(cfg, store, settled, s, i))
  {
  }

  /** What is wanted at a range of the latest snapshot, after the snapshots so far. */
  lemma PlanMeans(cfg: Config, store: Store, snapshots: seq<RangeMap>, s: RangeMap, i: nat)
    requires snapshots != [] && s == snapshots[|snapshots| - 1] && i < |s|
    ensures Wanted(cfg, store, s, i, Ready(cfg, snapshots, s[i]), i + 1 < |s| && Ready(cfg, snapshots, s[i + 1]),
                   PlanAt(cfg, store, SettledAfter(cfg.nodeId, snapshots), s, i))
  {
    PlanIsWanted(cfg, store, SettledAfter(cfg.nodeId, snapshots), s, i);
    ReadyIffEligible(cfg, snapshots, s[i]);
    if i + 1 < |s| {
      ReadyIffEligible(cfg, snapshots, s[i + 1]);
    }
  }
}
