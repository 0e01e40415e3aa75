/** The routing table: versioned partitions of the keyspace and their merge. */
module Ring {
  import opened Keys

  /** A half-open key interval; an empty start or end means "unbounded". */
  datatype Range = Range(start: Key, end: Key, replicas: seq<Key>, generation: uint64, proposalId: Key) {
    predicate Contains(key: Key) {
      && !(start != [] && Less(key, start))
      && !(end != [] && !Less(key, end))
    }
  }

  type RangeMap = seq<Range>

  // ---------------------------------------------------------------- validation

  predicate WellFormed(r: Range) {
    && r.generation != 0
    && r.proposalId != []
    && r.replicas != []
    && (r.end != [] ==> Less(r.start, r.end))
  }

  /** Exactly what the code checks. It does not rule out an unbounded end
      before the last range; see Canonical. */
  predicate Validate(m: RangeMap) {
    && m != []
    && m[0].start == []
    && m[|m| - 1].end == []
    && (forall i :: 0 <= i < |m| ==> WellFormed(m[i]))
    && (forall i :: 0 < i < |m| ==> m[i].start == m[i - 1].end)
  }

  datatype Fault =
    | NoRanges | BoundedStart | BoundedEnd | NoGeneration | NoProposalId | NoReplicas | Inverted | Gap | NoFault

  /** The checks one after the other; the first one that fails is reported. */
  method CheckMap(m: RangeMap) returns (fault: Fault)
    ensures fault.NoFault? <==> Validate(m)
    ensures fault.NoFault? ==>
              && |m| >= 1 && m[0].start == [] && m[|m| - 1].end == []
              && (forall r :: r in m ==> r.generation >= 1 && |r.proposalId| >= 1 && |r.replicas| >= 1)
              && (forall r :: r in m && r.end != [] ==> Less(r.start, r.end))
              && (forall i, j :: 0 <= i < |m| && j == i + 1 && j < |m| ==> m[j].start == m[i].end)
    ensures !fault.NoFault? ==>
              || m == [] || m[0].start != [] || m[|m| - 1].end != []
              || (exists r :: r in m && (r.generation == 0 || r.proposalId == [] || r.replicas == []))
              || (exists r :: r in m && r.end != [] && !Less(r.start, r.end))
              || (exists i, j :: 0 <= i < |m| && j == i + 1 && j < |m| && m[j].start != m[i].end)
  {
    if |m| == 0 { return NoRanges; }
    if m[0].start != [] { return BoundedStart; }
    if m[|m| - 1].end != [] { return BoundedEnd; }
    for i := 0 to |m|
      invariant forall j :: 0 <= j < i ==> WellFormed(m[j])
      invariant forall j :: 0 < j < i ==> m[j].start == m[j - 1].end
    {
      var r := m[i];
      if r.generation == 0 { return NoGeneration; }
      if r.proposalId == [] { return NoProposalId; }
      if |r.replicas| == 0 { return NoReplicas; }
      if r.end != [] && !Less(r.start, r.end) { return Inverted; }
      if i == 0 {
        continue;
      }
      if r.start != m[i - 1].end { return Gap; }
    }
    return NoFault;
  }

  /** A map without gaps and without overlaps: a partition of the keyspace. */
  predicate Canonical(m: RangeMap) {
    && Validate(m)
    && (forall i :: 0 <= i < |m| - 1 ==> m[i].end != [])
  }

  /** i is the first range that contains key, and every earlier range ends at or below key. */
  predicate IsIndex(m: RangeMap, key: Key, i: int) {
    && 0 <= i < |m|
    && m[i].Contains(key)
    && (forall j :: 0 <= j < i ==> m[j].end != [] && !Less(key, m[j].end))
  }

  lemma IndexUnique(m: RangeMap, key: Key, i: int, j: int)
    requires IsIndex(m, key, i) && IsIndex(m, key, j)
    ensures i == j
  {
  }

  lemma IndexExistsFrom(m: RangeMap, key: Key, i: nat) returns (r: nat)
    requires Validate(m) && i < |m| && !Less(key, m[i].start)
    requires forall j :: 0 <= j < i ==> m[j].end != [] && !Less(key, m[j].end)
    ensures IsIndex(m, key, r)
    decreases |m| - i
  {
    if m[i].Contains(key) {
      r := i;
    } else {
      r := IndexExistsFrom(m, key, i + 1);
    }
  }

  /** The range a lookup of key lands in. */
  ghost function IndexAt(m: RangeMap, key: Key): (i: nat)
    requires Validate(m)
    ensures IsIndex(m, key, i)
  {
    assert exists i: nat :: IsIndex(m, key, i) by {
      var r := IndexExistsFrom(m, key, 0);
    }
    var i: nat :| IsIndex(m, key, i);
    i
  }

  ghost function At(m: RangeMap, key: Key): (r: Range)
    requires Validate(m)
    ensures r in m && r.Contains(key) && WellFormed(r)
  {
    m[IndexAt(m, key)]
  }

  /** The linear search of the source; on a validated map it cannot fall through. */
  method RangeIndexAt(ranges: RangeMap, key: Key) returns (index: nat)
    requires Validate(ranges)
    ensures index == IndexAt(ranges, key)
  {
    index := 0;
    while !ranges[index].Contains(key)
      invariant index < |ranges| && !Less(key, ranges[index].start)
      invariant forall j :: 0 <= j < index ==> ranges[j].end != [] && !Less(key, ranges[j].end)
      decreases |ranges| - index
    {
      index := index + 1;
    }
  }

  // ---------------------------------------------------------------- picking a winner

  /** Which map a range came from (0: current, 1: incoming) and its position there. */
  datatype Source = Source(side: nat, index: nat)

  datatype Pick = Pick(winner: Range, source: Source, tied: bool)

  datatype ProposalRef = ProposalRef(side: nat, proposalId: Key, generation: uint64, index: int)

  function CompareKeys(a: Key, b: Key): int {
    if Less(a, b) then -1 else if Less(b, a) then 1 else 0
  }

  function CompareReplicas(a: seq<Key>, b: seq<Key>): int {
    if a == [] || b == [] then
      if a == [] && b == [] then 0 else if a == [] then -1 else 1
    else if CompareKeys(a[0], b[0]) != 0 then CompareKeys(a[0], b[0])
    else CompareReplicas(a[1..], b[1..])
  }

  function CompareTieCandidate(left: Range, right: Range): int {
    if CompareKeys(left.proposalId, right.proposalId) != 0 then CompareKeys(left.proposalId, right.proposalId)
    else if CompareKeys(left.start, right.start) != 0 then CompareKeys(left.start, right.start)
    else if CompareKeys(left.end, right.end) != 0 then CompareKeys(left.end, right.end)
    else CompareReplicas(left.replicas, right.replicas)
  }

  function PickRange(local: Range, incoming: Range, localIndex: nat, incomingIndex: nat): Pick {
    if local.generation > incoming.generation then Pick(local, Source(0, localIndex), false)
    else if incoming.generation > local.generation then Pick(incoming, Source(1, incomingIndex), false)
    else if local == incoming then Pick(local, Source(0, localIndex), false)
    else if CompareTieCandidate(local, incoming) <= 0 then Pick(local, Source(0, localIndex), true)
    else Pick(incoming, Source(1, incomingIndex), true)
  }

  function ProposalReference(source: Source, r: Range): ProposalRef {
    ProposalRef(source.side, r.proposalId, r.generation, if r.proposalId == [] then source.index else -1)
  }

  lemma {:induction false} CompareReplicasAntisymmetric(a: seq<Key>, b: seq<Key>)
    ensures CompareReplicas(a, b) == -CompareReplicas(b, a)
    ensures CompareReplicas(a, b) == 0 ==> a == b
  {
    OrderLaws();
    if a != [] && b != [] {
      CompareReplicasAntisymmetric(a[1..], b[1..]);
      assert a == [a[0]] + a[1..] && b == [b[0]] + b[1..];
    }
  }

  /** The tie-break is antisymmetric and separates any two distinct ranges of one generation. */
  lemma TieBreakAntisymmetric(l: Range, r: Range)
    ensures CompareTieCandidate(l, r) == -CompareTieCandidate(r, l)
    ensures CompareTieCandidate(l, r) == 0 && l.generation == r.generation ==> l == r
  {
    OrderLaws();
    CompareReplicasAntisymmetric(l.replicas, r.replicas);
  }

  // ---------------------------------------------------------------- the pointwise specification

  /** What the two maps decide for one key. */
  ghost function PickAt(m: RangeMap, n: RangeMap, key: Key): Pick
    requires Validate(m) && Validate(n)
  {
    PickRange(At(m, key), At(n, key), IndexAt(m, key), IndexAt(n, key))
  }

  ghost function RefAt(m: RangeMap, n: RangeMap, key: Key): ProposalRef
    requires Validate(m) && Validate(n)
  {
    ProposalReference(PickAt(m, n, key).source, PickAt(m, n, key).winner)
  }

  /** Some key was tied and went to this proposal, so all of the proposal moves up. */
  ghost predicate Bumped(m: RangeMap, n: RangeMap, ref: ProposalRef)
    requires Validate(m) && Validate(n)
  {
    exists k: Key :: PickAt(m, n, k).tied && RefAt(m, n, k) == ref
  }

  ghost predicate TieAtMaximum(m: RangeMap, n: RangeMap)
    requires Validate(m) && Validate(n)
  {
    exists k: Key :: PickAt(m, n, k).tied && PickAt(m, n, k).winner.generation == MAX_UINT64
  }

  ghost function MergedGeneration(m: RangeMap, n: RangeMap, key: Key): nat
    requires Validate(m) && Validate(n)
  {
    PickAt(m, n, key).winner.generation + if Bumped(m, n, RefAt(m, n, key)) then 1 else 0
  }

  /** The winner comes from one and the same range all the way from a to b. */
  ghost predicate OneWinner(m: RangeMap, n: RangeMap, a: Key, b: Key)
    requires Validate(m) && Validate(n)
  {
    forall k: Key :: AtMost(a, k) && AtMost(k, b) ==> PickAt(m, n, k).source == PickAt(m, n, a).source
  }

  /** r is the merge of m and n: a partition that carries, at every key, the
      winner's replicas and proposal and its possibly bumped generation, and
      that has a boundary exactly where the winning range changes. */
  ghost predicate IsMerge(m: RangeMap, n: RangeMap, r: RangeMap)
    requires Validate(m) && Validate(n)
  {
    && Canonical(r)
    && (forall k: Key ::
          && At(r, k).replicas == PickAt(m, n, k).winner.replicas
          && At(r, k).proposalId == PickAt(m, n, k).winner.proposalId
          && At(r, k).generation == MergedGeneration(m, n, k))
    && (forall a: Key, b: Key :: AtMost(a, b) ==>
          (IndexAt(r, a) == IndexAt(r, b) <==> OneWinner(m, n, a, b)))
  }

  // ---------------------------------------------------------------- the merge algorithm

  datatype Segment = Segment(start: Key, end: Key, range: Range, source: Source)

  datatype MergeResult =
    | Merged(ranges: RangeMap, changed: bool)
    | InvalidCurrent
    | InvalidIncoming
    | GenerationTieAtMaximum

  predicate StrictlyIncreasing(s: seq<Key>) {
    forall i, j :: 0 <= i < j < |s| ==> Less(s[i], s[j])
  }

  /** Insert into a strictly increasing list. */
  method InsertKey(sorted: seq<Key>, key: Key) returns (r: seq<Key>)
    requires StrictlyIncreasing(sorted) && key !in sorted
    ensures StrictlyIncreasing(r)
    ensures forall k :: k in r <==> k in sorted || k == key
  {
    OrderLaws();
    var i := 0;
    while i < |sorted| && Less(sorted[i], key)
      invariant 0 <= i <= |sorted|
      invariant forall j :: 0 <= j < i ==> Less(sorted[j], key)
    {
      i := i + 1;
    }
    r := sorted[..i] + [key] + sorted[i..];
    assert sorted == sorted[..i] + sorted[i..];
  }

  ghost predicate IsBoundary(m: RangeMap, key: Key) {
    key != [] && exists i :: 0 <= i < |m| && m[i].end == key
  }

  /** All bounded ends of both maps, sorted and without duplicates. */
  method MergeBoundaries(left: RangeMap, right: RangeMap) returns (boundaries: seq<Key>)
    ensures StrictlyIncreasing(boundaries)
    ensures forall k :: k in boundaries <==> IsBoundary(left, k) || IsBoundary(right, k)
  {
    var unique: set<Key> := {};
    for i := 0 to |left|
      invariant forall k :: k in unique <==> IsBoundary(left[..i], k)
    {
      assert left[..i + 1] == left[..i] + [left[i]];
      if left[i].end != [] { unique := unique + {left[i].end}; }
      assert left[..i + 1][i].end == left[i].end;
    }
    assert left[..|left|] == left;
    for i := 0 to |right|
      invariant forall k :: k in unique <==> IsBoundary(left, k) || IsBoundary(right[..i], k)
    {
      assert right[..i + 1] == right[..i] + [right[i]];
      if right[i].end != [] { unique := unique + {right[i].end}; }
      assert right[..i + 1][i].end == right[i].end;
    }
    assert right[..|right|] == right;
    boundaries := [];
    var rest := unique;
    while rest != {}
      invariant StrictlyIncreasing(boundaries)
      invariant rest <= unique
      invariant forall k :: k in boundaries <==> k in unique && k !in rest
      decreases rest
    {
      var key :| key in rest;
      boundaries := InsertKey(boundaries, key);
      rest := rest - {key};
    }
  }

  predicate InInterval(start: Key, end: Key, k: Key) {
    AtMost(start, k) && (end == [] || Less(k, end))
  }

  /** Every key of a segment is decided the way the segment says. */
  ghost predicate Decides(pick: Key -> Pick, s: Segment) {
    && s.range == pick(s.start).winner
    && s.source == pick(s.start).source
    && forall k: Key :: InInterval(s.start, s.end, k) ==> pick(k) == pick(s.start)
  }

  /** Between two neighbouring boundaries a lookup always lands in the same range. */
  lemma IndexConstant(m: RangeMap, start: Key, end: Key, k: Key)
    requires Validate(m) && InInterval(start, end, k)
    requires forall b: Key :: IsBoundary(m, b) && Less(start, b) ==> end != [] && AtMost(end, b)
    ensures IndexAt(m, k) == IndexAt(m, start)
  {
    OrderLaws();
    var i := IndexAt(m, start);
    if m[i].end != [] {
      assert IsBoundary(m, m[i].end);
    }
    assert IsIndex(m, k, i);
    IndexUnique(m, k, i, IndexAt(m, k));
  }

  predicate SameRangeMetadata(left: Range, right: Range) {
    left.generation == right.generation && left.proposalId == right.proposalId && left.replicas == right.replicas
  }

  /** What the merge decides for one key. */
  datatype Label = Label(source: Source, replicas: seq<Key>, proposalId: Key, generation: nat)

  /** r carries the label of every key in its interval. */
  ghost predicate Carries(decide: Key -> Label, r: Range, source: Source) {
    forall k: Key :: InInterval(r.start, r.end, k) ==>
      decide(k) == Label(source, r.replicas, r.proposalId, r.generation)
  }

  /** Two neighbouring ranges won by one source extend to one range. */
  lemma CarriesExtends(decide: Key -> Label, last: Range, r: Range, source: Source)
    requires forall a, b :: decide(a).source == decide(b).source ==> decide(a) == decide(b)
    requires Carries(decide, last, source) && Carries(decide, r, source)
    requires last.end == r.start && Less(last.start, last.end) && (r.end != [] ==> Less(r.start, r.end))
    ensures SameRangeMetadata(last, r)
    ensures Carries(decide, last.(end := r.end), source)
    ensures r.end != [] ==> Less(last.start, r.end)
  {
    OrderLaws();
    assert InInterval(last.start, last.end, last.start) && InInterval(r.start, r.end, r.start);
    assert decide(last.start) == decide(r.start);
    forall k: Key | InInterval(last.start, r.end, k)
      ensures decide(k) == Label(source, last.replicas, last.proposalId, last.generation)
    {
      assert InInterval(last.start, last.end, k) || InInterval(r.start, r.end, k);
    }
  }

  /** Adjacent, non-empty ranges that begin at the least key. */
  predicate Chain(ranges: seq<Range>) {
    && (ranges != [] ==> ranges[0].start == [])
    && (forall i :: 0 < i < |ranges| ==> ranges[i].start == ranges[i - 1].end)
    && (forall i :: 0 <= i < |ranges| - 1 ==> ranges[i].end != [])
    && (forall i :: 0 <= i < |ranges| && ranges[i].end != [] ==> Less(ranges[i].start, ranges[i].end))
  }

  function Clip(s: Segment): Range {
    s.range.(start := s.start, end := s.end)
  }

  function Clips(segments: seq<Segment>): seq<Range> {
    seq(|segments|, i requires 0 <= i < |segments| => Clip(segments[i]))
  }

  /** A chain of labelled ranges up to an end, no two neighbours from the same source. */
  ghost predicate Coalesced(decide: Key -> Label, ranges: seq<Range>, sources: seq<Source>, end: Key) {
    && ranges != [] && Chain(ranges) && ranges[|ranges| - 1].end == end
    && |ranges| == |sources| && (forall i :: 0 <= i < |ranges| ==> Carries(decide, ranges[i], sources[i]))
    && (forall i :: 0 < i < |ranges| ==> sources[i] != sources[i - 1])
  }

  lemma CoalesceJoin(decide: Key -> Label, ranges: seq<Range>, sources: seq<Source>, r: Range)
    requires Coalesced(decide, ranges, sources, r.start) && r.start != [] && (r.end != [] ==> Less(r.start, r.end))
    requires forall a, b :: decide(a).source == decide(b).source ==> decide(a) == decide(b)
    requires Carries(decide, r, sources[|sources| - 1])
    ensures SameRangeMetadata(ranges[|ranges| - 1], r)
    ensures var n := |ranges| - 1; Coalesced(decide, ranges[n := ranges[n].(end := r.end)], sources, r.end)
  {
    CarriesExtends(decide, ranges[|ranges| - 1], r, sources[|sources| - 1]);
  }

  lemma CoalesceAdd(decide: Key -> Label, ranges: seq<Range>, sources: seq<Source>, r: Range, source: Source)
    requires Coalesced(decide, ranges, sources, r.start) && r.start != [] && (r.end != [] ==> Less(r.start, r.end))
    requires Carries(decide, r, source) && source != sources[|sources| - 1]
    ensures Coalesced(decide, ranges + [r], sources + [source], r.end)
  {
  }

  /** Join neighbours that were won by the same source. */
  method CoalesceSegments(segments: seq<Segment>, ghost decide: Key -> Label)
      returns (ranges: seq<Range>, sources: seq<Source>)
    requires segments != [] && segments[|segments| - 1].end == []
    requires Chain(Clips(segments))
    requires forall a, b :: decide(a).source == decide(b).source ==> decide(a) == decide(b)
    requires forall s :: s in segments ==> Carries(decide, Clip(s), s.source)
    ensures Coalesced(decide, ranges, sources, [])
  {
    ghost var clips := Clips(segments);
    ranges, sources := [], [];
    for i := 0 to |segments|
      invariant i == 0 ==> ranges == [] && sources == []
      invariant i > 0 ==> Coalesced(decide, ranges, sources, segments[i - 1].end)
    {
      var s := segments[i];
      var r := Clip(s);
      assert r == clips[i];
      assert i > 0 ==> clips[i - 1].end == r.start && clips[i - 1].end != [];
      if i > 0 && sources[|sources| - 1] == s.source {
        CoalesceJoin(decide, ranges, sources, r);
      } else if i > 0 {
        CoalesceAdd(decide, ranges, sources, r, s.source);
      }
      if i > 0 && sources[|sources| - 1] == s.source && SameRangeMetadata(ranges[|ranges| - 1], r) {
        ranges := ranges[|ranges| - 1 := ranges[|ranges| - 1].(end := r.end)];
      } else {
        ranges, sources := ranges + [r], sources + [s.source];
      }
    }
  }

  ghost predicate OneSource(decide: Key -> Label, a: Key, b: Key) {
    forall k: Key :: AtMost(a, k) && AtMost(k, b) ==> decide(k).source == decide(a).source
  }

  /** In a partition, containing a key is the same as being its lookup result. */
  lemma {:induction false} ContainsIsIndex(m: RangeMap, key: Key, i: nat)
    requires Validate(m) && i < |m| && m[i].Contains(key)
    requires forall j :: 0 <= j < i ==> m[j].end != []
    ensures IndexAt(m, key) == i
  {
    OrderLaws();
    var j := i;
    while j > 0
      invariant 0 <= j <= i && !Less(key, m[j].start)
      invariant forall l :: j <= l < i ==> m[l].end != [] && !Less(key, m[l].end)
    {
      j := j - 1;
      assert m[j + 1].start == m[j].end;
    }
    IndexUnique(m, key, i, IndexAt(m, key));
  }

  /** A chain of labelled ranges is a partition that answers every lookup with the key's label. */
  lemma ChainIsPartition(decide: Key -> Label, r: RangeMap, sources: seq<Source>)
    requires r != [] && Chain(r) && r[|r| - 1].end == [] && |r| == |sources|
    requires forall i :: 0 <= i < |r| ==> Carries(decide, r[i], sources[i])
    requires forall k: Key :: decide(k).generation != 0 && decide(k).proposalId != [] && decide(k).replicas != []
    ensures Canonical(r)
    ensures forall k: Key :: decide(k) == Label(sources[IndexAt(r, k)], At(r, k).replicas, At(r, k).proposalId,
                                                At(r, k).generation)
  {
    OrderLaws();
    forall i | 0 <= i < |r| ensures WellFormed(r[i]) {
      assert InInterval(r[i].start, r[i].end, r[i].start);
    }
    forall k: Key
      ensures decide(k) == Label(sources[IndexAt(r, k)], At(r, k).replicas, At(r, k).proposalId, At(r, k).generation)
    {
      var i := IndexAt(r, k);
      assert InInterval(r[i].start, r[i].end, k);
      assert Carries(decide, r[i], sources[i]);
    }
  }

  /** If neighbouring ranges have different sources, two keys share a range
      exactly when the source does not change between them. */
  lemma ChainBoundaries(decide: Key -> Label, r: RangeMap, sources: seq<Source>, a: Key, b: Key)
    requires Canonical(r) && |r| == |sources| && AtMost(a, b)
    requires forall k: Key :: decide(k).source == sources[IndexAt(r, k)]
    requires forall i :: 0 < i < |r| ==> sources[i] != sources[i - 1]
    ensures IndexAt(r, a) == IndexAt(r, b) <==> OneSource(decide, a, b)
  {
    OrderLaws();
    var i, j := IndexAt(r, a), IndexAt(r, b);
    if i == j {
      forall k: Key | AtMost(a, k) && AtMost(k, b) ensures decide(k).source == decide(a).source {
        IndexUnique(r, k, i, IndexAt(r, k));
      }
    } else {
      // the first key of the next range lies between a and b and has another source
      var k := r[i + 1].start;
      assert k == r[i].end;
      ContainsIsIndex(r, k, i + 1);
      assert AtMost(a, k) && AtMost(k, b);
    }
  }

  ghost function LabelAt(m: RangeMap, n: RangeMap, k: Key): Label
    requires Validate(m) && Validate(n)
  {
    var p := PickAt(m, n, k);
    Label(p.source, p.winner.replicas, p.winner.proposalId, MergedGeneration(m, n, k))
  }

  /** The labels of a merge satisfy what coalescing and the partition argument ask for. */
  lemma LabelsWellFormed(m: RangeMap, n: RangeMap)
    requires Validate(m) && Validate(n)
    ensures forall a: Key, b: Key :: LabelAt(m, n, a).source == LabelAt(m, n, b).source ==>
              LabelAt(m, n, a) == LabelAt(m, n, b)
    ensures forall k: Key ::
              && LabelAt(m, n, k).generation != 0
              && LabelAt(m, n, k).proposalId != []
              && LabelAt(m, n, k).replicas != []
  {
    forall a: Key, b: Key | LabelAt(m, n, a).source == LabelAt(m, n, b).source
      ensures LabelAt(m, n, a) == LabelAt(m, n, b)
    {
      assert PickAt(m, n, a).winner == PickAt(m, n, b).winner;
      assert RefAt(m, n, a) == RefAt(m, n, b);
    }
  }

  /** The coalesced segments are the merge. */
  lemma CoalescedIsMerge(m: RangeMap, n: RangeMap, r: RangeMap, sources: seq<Source>)
    requires Validate(m) && Validate(n)
    requires r != [] && Chain(r) && r[|r| - 1].end == [] && |r| == |sources|
    requires forall i :: 0 <= i < |r| ==> Carries(k => LabelAt(m, n, k), r[i], sources[i])
    requires forall i :: 0 < i < |r| ==> sources[i] != sources[i - 1]
    ensures IsMerge(m, n, r)
  {
    var decide := k => LabelAt(m, n, k);
    LabelsWellFormed(m, n);
    ChainIsPartition(decide, r, sources);
    forall k: Key
      ensures At(r, k).replicas == PickAt(m, n, k).winner.replicas
      ensures At(r, k).proposalId == PickAt(m, n, k).winner.proposalId
      ensures At(r, k).generation == MergedGeneration(m, n, k)
    {
      assert decide(k) == LabelAt(m, n, k);
    }
    forall a: Key, b: Key | AtMost(a, b)
      ensures IndexAt(r, a) == IndexAt(r, b) <==> OneWinner(m, n, a, b)
    {
      ChainBoundaries(decide, r, sources, a, b);
      assert OneSource(decide, a, b) <==> OneWinner(m, n, a, b);
    }
  }

  /** The pieces [starts[i], ends[i]) follow each other and cover the keyspace. */
  ghost predicate Cuts(starts: seq<Key>, ends: seq<Key>) {
    && |starts| == |ends| > 0
    && starts[0] == [] && ends[|ends| - 1] == []
    && (forall i, j :: 0 <= i < j < |ends| && j == i + 1 ==> starts[j] == ends[i])
    && (forall i :: 0 <= i < |ends| - 1 ==> ends[i] != [] && Less(starts[i], ends[i]))
  }

  /** Within a piece every key is decided the same way. */
  ghost predicate ConstantOnPieces(pick: Key -> Pick, starts: seq<Key>, ends: seq<Key>) {
    && |starts| == |ends|
    && forall i, k: Key :: 0 <= i < |ends| && InInterval(starts[i], ends[i], k) ==> pick(k) == pick(starts[i])
  }

  lemma BoundariesSuffice(m: RangeMap, n: RangeMap, boundaries: seq<Key>, starts: seq<Key>, ends: seq<Key>)
    requires Validate(m) && Validate(n) && StrictlyIncreasing(boundaries)
    requires forall k :: k in boundaries <==> IsBoundary(m, k) || IsBoundary(n, k)
    requires starts == [[]] + boundaries && ends == boundaries + [[]]
    ensures Cuts(starts, ends) && ConstantOnPieces(k => PickAt(m, n, k), starts, ends)
  {
    OrderLaws();
    forall i, k: Key | 0 <= i < |ends| && InInterval(starts[i], ends[i], k)
      ensures PickAt(m, n, k) == PickAt(m, n, starts[i])
    {
      forall b: Key | (IsBoundary(m, b) || IsBoundary(n, b)) && Less(starts[i], b)
        ensures ends[i] != [] && AtMost(ends[i], b)
      {
        var j :| 0 <= j < |boundaries| && boundaries[j] == b;
        assert j >= i && boundaries[i] in boundaries;
      }
      IndexConstant(m, starts[i], ends[i], k);
      IndexConstant(n, starts[i], ends[i], k);
    }
    forall i | 0 <= i < |ends| - 1 ensures ends[i] != [] && Less(starts[i], ends[i]) {
      assert boundaries[i] in boundaries;
    }
  }

  /** A chain that ends unbounded covers every key. */
  lemma ChainCovers(ranges: seq<Range>, key: Key) returns (i: nat)
    requires ranges != [] && Chain(ranges) && ranges[|ranges| - 1].end == []
    ensures i < |ranges| && InInterval(ranges[i].start, ranges[i].end, key)
  {
    OrderLaws();
    i := 0;
    while !InInterval(ranges[i].start, ranges[i].end, key)
      invariant i < |ranges| && AtMost(ranges[i].start, key)
      decreases |ranges| - i
    {
      i := i + 1;
    }
  }

  ghost predicate RecordsTies(pick: Key -> Pick, segments: seq<Segment>, bumps: set<ProposalRef>) {
    && (forall ref :: ref in bumps ==> exists j :: 0 <= j < |segments| && pick(segments[j].start).tied
                                         && ref == ProposalReference(segments[j].source, segments[j].range))
    && (forall j :: 0 <= j < |segments| && pick(segments[j].start).tied ==>
          && segments[j].range.generation != MAX_UINT64
          && ProposalReference(segments[j].source, segments[j].range) in bumps)
  }

  /** If the segments cover every key, the recorded references are those of all tied keys. */
  lemma TiesAreExact(pick: Key -> Pick, segments: seq<Segment>, bumps: set<ProposalRef>)
    requires segments != [] && segments[|segments| - 1].end == [] && Chain(Clips(segments))
    requires forall j :: 0 <= j < |segments| ==> Decides(pick, segments[j])
    requires RecordsTies(pick, segments, bumps)
    ensures forall k: Key :: pick(k).tied ==>
              pick(k).winner.generation != MAX_UINT64 && ProposalReference(pick(k).source, pick(k).winner) in bumps
    ensures forall ref :: ref in bumps ==>
              exists k: Key :: pick(k).tied && ProposalReference(pick(k).source, pick(k).winner) == ref
  {
    forall k: Key | pick(k).tied
      ensures pick(k).winner.generation != MAX_UINT64 && ProposalReference(pick(k).source, pick(k).winner) in bumps
    {
      var j := ChainCovers(Clips(segments), k);
      assert Decides(pick, segments[j]);
    }
    forall ref | ref in bumps
      ensures exists k: Key :: pick(k).tied && ProposalReference(pick(k).source, pick(k).winner) == ref
    {
      var j :| 0 <= j < |segments| && pick(segments[j].start).tied
               && ref == ProposalReference(segments[j].source, segments[j].range);
      assert Decides(pick, segments[j]);
    }
  }

  lemma RecordsTiesStep(pick: Key -> Pick, segments: seq<Segment>, bumps: set<ProposalRef>, s: Segment,
                        next: set<ProposalRef>)
    requires RecordsTies(pick, segments, bumps)
    requires pick(s.start).tied ==> s.range.generation != MAX_UINT64
    requires next == bumps + if pick(s.start).tied then {ProposalReference(s.source, s.range)} else {}
    ensures RecordsTies(pick, segments + [s], next)
  {
    var all := segments + [s];
    assert forall j :: 0 <= j < |segments| ==> all[j] == segments[j];
    forall ref | ref in next
      ensures exists j ::
                0 <= j < |all| && pick(all[j].start).tied && ref == ProposalReference(all[j].source, all[j].range)
    {
      if ref in bumps {
        var j :| 0 <= j < |segments| && pick(segments[j].start).tied
                 && ref == ProposalReference(segments[j].source, segments[j].range);
        assert all[j] == segments[j];
      } else {
        assert all[|segments|] == s;
      }
    }
  }

  method PickAtBoundary(m: RangeMap, n: RangeMap, start: Key) returns (pick: Pick)
    requires Validate(m) && Validate(n)
    ensures pick == PickAt(m, n, start)
  {
    var localIndex := RangeIndexAt(m, start);
    var incomingIndex := RangeIndexAt(n, start);
    pick := PickRange(m[localIndex], n[incomingIndex], localIndex, incomingIndex);
  }

  lemma CutsChain(starts: seq<Key>, ends: seq<Key>, segments: seq<Segment>)
    requires Cuts(starts, ends) && |segments| == |ends|
    requires forall j :: 0 <= j < |segments| ==> segments[j].start == starts[j] && segments[j].end == ends[j]
    ensures Chain(Clips(segments))
  {
    var clips := Clips(segments);
    assert forall j :: 0 <= j < |segments| ==> clips[j].start == starts[j] && clips[j].end == ends[j];
  }

  /** Pick a winner for each piece. */
  method Overlay(m: RangeMap, n: RangeMap, ghost starts: seq<Key>, ends: seq<Key>, ghost pickAt: Key -> Pick)
      returns (ok: bool, segments: seq<Segment>, bumps: set<ProposalRef>)
    requires Validate(m) && Validate(n) && Cuts(starts, ends) && ConstantOnPieces(pickAt, starts, ends)
    requires forall i :: 0 <= i < |starts| ==> pickAt(starts[i]) == PickAt(m, n, starts[i])
    ensures !ok ==> exists k :: pickAt(k).tied && pickAt(k).winner.generation == MAX_UINT64
    ensures ok ==> segments != [] && segments[|segments| - 1].end == [] && Chain(Clips(segments))
    ensures ok ==> forall j :: 0 <= j < |segments| ==> Decides(pickAt, segments[j])
    ensures ok ==> RecordsTies(pickAt, segments, bumps)
  {
    segments, bumps := [], {};
    var start: Key := [];
    for i := 0 to |ends|
      invariant |segments| == i
      invariant i < |ends| ==> start == starts[i]
      invariant forall j :: 0 <= j < i ==> segments[j].start == starts[j] && segments[j].end == ends[j]
      invariant forall j :: 0 <= j < i ==> Decides(pickAt, segments[j])
      invariant RecordsTies(pickAt, segments, bumps)
    {
      var end := ends[i];
      ghost var before := bumps;
      var pick := PickAtBoundary(m, n, start);
      assert pick == pickAt(start);
      if pick.tied {
        if pick.winner.generation == MAX_UINT64 {
          return false, segments, bumps;
        }
        bumps := bumps + {ProposalReference(pick.source, pick.winner)};
      }
      var s := Segment(start, end, pick.winner, pick.source);
      RecordsTiesStep(pickAt, segments, before, s, bumps);
      segments := segments + [s];
      start := end;
    }
    CutsChain(starts, ends, segments);
    ok := true;
  }

  function Bump(s: Segment, bumps: set<ProposalRef>): Segment
    requires ProposalReference(s.source, s.range) in bumps ==> s.range.generation < MAX_UINT64
  {
    if ProposalReference(s.source, s.range) in bumps
    then s.(range := s.range.(generation := s.range.generation + 1))
    else s
  }

  method BumpGenerations(segments: seq<Segment>, bumps: set<ProposalRef>) returns (bumped: seq<Segment>)
    requires forall s :: s in segments && ProposalReference(s.source, s.range) in bumps ==>
              s.range.generation < MAX_UINT64
    ensures |bumped| == |segments|
    ensures forall i :: 0 <= i < |segments| ==> bumped[i] == Bump(segments[i], bumps)
  {
    bumped := segments;
    for i := 0 to |segments|
      invariant |bumped| == |segments|
      invariant forall j :: 0 <= j < i ==> bumped[j] == Bump(segments[j], bumps)
      invariant forall j :: i <= j < |segments| ==> bumped[j] == segments[j]
    {
      if ProposalReference(bumped[i].source, bumped[i].range) in bumps {
        bumped := bumped[i := bumped[i].(range := bumped[i].range.(generation := bumped[i].range.generation + 1))];
      }
    }
  }

  /** A bumped segment carries the merged label of all its keys. */
  lemma BumpedSegmentCarries(m: RangeMap, n: RangeMap, s: Segment, bumps: set<ProposalRef>)
    requires Validate(m) && Validate(n) && Decides(k => PickAt(m, n, k), s)
    requires forall ref :: ref in bumps <==> Bumped(m, n, ref)
    requires ProposalReference(s.source, s.range) in bumps ==> s.range.generation < MAX_UINT64
    ensures Carries(k => LabelAt(m, n, k), Clip(Bump(s, bumps)), s.source)
  {
    var pick, decide := k => PickAt(m, n, k), k => LabelAt(m, n, k);
    var r := Clip(Bump(s, bumps));
    assert PickAt(m, n, s.start) == pick(s.start);
    forall k: Key | InInterval(r.start, r.end, k)
      ensures decide(k) == Label(s.source, r.replicas, r.proposalId, r.generation)
    {
      assert pick(k) == pick(s.start);
      assert PickAt(m, n, k) == PickAt(m, n, s.start);
      assert RefAt(m, n, k) == ProposalReference(s.source, s.range);
      assert LabelAt(m, n, k) == Label(s.source, r.replicas, r.proposalId, r.generation);
    }
  }

  lemma BumpKeepsChain(segments: seq<Segment>, bumps: set<ProposalRef>, bumped: seq<Segment>)
    requires Chain(Clips(segments))
    requires forall s :: s in segments && ProposalReference(s.source, s.range) in bumps ==>
              s.range.generation < MAX_UINT64
    requires |bumped| == |segments| && forall i :: 0 <= i < |segments| ==> bumped[i] == Bump(segments[i], bumps)
    ensures Chain(Clips(bumped))
  {
    assert forall i :: 0 <= i < |segments| ==>
        Clips(bumped)[i].start == Clips(segments)[i].start && Clips(bumped)[i].end == Clips(segments)[i].end;
  }

  lemma BumpedSegmentsCarry(m: RangeMap, n: RangeMap, segments: seq<Segment>, bumps: set<ProposalRef>,
                            bumped: seq<Segment>)
    requires Validate(m) && Validate(n) && Chain(Clips(segments))
    requires forall j :: 0 <= j < |segments| ==> Decides(k => PickAt(m, n, k), segments[j])
    requires forall ref :: ref in bumps <==> Bumped(m, n, ref)
    requires forall s :: s in segments && ProposalReference(s.source, s.range) in bumps ==>
              s.range.generation < MAX_UINT64
    requires |bumped| == |segments| && forall i :: 0 <= i < |segments| ==> bumped[i] == Bump(segments[i], bumps)
    ensures Chain(Clips(bumped))
    ensures forall s :: s in bumped ==> Carries(k => LabelAt(m, n, k), Clip(s), s.source)
  {
    forall s | s in bumped ensures Carries(k => LabelAt(m, n, k), Clip(s), s.source) {
      var i :| 0 <= i < |bumped| && s == bumped[i];
      BumpedSegmentCarries(m, n, segments[i], bumps);
    }
    BumpKeepsChain(segments, bumps, bumped);
  }

  /** The references recorded during the overlay are the bumped proposals. */
  lemma RecordedAreBumped(m: RangeMap, n: RangeMap, segments: seq<Segment>, bumps: set<ProposalRef>)
    requires Validate(m) && Validate(n)
    requires segments != [] && segments[|segments| - 1].end == [] && Chain(Clips(segments))
    requires forall j :: 0 <= j < |segments| ==> Decides(k => PickAt(m, n, k), segments[j])
    requires RecordsTies(k => PickAt(m, n, k), segments, bumps)
    ensures !TieAtMaximum(m, n)
    ensures forall ref :: ref in bumps ==> ref.generation < MAX_UINT64
    ensures forall ref :: ref in bumps <==> Bumped(m, n, ref)
  {
    var pick := k => PickAt(m, n, k);
    TiesAreExact(pick, segments, bumps);
    assert forall k: Key :: pick(k) == PickAt(m, n, k);
    forall ref | ref in bumps ensures Bumped(m, n, ref) && ref.generation < MAX_UINT64 {
      var k: Key :| pick(k).tied && ProposalReference(pick(k).source, pick(k).winner) == ref;
      assert PickAt(m, n, k).tied && RefAt(m, n, k) == ref;
    }
    forall ref | Bumped(m, n, ref) ensures ref in bumps {
      var k: Key :| PickAt(m, n, k).tied && RefAt(m, n, k) == ref;
      assert pick(k).tied;
    }
  }

  /** Reconcile two routing tables. */
  method Merge(m: RangeMap, incoming: RangeMap) returns (result: MergeResult)
    ensures !Validate(m) ==> result == InvalidCurrent
    ensures Validate(m) && !Validate(incoming) ==> result == InvalidIncoming
    ensures Validate(m) && Validate(incoming) ==>
              if TieAtMaximum(m, incoming) then result == GenerationTieAtMaximum
              else result.Merged? && IsMerge(m, incoming, result.ranges) && result.changed == (m != result.ranges)
  {
    if !Validate(m) {
      return InvalidCurrent;
    }
    if !Validate(incoming) {
      return InvalidIncoming;
    }
    ghost var pickAt := k => PickAt(m, incoming, k);
    var boundaries := MergeBoundaries(m, incoming);
    var ends := boundaries + [[]];
    ghost var starts := [[]] + boundaries;
    BoundariesSuffice(m, incoming, boundaries, starts, ends);
    var ok, segments, bumps := Overlay(m, incoming, starts, ends, pickAt);
    if !ok {
      return GenerationTieAtMaximum;
    }
    RecordedAreBumped(m, incoming, segments, bumps);
    var ranges := Install(m, incoming, segments, bumps);
    return Merged(ranges, m != ranges);
  }

  /** Bump, clip and coalesce the winning segments. */
  method Install(ghost m: RangeMap, ghost n: RangeMap, segments: seq<Segment>, bumps: set<ProposalRef>)
      returns (ranges: RangeMap)
    requires Validate(m) && Validate(n)
    requires segments != [] && segments[|segments| - 1].end == [] && Chain(Clips(segments))
    requires forall j :: 0 <= j < |segments| ==> Decides(k => PickAt(m, n, k), segments[j])
    requires forall ref :: ref in bumps ==> ref.generation < MAX_UINT64
    requires forall ref :: ref in bumps <==> Bumped(m, n, ref)
    ensures IsMerge(m, n, ranges)
  {
    var bumped := BumpGenerations(segments, bumps);
    BumpedSegmentsCarry(m, n, segments, bumps, bumped);
    LabelsWellFormed(m, n);
    var sources;
    ranges, sources := CoalesceSegments(bumped, k => LabelAt(m, n, k));
    CoalescedIsMerge(m, n, ranges, sources);
  }
}
